/**
 * The difference snippet of email_checker.py (`find_difference_snippet`):
 * from the edit script that turns the expected text into the found text,
 * take the first change and cut a window of ten characters either side of
 * it. The edit script (difflib's `get_opcodes`) is an input here, described
 * by the shape difflib guarantees.
 */
module Snippet {

  datatype Tag = Equal | Replace | Delete | Insert

  /** `(tag, i1, i2, j1, j2)`: `a[i1:i2]` becomes `b[j1:j2]`. */
  datatype Opcode = Opcode(tag: Tag, i1: nat, i2: nat, j1: nat, j2: nat)

  /** One opcode fits the two texts: its ranges lie within them, an `equal`
      range holds the same text on both sides, a `delete` inserts nothing,
      an `insert` deletes nothing, and no change is empty. */
  ghost predicate OpcodeFits(a: string, b: string, op: Opcode) {
    && op.i1 <= op.i2 <= |a| && op.j1 <= op.j2 <= |b|
    && match op.tag
       case Equal => a[op.i1..op.i2] == b[op.j1..op.j2]
       case Replace => op.i1 < op.i2 && op.j1 < op.j2
       case Delete => op.i1 < op.i2 && op.j1 == op.j2
       case Insert => op.i1 == op.i2 && op.j1 < op.j2
  }

  /** An edit script as `get_opcodes` returns it: consecutive ranges that
      tile both texts from the start to the end; two empty texts have the
      empty script. */
  ghost predicate WellFormedOpcodes(a: string, b: string, ops: seq<Opcode>) {
    if ops == [] then a == [] && b == []
    else
      && ops[0].i1 == 0 && ops[0].j1 == 0
      && ops[|ops| - 1].i2 == |a| && ops[|ops| - 1].j2 == |b|
      && (forall k :: 0 < k < |ops| ==> ops[k - 1].i2 == ops[k].i1 && ops[k - 1].j2 == ops[k].j1)
      && (forall k :: 0 <= k < |ops| ==> OpcodeFits(a, b, ops[k]))
  }

  /** The position of the first opcode that is not `equal`, or `|ops|`. */
  function FirstChange(ops: seq<Opcode>): (k: nat)
    ensures k <= |ops|
    ensures k < |ops| ==> ops[k].tag != Equal
    ensures forall j :: 0 <= j < k ==> ops[j].tag == Equal
  {
    if ops == [] then 0
    else if ops[0].tag != Equal then 0
    else 1 + FirstChange(ops[1..])
  }

  /** A Python index into a text of length `n`, as a slice bound: a
      negative index counts from the end, and the result is clamped. */
  function SliceBound(i: int, n: nat): (b: nat)
    ensures b <= n
    ensures 0 <= i <= n ==> b == i
  {
    if i < 0 then (if i + n < 0 then 0 else i + n)
    else if i > n then n
    else i
  }

  /** Python's `s[start:end]`. */
  function PySlice(s: string, start: int, end: int): (r: string)
    ensures |r| <= |s|
    ensures 0 <= start <= end <= |s| ==> r == s[start..end]
    ensures end <= start && 0 <= end ==> r == []
  {
    var lo := SliceBound(start, |s|);
    var hi := SliceBound(end, |s|);
    if lo < hi then s[lo..hi] else []
  }

  /** The window of lines 66-67 around an opcode. */
  function WindowStart(op: Opcode): (start: int)
    ensures 0 <= start <= op.i1 && op.i1 - 10 <= start
    ensures start == 0 || start == op.i1 - 10
  {
    if op.i1 - 10 > 0 then op.i1 - 10 else 0
  }

  function WindowEnd(op: Opcode, correctLength: nat): (end: int)
    ensures end <= correctLength && end <= op.i2 + 10
    ensures end == correctLength || end == op.i2 + 10
  {
    if op.i2 + 10 < correctLength then op.i2 + 10 else correctLength
  }

  /** `find_difference_snippet` (lines 63-69) on the given edit script, as
      written: the window is computed from the expected text's indices and
      the same indices slice both texts. */
  function FindDifferenceSnippet(correct: string, email: string, ops: seq<Opcode>): (r: (string, string))
    ensures |r.0| <= |correct| && |r.1| <= |email|
    ensures (forall k :: 0 <= k < |ops| ==> ops[k].tag == Equal) ==> r == ("", "")
  {
    var k := FirstChange(ops);
    if k == |ops| then ("", "")
    else
      var start := WindowStart(ops[k]);
      var end := WindowEnd(ops[k], |correct|);
      (PySlice(correct, start, end), PySlice(email, start, end))
  }

  /** `find_difference_snippet` as the loop of lines 64-69: scan the
      opcodes and return the window of the first one that is not `equal`. */
  method FindSnippet(correct: string, email: string, ops: seq<Opcode>) returns (expected: string, found: string)
    ensures (expected, found) == FindDifferenceSnippet(correct, email, ops)
  {
    for k := 0 to |ops|
      invariant forall j :: 0 <= j < k ==> ops[j].tag == Equal
    {
      var op := ops[k];
      if op.tag != Equal {
        var start := if op.i1 - 10 > 0 then op.i1 - 10 else 0;
        var end := if op.i2 + 10 < |correct| then op.i2 + 10 else |correct|;
        FirstChangeAt(ops, k);
        return PySlice(correct, start, end), PySlice(email, start, end);
      }
    }
    FirstChangeAt(ops, |ops|);
    return "", "";
  }

  /** The first change is the position before which every opcode is
      `equal` and at which one is not. */
  lemma {:induction false} FirstChangeAt(ops: seq<Opcode>, k: nat)
    requires k <= |ops|
    requires forall j :: 0 <= j < k ==> ops[j].tag == Equal
    requires k < |ops| ==> ops[k].tag != Equal
    ensures FirstChange(ops) == k
  {
    if k > 0 {
      FirstChangeAt(ops[1..], k - 1);
    }
  }

  /** For nonnegative bounds a Python slice is the ordinary subsequence
      between the bounds cut back to the text, and empty when they cross. */
  lemma PySliceNonNegative(s: string, start: int, end: int)
    requires 0 <= start && 0 <= end
    ensures var lo := if start < |s| then start else |s|;
            var hi := if end < |s| then end else |s|;
            PySlice(s, start, end) == if lo < hi then s[lo..hi] else []
  {
  }

  /** A range inside a window is found in the window at the shifted offsets. */
  lemma SliceWithin(t: string, lo: int, hi: int, i: nat, j: nat)
    requires 0 <= lo <= i <= j <= hi <= |t|
    ensures t[lo..hi][i - lo..j - lo] == t[i..j]
  {
    var w := t[lo..hi][i - lo..j - lo];
    assert |w| == j - i;
    forall k | 0 <= k < j - i ensures w[k] == t[i + k] {
      assert w[k] == t[lo..hi][i - lo + k];
    }
  }

  /** Around the first change of a well-formed script, the window holds the
      changed range of the expected text with at most ten characters on
      either side; the expected snippet is exactly that window of the
      expected text, and the found snippet is the same index range of the
      found text, clamped to it (possibly empty). */
  lemma SnippetWindow(correct: string, email: string, ops: seq<Opcode>)
    requires WellFormedOpcodes(correct, email, ops)
    requires FirstChange(ops) < |ops|
    ensures var op := ops[FirstChange(ops)];
            var start := WindowStart(op);
            var end := WindowEnd(op, |correct|);
            var r := FindDifferenceSnippet(correct, email, ops);
            && 0 <= start <= op.i1 <= op.i2 <= end <= |correct|
            && r.0 == correct[start..end]
            && r.0[op.i1 - start..op.i2 - start] == correct[op.i1..op.i2]
            && |r.0| <= (op.i2 - op.i1) + 20
            && r.1 == (if start < |email| then email[start..if end < |email| then end else |email|] else [])
  {
    var op := ops[FirstChange(ops)];
    assert OpcodeFits(correct, email, op);
    ExpectedWindow(correct, email, op);
  }

  /** The window of one opcode that fits the texts, cut from both texts
      with the expected text's indices. */
  lemma ExpectedWindow(correct: string, email: string, op: Opcode)
    requires op.i1 <= op.i2 <= |correct|
    ensures var start := WindowStart(op);
            var end := WindowEnd(op, |correct|);
            var expected := PySlice(correct, start, end);
            && 0 <= start <= op.i1 <= op.i2 <= end <= |correct|
            && expected == correct[start..end]
            && expected[op.i1 - start..op.i2 - start] == correct[op.i1..op.i2]
            && |expected| <= (op.i2 - op.i1) + 20
            && PySlice(email, start, end)
               == (if start < |email| then email[start..if end < |email| then end else |email|] else [])
  {
    var start := WindowStart(op);
    var end := WindowEnd(op, |correct|);
    PySliceNonNegative(email, start, end);
    SliceWithin(correct, start, end, op.i1, op.i2);
  }

  /** Before the first change the two texts agree: the `equal` opcodes seen
      so far end at the same offset in both, with the same text before it. */
  lemma {:induction false} EqualRun(a: string, b: string, ops: seq<Opcode>, k: nat)
    requires WellFormedOpcodes(a, b, ops)
    requires 0 < k <= |ops|
    requires forall j :: 0 <= j < k ==> ops[j].tag == Equal
    ensures ops[k - 1].i2 == ops[k - 1].j2
    ensures a[..ops[k - 1].i2] == b[..ops[k - 1].j2]
  {
    var op := ops[k - 1];
    assert OpcodeFits(a, b, op);
    if k == 1 {
      assert a[..op.i2] == a[op.i1..op.i2];
      assert b[..op.j2] == b[op.j1..op.j2];
    } else {
      EqualRun(a, b, ops, k - 1);
      assert ops[k - 2].i2 == op.i1 && ops[k - 2].j2 == op.j1;
      assert a[..op.i2] == a[..op.i1] + a[op.i1..op.i2];
      assert b[..op.j2] == b[..op.j1] + b[op.j1..op.j2];
    }
  }

  /** The first change starts at the same offset in both texts, and the
      texts agree before it. */
  lemma FirstChangeAligned(a: string, b: string, ops: seq<Opcode>)
    requires WellFormedOpcodes(a, b, ops)
    requires FirstChange(ops) < |ops|
    ensures ops[FirstChange(ops)].i1 == ops[FirstChange(ops)].j1
    ensures a[..ops[FirstChange(ops)].i1] == b[..ops[FirstChange(ops)].j1]
  {
    var k := FirstChange(ops);
    if k > 0 {
      EqualRun(a, b, ops, k);
    }
  }

  /** A script with no change describes two equal texts, so texts that
      differ always yield a snippet from their first change. */
  lemma AllEqualMeansSameText(a: string, b: string, ops: seq<Opcode>)
    requires WellFormedOpcodes(a, b, ops)
    ensures FirstChange(ops) == |ops| ==> a == b
  {
    if ops != [] && FirstChange(ops) == |ops| {
      EqualRun(a, b, ops, |ops|);
      WholePrefix(a, b, ops[|ops| - 1].i2);
    }
  }

  /** Two texts whose prefixes of their full length agree are equal. */
  lemma WholePrefix(a: string, b: string, n: nat)
    requires n == |a| == |b| && a[..n] == b[..n]
    ensures a == b
  {
    assert a[..n] == a && b[..n] == b;
  }

  /** The found snippet of a change at the end of the expected text misses
      the change: "Hi" against "Hi there" shows "Hi" on both sides, since
      the found text is sliced with the expected text's window. */
  lemma EmailSnippetMissesInsertion()
    ensures var ops := [Opcode(Equal, 0, 2, 0, 2), Opcode(Insert, 2, 2, 2, 8)];
            && WellFormedOpcodes("Hi", "Hi there", ops)
            && FindDifferenceSnippet("Hi", "Hi there", ops) == ("Hi", "Hi")
            && ops[1].tag != Equal && "Hi there"[ops[1].j1..ops[1].j2] == " there"
  {
    var ops := [Opcode(Equal, 0, 2, 0, 2), Opcode(Insert, 2, 2, 2, 8)];
    assert "Hi"[0..2] == "Hi there"[0..2];
    assert OpcodeFits("Hi", "Hi there", ops[0]);
    assert OpcodeFits("Hi", "Hi there", ops[1]);
    assert FirstChange(ops) == 1 by {
      assert ops[1..][0].tag == Insert;
    }
    assert FindDifferenceSnippet("Hi", "Hi there", ops)
        == (PySlice("Hi", 0, 2), PySlice("Hi there", 0, 2));
    assert "Hi"[0..2] == "Hi";
    assert "Hi there"[0..2] == "Hi";
  }

  /** The window of the found text around an opcode: its own indices,
      clamped to its own length. */
  function FoundWindowStart(op: Opcode): (start: int)
    ensures 0 <= start <= op.j1 && op.j1 - 10 <= start
    ensures start == 0 || start == op.j1 - 10
  {
    if op.j1 - 10 > 0 then op.j1 - 10 else 0
  }

  function FoundWindowEnd(op: Opcode, emailLength: nat): (end: int)
    ensures end <= emailLength && end <= op.j2 + 10
    ensures end == emailLength || end == op.j2 + 10
  {
    if op.j2 + 10 < emailLength then op.j2 + 10 else emailLength
  }

  /** The snippet the function evidently means to return: each text is cut
      around the first change with its own side's indices. */
  function AlignedSnippet(correct: string, email: string, ops: seq<Opcode>): (r: (string, string))
    ensures r.0 == FindDifferenceSnippet(correct, email, ops).0
    ensures |r.1| <= |email|
  {
    var k := FirstChange(ops);
    if k == |ops| then ("", "")
    else
      var op := ops[k];
      (PySlice(correct, WindowStart(op), WindowEnd(op, |correct|)),
       PySlice(email, FoundWindowStart(op), FoundWindowEnd(op, |email|)))
  }

  /** With the aligned window each snippet holds its side of the first
      change with at most ten characters on either side. */
  lemma AlignedSnippetShowsChange(correct: string, email: string, ops: seq<Opcode>)
    requires WellFormedOpcodes(correct, email, ops)
    requires FirstChange(ops) < |ops|
    ensures var op := ops[FirstChange(ops)];
            var r := AlignedSnippet(correct, email, ops);
            var s := FoundWindowStart(op);
            && 0 <= s <= op.j1 && op.j2 - s <= |r.1|
            && r.1[op.j1 - s..op.j2 - s] == email[op.j1..op.j2]
            && |r.1| <= (op.j2 - op.j1) + 20
            && r.0 == FindDifferenceSnippet(correct, email, ops).0
  {
    var op := ops[FirstChange(ops)];
    assert OpcodeFits(correct, email, op);
    FoundWindow(email, op);
  }

  /** The found text's own window around one opcode that fits it. */
  lemma FoundWindow(email: string, op: Opcode)
    requires op.j1 <= op.j2 <= |email|
    ensures var s := FoundWindowStart(op);
            var found := PySlice(email, s, FoundWindowEnd(op, |email|));
            && 0 <= s <= op.j1 && op.j2 - s <= |found|
            && found[op.j1 - s..op.j2 - s] == email[op.j1..op.j2]
            && |found| <= (op.j2 - op.j1) + 20
  {
    var s := FoundWindowStart(op);
    var e := FoundWindowEnd(op, |email|);
    PySliceNonNegative(email, s, e);
    SliceWithin(email, s, e, op.j1, op.j2);
  }

  /** The corrected snippet shows the insertion the as-written one misses. */
  lemma AlignedSnippetShowsInsertion()
    ensures var ops := [Opcode(Equal, 0, 2, 0, 2), Opcode(Insert, 2, 2, 2, 8)];
            AlignedSnippet("Hi", "Hi there", ops) == ("Hi", "Hi there")
  {
    var ops := [Opcode(Equal, 0, 2, 0, 2), Opcode(Insert, 2, 2, 2, 8)];
    assert FirstChange(ops) == 1 by {
      assert ops[1..][0].tag == Insert;
    }
    assert AlignedSnippet("Hi", "Hi there", ops)
        == (PySlice("Hi", 0, 2), PySlice("Hi there", 0, 8));
    assert "Hi"[0..2] == "Hi";
    assert "Hi there"[0..8] == "Hi there";
  }
}
