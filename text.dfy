/**
 * The Python string primitives the checker is built from: `str.strip()`,
 * `str.split(sep)`, `sep.join(parts)` and `str.splitlines()`, on a fixed
 * whitespace class and a single line break.
 */
module Text {

  /** Whitespace as `\s` and `str.strip()` see it in this model: space, tab,
      line feed, carriage return, vertical tab and form feed. */
  predicate IsSpace(c: char) {
    c == ' ' || c == '\t' || c == '\n' || c == '\r' || c == '\U{000B}' || c == '\U{000C}'
  }

  ghost predicate AllSpace(s: string) {
    forall k :: 0 <= k < |s| ==> IsSpace(s[k])
  }

  /** No whitespace at either end. */
  ghost predicate Trimmed(s: string) {
    s == [] || (!IsSpace(s[0]) && !IsSpace(s[|s| - 1]))
  }

  /** `r` is `s` with some characters that satisfy `drop` deleted and
      nothing else changed: every other character survives, in order. */
  ghost predicate DeletesOnly(s: string, r: string, drop: char -> bool)
    decreases |s|
  {
    if s == [] then r == []
    else
      (r != [] && r[0] == s[0] && DeletesOnly(s[1..], r[1..], drop))
      || (drop(s[0]) && DeletesOnly(s[1..], r, drop))
  }

  /** One line of text with no surrounding whitespace. */
  ghost predicate TrimmedLine(s: string) {
    Trimmed(s) && '\n' !in s
  }

  /** `s.lstrip()`: the suffix left after dropping every leading whitespace character. */
  function TrimStart(s: string): (r: string)
    ensures |r| <= |s| && r == s[|s| - |r|..]
    ensures forall k :: 0 <= k < |s| - |r| ==> IsSpace(s[k])
    ensures r != [] ==> !IsSpace(r[0])
  {
    if s != [] && IsSpace(s[0]) then TrimStart(s[1..]) else s
  }

  /** `s.rstrip()`: the prefix left after dropping every trailing whitespace character. */
  function TrimEnd(s: string): (r: string)
    ensures |r| <= |s| && r == s[..|r|]
    ensures forall k :: |r| <= k < |s| ==> IsSpace(s[k])
    ensures r != [] ==> !IsSpace(r[|r| - 1])
  {
    if s != [] && IsSpace(s[|s| - 1]) then TrimEnd(s[..|s| - 1]) else s
  }

  /** `s.strip()`: both ends cut back to a non-whitespace character. */
  function Strip(s: string): (r: string)
    ensures Trimmed(r)
    ensures exists i, j :: 0 <= i <= j <= |s| && r == s[i..j] && AllSpace(s[..i]) && AllSpace(s[j..])
  {
    var t := TrimStart(s);
    var r := TrimEnd(t);
    assert r != [] ==> r[0] == t[0];
    TrimmedEnds(s, t, r, |s| - |t|);
    r
  }

  /** A prefix of a suffix of `s` is a slice of `s`; the parts cut off
      on either side are whitespace when each cut removed only whitespace. */
  lemma TrimmedEnds(s: string, t: string, r: string, i: nat)
    requires i <= |s| && t == s[i..] && |r| <= |t| && r == t[..|r|]
    requires forall k :: 0 <= k < i ==> IsSpace(s[k])
    requires forall k :: |r| <= k < |t| ==> IsSpace(t[k])
    ensures i + |r| <= |s| && r == s[i..i + |r|]
    ensures AllSpace(s[..i]) && AllSpace(s[i + |r|..])
  {
    var j := i + |r|;
    assert forall k :: 0 <= k < |s| - j ==> s[j..][k] == t[|r| + k];
  }

  /** `s.strip()` is empty exactly when `s` is all whitespace. */
  lemma StripEmpty(s: string)
    ensures Strip(s) == [] <==> AllSpace(s)
  {
  }

  /** A text with no surrounding whitespace is its own `strip()`. */
  lemma StripTrimmed(s: string)
    requires Trimmed(s)
    ensures Strip(s) == s
  {
  }

  /** `s.strip()` adds no character. */
  lemma StripChars(s: string)
    ensures forall c :: c in Strip(s) ==> c in s
  {
    var t := TrimStart(s);
    assert forall c :: c in Strip(s) ==> c in t;
    assert forall c :: c in t ==> c in s;
  }

  /** `s` begins with `prefix`. */
  predicate StartsWith(s: string, prefix: string) {
    |prefix| <= |s| && s[..|prefix|] == prefix
  }

  /** Python's `s.split(sep)` for a non-empty separator: the text is cut at
      every occurrence of `sep` found scanning from the left, occurrences do
      not overlap, and there is always one more piece than cuts. */
  function Split(s: string, sep: string): (parts: seq<string>)
    requires sep != []
    ensures parts != []
    decreases |s|
  {
    if s == [] then [""]
    else if StartsWith(s, sep) then [""] + Split(s[|sep|..], sep)
    else
      var rest := Split(s[1..], sep);
      [[s[0]] + rest[0]] + rest[1..]
  }

  /** One step of the split: a separator at the front ends an empty piece,
      any other first character joins the first piece of the rest. */
  lemma SplitStep(s: string, sep: string)
    requires sep != [] && s != []
    ensures StartsWith(s, sep) ==> Split(s, sep) == [""] + Split(s[|sep|..], sep)
    ensures !StartsWith(s, sep) ==>
              var rest := Split(s[1..], sep);
              Split(s, sep) == [[s[0]] + rest[0]] + rest[1..]
  {
  }

  /** A text shorter than the separator is a single piece. */
  lemma {:induction false} SplitShort(u: string, sep: string)
    requires sep != [] && |u| < |sep|
    ensures Split(u, sep) == [u]
    decreases |u|
  {
    if u != [] {
      SplitShort(u[1..], sep);
      assert [u[0]] + u[1..] == u;
    }
  }

  /** The pieces end with a piece shorter than the separator that is a
      suffix of the text, and there are at least two of them. */
  ghost predicate ShortLastPiece(t: string, sep: string, parts: seq<string>) {
    |parts| >= 2 &&
    var last := parts[|parts| - 1];
    |last| < |sep| && |last| <= |t| && last == t[|t| - |last|..]
  }

  /** A text ending with the separator splits into at least two pieces, the
      last of which is a suffix of the text shorter than the separator. */
  lemma {:induction false} SplitTrailing(s: string, sep: string)
    requires sep != []
    ensures ShortLastPiece(s + sep, sep, Split(s + sep, sep))
    decreases |s|
  {
    var t := s + sep;
    SplitStep(t, sep);
    if s == [] {
      assert t[|sep|..] == [];
      assert Split(t, sep) == [""] + [""];
    } else if StartsWith(t, sep) {
      var u := t[|sep|..];
      if |s| >= |sep| {
        assert u == s[|sep|..] + sep;
        SplitTrailing(s[|sep|..], sep);
      } else {
        SplitShort(u, sep);
      }
      CutKeepsShortLastPiece(t, sep, Split(u, sep));
    } else {
      assert t[1..] == s[1..] + sep;
      SplitTrailing(s[1..], sep);
      ConsKeepsShortLastPiece(t, sep, Split(t[1..], sep));
    }
  }

  /** A cut at the front keeps the short last piece of the rest. */
  lemma CutKeepsShortLastPiece(t: string, sep: string, rest: seq<string>)
    requires |sep| <= |t|
    requires ShortLastPiece(t[|sep|..], sep, rest) ||
             (rest == [t[|sep|..]] && |t| - |sep| < |sep|)
    ensures ShortLastPiece(t, sep, [""] + rest)
  {
    var last := rest[|rest| - 1];
    assert t[|sep|..][|t| - |sep| - |last|..] == t[|t| - |last|..];
  }

  /** A first character joined to the first piece keeps the short last piece
      of the rest. */
  lemma ConsKeepsShortLastPiece(t: string, sep: string, rest: seq<string>)
    requires t != [] && ShortLastPiece(t[1..], sep, rest)
    ensures ShortLastPiece(t, sep, [[t[0]] + rest[0]] + rest[1..])
  {
    var last := rest[|rest| - 1];
    assert t[1..][|t| - 1 - |last|..] == t[|t| - |last|..];
  }

  /** Python's `sep.join(parts)`: every part once, with one separator
      between neighbours. */
  function Join(parts: seq<string>, sep: string): (r: string)
    ensures parts != [] ==> |r| == TotalLength(parts) + (|parts| - 1) * |sep|
    ensures parts == [] ==> r == []
  {
    if parts == [] then ""
    else if |parts| == 1 then parts[0]
    else parts[0] + sep + Join(parts[1..], sep)
  }

  /** The sum of the lengths of the parts. */
  function TotalLength(parts: seq<string>): nat {
    if parts == [] then 0 else |parts[0]| + TotalLength(parts[1..])
  }

  /** The join of two or more parts ends with a separator and the last part. */
  lemma {:induction false} JoinLast(parts: seq<string>, sep: string)
    requires |parts| >= 2
    ensures Join(parts, sep) == Join(parts[..|parts| - 1], sep) + sep + parts[|parts| - 1]
    decreases |parts|
  {
    var n := |parts|;
    if n == 2 {
      assert parts[..1] == [parts[0]];
    } else {
      JoinLast(parts[1..], sep);
      assert parts[1..][..n - 2] == parts[..n - 1][1..];
      assert Join(parts[..n - 1], sep) == parts[0] + sep + Join(parts[..n - 1][1..], sep);
    }
  }

  /** Python's `s.splitlines()` with '\n' as the only line boundary: no piece
      for the empty text, and no empty last piece after a final line break. */
  function SplitLines(s: string): (lines: seq<string>)
    ensures forall i :: 0 <= i < |lines| ==> '\n' !in lines[i]
    ensures s == [] <==> lines == []
  {
    if s == [] then []
    else
      var parts := Split(s, "\n");
      SplitAvoids(s, '\n');
      if s[|s| - 1] == '\n' && |parts| > 1 then parts[..|parts| - 1] else parts
  }

  /** The lines of `s.splitlines()`, joined back with line breaks, give the
      text again up to a final line break. */
  lemma SplitLinesJoin(s: string)
    ensures Join(SplitLines(s), "\n") + (if s != [] && s[|s| - 1] == '\n' then "\n" else "") == s
  {
    if s != [] {
      var parts := Split(s, "\n");
      SplitJoin(s, "\n");
      if s[|s| - 1] == '\n' {
        var u := s[..|s| - 1];
        assert u + "\n" == s;
        SplitTrailing(u, "\n");
        JoinLast(parts, "\n");
      }
    }
  }

  /** `[line.strip() for line in lines]`: one stripped line per line. */
  function StripEach(lines: seq<string>): (r: seq<string>)
    ensures |r| == |lines|
    ensures forall i :: 0 <= i < |r| ==> r[i] == Strip(lines[i]) && Trimmed(r[i])
  {
    seq(|lines|, i requires 0 <= i < |lines| => Strip(lines[i]))
  }

  lemma JoinCons(c: char, parts: seq<string>, sep: string)
    requires parts != []
    ensures Join([[c] + parts[0]] + parts[1..], sep) == [c] + Join(parts, sep)
  {
    var ps := [[c] + parts[0]] + parts[1..];
    if |parts| > 1 {
      assert ps[1..] == parts[1..];
    }
  }

  /** `s.split(sep)` followed by `sep.join(...)` gives back `s`. */
  lemma {:induction false} SplitJoin(s: string, sep: string)
    requires sep != []
    ensures Join(Split(s, sep), sep) == s
    decreases |s|
  {
    if s == [] {
    } else if StartsWith(s, sep) {
      SplitJoin(s[|sep|..], sep);
      var rest := Split(s[|sep|..], sep);
      var parts := [""] + rest;
      assert Split(s, sep) == parts;
      assert parts[1..] == rest;
      assert Join(parts, sep) == "" + sep + Join(rest, sep);
      assert s == sep + s[|sep|..];
    } else {
      SplitJoin(s[1..], sep);
      var rest := Split(s[1..], sep);
      JoinCons(s[0], rest, sep);
      assert s == [s[0]] + s[1..];
    }
  }

  /** No piece of `s.split(c)` contains `c`. */
  lemma {:induction false} SplitAvoids(s: string, c: char)
    ensures forall i :: 0 <= i < |Split(s, [c])| ==> c !in Split(s, [c])[i]
    decreases |s|
  {
    if s == [] {
    } else if StartsWith(s, [c]) {
      SplitAvoids(s[1..], c);
    } else {
      SplitAvoids(s[1..], c);
      assert s[0] != c by { assert s[..1] == [s[0]]; }
      var rest := Split(s[1..], [c]);
      assert c !in [s[0]] + rest[0];
    }
  }

  /** Every character of every piece of `s.split(sep)` comes from `s`. */
  lemma {:induction false} SplitChars(s: string, sep: string)
    requires sep != []
    ensures forall i, c :: 0 <= i < |Split(s, sep)| && c in Split(s, sep)[i] ==> c in s
    decreases |s|
  {
    if s == [] {
    } else if StartsWith(s, sep) {
      SplitChars(s[|sep|..], sep);
      assert forall c :: c in s[|sep|..] ==> c in s;
    } else {
      SplitChars(s[1..], sep);
      assert forall c :: c in s[1..] ==> c in s;
    }
  }

  /** `sep` occurs in `s` at offset `k`. */
  predicate OccursAt(s: string, sep: string, k: nat)
    requires k <= |s|
  {
    StartsWith(s[k..], sep)
  }

  /** `p` can be followed by `sep` without the split cutting inside `p`:
      no occurrence of `sep` in `p + sep` starts before the end of `p`. */
  ghost predicate CutsOnlyAfter(p: string, sep: string) {
    forall k :: 0 <= k < |p| ==> !OccursAt(p + sep, sep, k)
  }

  /** `sep` does not occur in `p`. */
  ghost predicate Avoids(p: string, sep: string) {
    forall k :: 0 <= k < |p| ==> !OccursAt(p, sep, k)
  }

  lemma {:induction false} SplitAfterPart(p: string, sep: string, rest: string)
    requires sep != [] && CutsOnlyAfter(p, sep)
    ensures Split(p + sep + rest, sep) == [p] + Split(rest, sep)
    decreases |p|
  {
    var s := p + sep + rest;
    if p == [] {
      assert s == sep + rest;
      assert StartsWith(s, sep);
      assert s[|sep|..] == rest;
    } else {
      NoCutAtStart(p, sep, rest);
      CutsOnlyAfterTail(p, sep);
      SplitAfterPart(p[1..], sep, rest);
      assert s[1..] == p[1..] + sep + rest;
      assert p == [p[0]] + p[1..];
    }
  }

  lemma NoCutAtStart(p: string, sep: string, rest: string)
    requires sep != [] && p != [] && CutsOnlyAfter(p, sep)
    ensures !StartsWith(p + sep + rest, sep)
  {
    assert !OccursAt(p + sep, sep, 0);
    assert (p + sep)[0..] == p + sep;
    assert (p + sep + rest)[..|sep|] == (p + sep)[..|sep|];
  }

  lemma CutsOnlyAfterTail(p: string, sep: string)
    requires p != [] && CutsOnlyAfter(p, sep)
    ensures CutsOnlyAfter(p[1..], sep)
  {
    forall k | 0 <= k < |p[1..]|
      ensures !OccursAt(p[1..] + sep, sep, k)
    {
      assert !OccursAt(p + sep, sep, k + 1);
      assert (p[1..] + sep)[k..] == (p + sep)[k + 1..];
    }
  }

  lemma {:induction false} SplitWhole(p: string, sep: string)
    requires sep != [] && Avoids(p, sep)
    ensures Split(p, sep) == [p]
    decreases |p|
  {
    if p != [] {
      assert !OccursAt(p, sep, 0);
      assert p[0..] == p;
      assert Avoids(p[1..], sep) by {
        forall k | 0 <= k < |p[1..]|
          ensures !OccursAt(p[1..], sep, k)
        {
          assert !OccursAt(p, sep, k + 1);
          assert p[1..][k..] == p[k + 1..];
        }
      }
      SplitWhole(p[1..], sep);
      assert p == [p[0]] + p[1..];
    }
  }

  /** Joining pieces that the separator cannot cut gives back the pieces when split. */
  lemma {:induction false} JoinSplit(parts: seq<string>, sep: string)
    requires sep != [] && parts != []
    requires forall i :: 0 <= i < |parts| - 1 ==> CutsOnlyAfter(parts[i], sep)
    requires Avoids(parts[|parts| - 1], sep)
    ensures Split(Join(parts, sep), sep) == parts
    decreases |parts|
  {
    if |parts| == 1 {
      SplitWhole(parts[0], sep);
    } else {
      JoinSplit(parts[1..], sep);
      SplitAfterPart(parts[0], sep, Join(parts[1..], sep));
      assert parts == [parts[0]] + parts[1..];
    }
  }

  /** A single character occurs in `p` exactly when `p` contains it. */
  lemma AvoidsChar(p: string, c: char)
    requires c !in p
    ensures Avoids(p, [c])
  {
    forall k | 0 <= k < |p|
      ensures !OccursAt(p, [c], k)
    {
      assert p[k..][..1] == [p[k]];
    }
  }

  /** A joined text contains `c` only if a piece or the separator does. */
  lemma {:induction false} JoinAvoids(parts: seq<string>, sep: string, c: char)
    requires c !in sep
    requires forall i :: 0 <= i < |parts| ==> c !in parts[i]
    ensures c !in Join(parts, sep)
    decreases |parts|
  {
    if |parts| > 1 {
      JoinAvoids(parts[1..], sep, c);
    }
  }
}
