/**
 * The copydoc reader of email_checker.py (`read_text_blocks_correct`): the
 * file's content is cut into blocks at every blank line ("\n\n"); the first
 * line of a block names it and the other lines form its text. Reading the
 * file is not modelled: the content is an input.
 */
module Copydoc {
  import opened Wrappers
  import opened Text
  import opened OrderedDict

  /** The block separator of line 31. */
  const BlockSeparator: string := "\n\n"

  predicate IsBackslash(c: char) {
    c == '\\'
  }

  /** `s.replace("\\", "")`: exactly the backslashes are deleted; every
      other character is kept, in order, and no backslash is left. */
  function RemoveBackslashes(s: string): (r: string)
    ensures DeletesOnly(s, r, IsBackslash)
    ensures '\\' !in r
  {
    if s == [] then []
    else
      var rest := RemoveBackslashes(s[1..]);
      if s[0] == '\\' then rest
      else
        assert ([s[0]] + rest)[1..] == rest;
        [s[0]] + rest
  }

  /** Removing backslashes adds no character, and changes nothing in a text
      that has none. */
  lemma {:induction false} RemoveBackslashesChars(s: string)
    ensures forall c :: c in RemoveBackslashes(s) ==> c in s
    ensures '\\' !in s ==> RemoveBackslashes(s) == s
  {
    if s != [] {
      RemoveBackslashesChars(s[1..]);
      assert forall c :: c in s[1..] ==> c in s;
      assert s == [s[0]] + s[1..];
    }
  }

  /** One block (lines 33-35): its first line without backslashes, stripped,
      is the key; its other lines, each stripped, joined with single spaces
      and stripped again, are the value. */
  function ParseBlock(block: string): (e: (string, string))
    ensures Trimmed(e.0) && Trimmed(e.1)
  {
    var lines := Split(block, "\n");
    (Strip(RemoveBackslashes(lines[0])), Strip(Join(StripEach(lines[1..]), " ")))
  }

  /** The key and the value of a block are single trimmed lines, the key
      holds no backslash, and a block of one line has the empty value. */
  lemma ParseBlockWellFormed(block: string)
    ensures var e := ParseBlock(block);
            '\\' !in e.0 && TrimmedLine(e.0) && TrimmedLine(e.1)
    ensures '\n' !in block ==> ParseBlock(block).1 == ""
  {
    var lines := Split(block, "\n");
    SplitAvoids(block, '\n');
    var removed := RemoveBackslashes(lines[0]);
    RemoveBackslashesChars(lines[0]);
    StripChars(removed);
    var rest := StripEach(lines[1..]);
    forall i | 0 <= i < |rest| ensures '\n' !in rest[i] {
      assert '\n' !in lines[1..][i];
      StripChars(lines[1..][i]);
    }
    JoinAvoids(rest, " ", '\n');
    StripChars(Join(rest, " "));
    if '\n' !in block {
      AvoidsChar(block, '\n');
      SplitWhole(block, "\n");
      assert rest == [];
    }
  }

  /** `ParseBlock` applied to every block. */
  function ParseEach(blocks: seq<string>): (pairs: seq<(string, string)>)
    ensures |pairs| == |blocks|
    ensures forall i :: 0 <= i < |blocks| ==> pairs[i] == ParseBlock(blocks[i])
  {
    seq(|blocks|, i requires 0 <= i < |blocks| => ParseBlock(blocks[i]))
  }

  /** The dictionary filled by `text_blocks[key] = value` for each pair in turn. */
  function Build(pairs: seq<(string, string)>): (d: Dict)
    ensures |d| <= |pairs|
    ensures pairs != [] ==> d != []
  {
    if pairs == [] then []
    else
      var last := pairs[|pairs| - 1];
      Insert(Build(pairs[..|pairs| - 1]), last.0, last.1)
  }

  /** The dictionary `read_text_blocks_correct` returns for the file content. */
  function ParseCopydoc(content: string): (d: Dict)
    ensures d != []
  {
    Build(ParseEach(Split(content, BlockSeparator)))
  }

  /** `read_text_blocks_correct` on the file's content: the loop of lines 32-36. */
  method ReadTextBlocks(content: string) returns (textBlocks: Dict)
    ensures textBlocks == ParseCopydoc(content)
  {
    var blocks := Split(content, BlockSeparator);
    textBlocks := [];
    for n := 0 to |blocks|
      invariant textBlocks == Build(ParseEach(blocks[..n]))
    {
      var (key, value) := ParseBlock(blocks[n]);
      ParseEachStep(blocks, n);
      textBlocks := Insert(textBlocks, key, value);
    }
    assert blocks[..|blocks|] == blocks;
  }

  lemma ParseEachStep(blocks: seq<string>, n: nat)
    requires n < |blocks|
    ensures Build(ParseEach(blocks[..n + 1]))
         == Insert(Build(ParseEach(blocks[..n])), ParseBlock(blocks[n]).0, ParseBlock(blocks[n]).1)
  {
    var pairs := ParseEach(blocks[..n + 1]);
    assert pairs[..n] == ParseEach(blocks[..n]);
    assert pairs[n] == ParseBlock(blocks[n]);
    assert Build(pairs) == Insert(Build(pairs[..n]), pairs[n].0, pairs[n].1);
  }

  /** Every entry of the dictionary comes from one of the pairs, and there is
      one entry per key. */
  lemma {:induction false} BuildEntries(pairs: seq<(string, string)>)
    ensures UniqueKeys(Build(pairs))
    ensures forall e :: e in Build(pairs) ==> e in pairs
  {
    if pairs != [] {
      var prefix := pairs[..|pairs| - 1];
      BuildEntries(prefix);
      InsertEntries(Build(prefix), pairs[|pairs| - 1].0, pairs[|pairs| - 1].1);
      assert forall e :: e in prefix ==> e in pairs;
    }
  }

  /** The parsed copydoc has one entry per key; no key holds a backslash; no
      key or value holds a line break or surrounding whitespace. */
  lemma ParsedBlocksWellFormed(content: string)
    ensures UniqueKeys(ParseCopydoc(content))
    ensures forall e :: e in ParseCopydoc(content) ==>
              '\\' !in e.0 && TrimmedLine(e.0) && TrimmedLine(e.1)
  {
    var blocks := Split(content, BlockSeparator);
    var pairs := ParseEach(blocks);
    BuildEntries(pairs);
    forall e | e in Build(pairs)
      ensures '\\' !in e.0 && TrimmedLine(e.0) && TrimmedLine(e.1)
    {
      ParsedPairWellFormed(blocks, e);
    }
  }

  lemma ParsedPairWellFormed(blocks: seq<string>, e: (string, string))
    requires e in ParseEach(blocks)
    ensures '\\' !in e.0 && TrimmedLine(e.0) && TrimmedLine(e.1)
  {
    var i :| 0 <= i < |blocks| && ParseEach(blocks)[i] == e;
    ParseBlockWellFormed(blocks[i]);
  }

  /** The keys in the order they first appear. */
  function FirstOccurrences(ks: seq<string>): seq<string> {
    if ks == [] then []
    else
      var last := ks[|ks| - 1];
      var prefix := ks[..|ks| - 1];
      FirstOccurrences(prefix) + (if last in prefix then [] else [last])
  }

  /** The value of the last pair with key `k`. */
  function LastValue(pairs: seq<(string, string)>, k: string): Option<string> {
    if pairs == [] then None
    else if pairs[|pairs| - 1].0 == k then Some(pairs[|pairs| - 1].1)
    else LastValue(pairs[..|pairs| - 1], k)
  }

  /** Filling the dictionary pair by pair keeps each key where it first
      appeared. */
  lemma {:induction false} BuildKeyOrder(pairs: seq<(string, string)>)
    ensures Keys(Build(pairs)) == FirstOccurrences(Keys(pairs))
  {
    if pairs != [] {
      var n := |pairs| - 1;
      var prefix := pairs[..n];
      BuildKeyOrder(prefix);
      assert Keys(pairs)[..n] == Keys(prefix);
      BuildKeysPresent(prefix, pairs[n].0);
    }
  }

  /** A key is in the dictionary exactly when some pair names it. */
  lemma BuildKeysPresent(pairs: seq<(string, string)>, k: string)
    ensures k in Keys(Build(pairs)) <==> k in Keys(pairs)
  {
    BuildValue(pairs, k);
    LastValueNone(pairs, k);
  }

  /** Each key has the value of its last pair: last write wins. */
  lemma {:induction false} BuildValue(pairs: seq<(string, string)>, k: string)
    ensures Get(Build(pairs), k) == LastValue(pairs, k)
  {
    if pairs != [] {
      var last := pairs[|pairs| - 1];
      BuildValue(pairs[..|pairs| - 1], k);
      InsertGet(Build(pairs[..|pairs| - 1]), last.0, last.1, k);
    }
  }

  lemma {:induction false} LastValueNone(pairs: seq<(string, string)>, k: string)
    ensures LastValue(pairs, k).None? <==> k !in Keys(pairs)
  {
    if pairs != [] {
      var n := |pairs| - 1;
      LastValueNone(pairs[..n], k);
      assert Keys(pairs) == Keys(pairs[..n]) + [pairs[n].0];
    }
  }

  /** The value of a key is that of the last pair naming it. */
  lemma {:induction false} LastValueAt(pairs: seq<(string, string)>, i: nat)
    requires i < |pairs|
    requires forall j :: i < j < |pairs| ==> pairs[j].0 != pairs[i].0
    ensures LastValue(pairs, pairs[i].0) == Some(pairs[i].1)
  {
    var n := |pairs| - 1;
    if i < n {
      LastValueAt(pairs[..n], i);
    }
  }

  /** Filling the dictionary skips no pair: every pair's key is present. */
  lemma BuildKeepsEveryKey(pairs: seq<(string, string)>, i: nat)
    requires i < |pairs|
    ensures pairs[i].0 in Keys(Build(pairs))
  {
    var k := pairs[i].0;
    assert Keys(pairs)[i] == k;
    BuildKeysPresent(pairs, k);
  }

  /** A pair with no later pair for its key supplies the key's value. */
  lemma BuildKeepsLastValue(pairs: seq<(string, string)>, i: nat)
    requires i < |pairs|
    requires forall j :: i < j < |pairs| ==> pairs[j].0 != pairs[i].0
    ensures Get(Build(pairs), pairs[i].0) == Some(pairs[i].1)
  {
    LastValueAt(pairs, i);
    BuildValue(pairs, pairs[i].0);
  }

  /** The parser skips no block: every block, an empty one included, puts
      its key in the dictionary, and a block that no later block renames
      gives its key its value. */
  lemma ParserSkipsNoBlock(content: string, i: nat)
    requires i < |Split(content, BlockSeparator)|
    ensures ParseEach(Split(content, BlockSeparator))[i].0 in Keys(ParseCopydoc(content))
    ensures var pairs := ParseEach(Split(content, BlockSeparator));
            (forall j :: i < j < |pairs| ==> pairs[j].0 != pairs[i].0) ==>
              Get(ParseCopydoc(content), pairs[i].0) == Some(pairs[i].1)
  {
    var pairs := ParseEach(Split(content, BlockSeparator));
    BuildKeepsEveryKey(pairs, i);
    if forall j :: i < j < |pairs| ==> pairs[j].0 != pairs[i].0 {
      BuildKeepsLastValue(pairs, i);
    }
  }

  /** The keys of the parsed copydoc are the blocks' keys in the order each
      first appears: a repeated key keeps its first position. */
  lemma ParserKeepsFirstPosition(content: string)
    ensures Keys(ParseCopydoc(content)) == FirstOccurrences(Keys(ParseEach(Split(content, BlockSeparator))))
  {
    BuildKeyOrder(ParseEach(Split(content, BlockSeparator)));
  }

  /** An empty block (from a blank line at the start, or "\n\n\n\n") has the
      empty key and the empty value. */
  lemma EmptyBlock()
    ensures ParseBlock("") == ("", "")
  {
    assert Split("", "\n") == [""];
  }

  lemma LineBreakBlock()
    ensures ParseBlock("\n") == ("", "")
  {
    assert Split("\n", "\n") == [""] + Split("", "\n");
  }

  /** A content that ends with a blank line ends with an empty block: the
      dictionary maps the empty key to the empty value. */
  lemma TrailingBlankLine(content: string)
    ensures Get(ParseCopydoc(content + BlockSeparator), "") == Some("")
  {
    var blocks := Split(content + BlockSeparator, BlockSeparator);
    SplitTrailingSeparator(content);
    LastBlockEmpty(blocks[|blocks| - 1]);
    LastPairEmpty(blocks);
  }

  lemma LastPairEmpty(blocks: seq<string>)
    requires blocks != []
    requires ParseBlock(blocks[|blocks| - 1]) == ("", "")
    ensures Get(Build(ParseEach(blocks)), "") == Some("")
  {
    var pairs := ParseEach(blocks);
    var n := |blocks| - 1;
    assert pairs[n] == ("", "");
    BuildLastPair(pairs, "", "");
  }

  lemma LastBlockEmpty(block: string)
    requires block == "" || block == "\n"
    ensures ParseBlock(block) == ("", "")
  {
    if block == "" {
      EmptyBlock();
    } else {
      LineBreakBlock();
    }
  }

  /** The last pair always supplies its key's value. */
  lemma BuildLastPair(pairs: seq<(string, string)>, k: string, v: string)
    requires pairs != [] && pairs[|pairs| - 1] == (k, v)
    ensures Get(Build(pairs), k) == Some(v)
  {
    InsertGet(Build(pairs[..|pairs| - 1]), k, v, k);
  }

  /** Splitting a text that ends with "\n\n" leaves a last block that is
      empty or a single line break. */
  lemma SplitTrailingSeparator(s: string)
    ensures var parts := Split(s + BlockSeparator, BlockSeparator);
            |parts| >= 2 && (parts[|parts| - 1] == "" || parts[|parts| - 1] == "\n")
  {
    var t := s + BlockSeparator;
    SplitTrailing(s, BlockSeparator);
    var parts := Split(t, BlockSeparator);
    var last := parts[|parts| - 1];
    if last != [] {
      assert last == [t[|t| - 1]];
    }
  }

  /** A copydoc written as one block per entry, joined by blank lines. */
  function Serialize(entries: Dict): string {
    Join(EntryBlocks(entries), BlockSeparator)
  }

  /** The block of one entry: the name alone for an empty body, otherwise
      the name, a line break and the body. */
  function EntryBlock(name: string, body: string): (block: string)
    ensures body == "" ==> block == name
    ensures body != "" ==> block == name + "\n" + body
  {
    if body == "" then name else name + "\n" + body
  }

  function EntryBlocks(entries: Dict): (blocks: seq<string>)
    ensures |blocks| == |entries|
    ensures forall i :: 0 <= i < |entries| ==> blocks[i] == EntryBlock(entries[i].0, entries[i].1)
  {
    seq(|entries|, i requires 0 <= i < |entries| => EntryBlock(entries[i].0, entries[i].1))
  }

  /** Entries the copydoc format can carry: at least one entry, distinct
      single-line names with no backslash and no surrounding whitespace, and
      single-line bodies with no surrounding whitespace. */
  ghost predicate Serializable(entries: Dict) {
    && entries != []
    && UniqueKeys(entries)
    && forall i :: 0 <= i < |entries| ==>
         && '\\' !in entries[i].0 && TrimmedLine(entries[i].0)
         && TrimmedLine(entries[i].1)
  }

  /** Parsing a copydoc written from well-formed entries gives back the
      same entries in the same order. */
  lemma RoundTrip(entries: Dict)
    requires Serializable(entries)
    ensures ParseCopydoc(Serialize(entries)) == entries
  {
    SerializedBlocksSplit(entries);
    EntryBlocksParse(entries);
    BuildDistinct(entries);
  }

  lemma SerializedBlocksSplit(entries: Dict)
    requires Serializable(entries)
    ensures Split(Serialize(entries), BlockSeparator) == EntryBlocks(entries)
  {
    var blocks := EntryBlocks(entries);
    forall i | 0 <= i < |blocks|
      ensures CutsOnlyAfter(blocks[i], BlockSeparator) && Avoids(blocks[i], BlockSeparator)
    {
      EntryBlockUncut(entries[i].0, entries[i].1);
    }
    JoinSplit(blocks, BlockSeparator);
  }

  lemma EntryBlocksParse(entries: Dict)
    requires Serializable(entries)
    ensures ParseEach(EntryBlocks(entries)) == entries
  {
    var blocks := EntryBlocks(entries);
    forall i | 0 <= i < |blocks|
      ensures ParseBlock(blocks[i]) == entries[i]
    {
      EntryBlockParses(entries[i].0, entries[i].1);
    }
  }

  /** An entry's block holds at most one line break, followed by a
      non-break, and it does not end in one: a blank line cannot cut it. */
  lemma EntryBlockUncut(name: string, body: string)
    requires '\n' !in name && '\n' !in body
    ensures CutsOnlyAfter(EntryBlock(name, body), BlockSeparator)
    ensures Avoids(EntryBlock(name, body), BlockSeparator)
  {
    if body == "" {
      NameUncut(name);
    } else {
      BodyBlockUncut(name, body);
    }
  }

  /** A single line cannot be cut by a blank line. */
  lemma NameUncut(p: string)
    requires '\n' !in p
    ensures CutsOnlyAfter(p, BlockSeparator) && Avoids(p, BlockSeparator)
  {
    var q := p + BlockSeparator;
    forall k | 0 <= k < |p|
      ensures !OccursAt(q, BlockSeparator, k) && !OccursAt(p, BlockSeparator, k)
    {
      OccursAtPair(q, k);
      assert q[k] == p[k];
      if k + 1 < |p| {
        OccursAtPair(p, k);
      }
    }
  }

  lemma BodyBlockUncut(name: string, body: string)
    requires '\n' !in name && '\n' !in body && body != ""
    ensures CutsOnlyAfter(name + "\n" + body, BlockSeparator)
    ensures Avoids(name + "\n" + body, BlockSeparator)
  {
    var p := name + "\n" + body;
    var q := p + BlockSeparator;
    forall k | 0 <= k < |p|
      ensures !OccursAt(q, BlockSeparator, k) && !OccursAt(p, BlockSeparator, k)
    {
      OccursAtPair(q, k);
      if k + 1 < |p| {
        OccursAtPair(p, k);
      }
      if k < |name| {
        assert p[k] == name[k];
      } else if k == |name| {
        assert p[k + 1] == body[0];
      } else {
        assert p[k] == body[k - |name| - 1];
      }
    }
  }

  /** A blank line starts at `k` exactly when two line breaks do. */
  lemma OccursAtPair(s: string, k: nat)
    requires k + 1 < |s|
    ensures OccursAt(s, BlockSeparator, k) <==> s[k] == '\n' && s[k + 1] == '\n'
  {
    assert s[k..][..2] == [s[k], s[k + 1]];
  }

  /** A block written from a well-formed entry parses back to that entry. */
  lemma EntryBlockParses(name: string, body: string)
    requires '\\' !in name && TrimmedLine(name) && TrimmedLine(body)
    ensures ParseBlock(EntryBlock(name, body)) == (name, body)
  {
    if body == "" {
      NameParses(name);
    } else {
      BodyBlockParses(name, body);
    }
  }

  /** A block of one line is a name with the empty value. */
  lemma NameParses(name: string)
    requires '\\' !in name && TrimmedLine(name)
    ensures ParseBlock(name) == (name, "")
  {
    ParseBlockWellFormed(name);
    AvoidsChar(name, '\n');
    SplitWhole(name, "\n");
    RemoveBackslashesChars(name);
    StripTrimmed(name);
  }

  lemma BodyBlockParses(name: string, body: string)
    requires '\\' !in name && TrimmedLine(name) && TrimmedLine(body)
    ensures ParseBlock(name + "\n" + body) == (name, body)
  {
    CutsOnlyAfterChar(name, '\n');
    AvoidsChar(body, '\n');
    JoinSplit([name, body], "\n");
    assert Join([name, body], "\n") == name + "\n" + body;
    var lines := Split(name + "\n" + body, "\n");
    assert lines[1..] == [body];
    StripTrimmed(body);
    assert StripEach([body]) == [body];
    RemoveBackslashesChars(name);
    StripTrimmed(name);
  }

  lemma CutsOnlyAfterChar(p: string, c: char)
    requires c !in p
    ensures CutsOnlyAfter(p, [c])
  {
    forall k | 0 <= k < |p|
      ensures !OccursAt(p + [c], [c], k)
    {
      assert (p + [c])[k..][..1] == [p[k]];
    }
  }

  /** With one pair per key, filling the dictionary keeps the pairs as they are. */
  lemma {:induction false} BuildDistinct(pairs: seq<(string, string)>)
    requires UniqueKeys(pairs)
    ensures Build(pairs) == pairs
  {
    if pairs != [] {
      var n := |pairs| - 1;
      var prefix := pairs[..n];
      FreshLastKey(pairs);
      BuildDistinct(prefix);
      InsertNew(prefix, pairs[n].0, pairs[n].1);
      SplitLast(pairs);
    }
  }

}
