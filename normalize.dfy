/**
 * Text normalisation of email_checker.py: `clean_text`, the per-node
 * normaliser, and the loop that collects the normalised text nodes of the
 * email in document order (the HTML parser that yields those nodes is not
 * modelled: the nodes are an input).
 */
module Normalize {
  import opened Text

  /** No line of `r` begins with whitespace: not the first one (when `r`
      starts a line) and none that follows a line feed. */
  ghost predicate NoIndent(r: string, atLineStart: bool) {
    && (atLineStart && r != [] ==> !IsSpace(r[0]))
    && forall k :: 0 <= k < |r| - 1 && r[k] == '\n' ==> !IsSpace(r[k + 1])
  }

  /** The characters of `s` that are not whitespace, in order. */
  function NonSpace(s: string): string {
    if s == [] then []
    else if IsSpace(s[0]) then NonSpace(s[1..])
    else [s[0]] + NonSpace(s[1..])
  }

  /** The substitution `re.sub(r'(?m)^\s+', '', s)` read character by
      character: at the start of a line every whitespace character is
      dropped, and since `\s` includes the line feed a dropped run can span
      blank lines; the run ends at the first non-whitespace character. */
  function Unindent(s: string, atLineStart: bool): (r: string)
    ensures DeletesOnly(s, r, IsSpace)
    ensures NoIndent(r, atLineStart)
    decreases |s|
  {
    if s == [] then []
    else if atLineStart && IsSpace(s[0]) then Unindent(s[1..], true)
    else
      var rest := Unindent(s[1..], s[0] == '\n');
      assert s[0] == '\n' && rest != [] ==> !IsSpace(rest[0]);
      assert ([s[0]] + rest)[1..] == rest;
      [s[0]] + rest
  }

  /** `clean_text`: drops the whitespace that begins any line. */
  function CleanText(text: string): (r: string)
    ensures DeletesOnly(text, r, IsSpace)
    ensures NoIndent(r, true)
  {
    Unindent(text, true)
  }

  /** The position just after the last line break before `k`, or 0: where
      the line holding position `k` begins. */
  function LineStart(s: string, k: nat): (j: nat)
    requires k <= |s|
    ensures j <= k
    ensures j > 0 ==> s[j - 1] == '\n'
    ensures forall m :: j <= m < k ==> s[m] != '\n'
  {
    if k == 0 then 0
    else if s[k - 1] == '\n' then k
    else LineStart(s, k - 1)
  }

  /** The character at `k` belongs to the whitespace run that begins its
      line (a run that may continue over line breaks). */
  ghost predicate Indentation(s: string, k: nat)
    requires k < |s|
  {
    AllSpace(s[LineStart(s, k)..k + 1])
  }

  /** The characters of `s` from position `k` on that are not indentation,
      in order. */
  ghost function Survivors(s: string, k: nat): string
    requires k <= |s|
    decreases |s| - k
  {
    if k == |s| then []
    else (if Indentation(s, k) then [] else [s[k]]) + Survivors(s, k + 1)
  }

  /** Read from position `k`, with the line so far all whitespace or not,
      the substitution keeps exactly the characters that are not
      indentation. */
  lemma {:induction false} UnindentSurvivors(s: string, k: nat)
    requires k <= |s|
    ensures Unindent(s[k..], AllSpace(s[LineStart(s, k)..k])) == Survivors(s, k)
    decreases |s| - k
  {
    if k < |s| {
      UnindentSurvivors(s, k + 1);
      LineState(s, k);
      assert s[k..][0] == s[k] && s[k..][1..] == s[k + 1..];
      SurvivorStep(s[k..], AllSpace(s[LineStart(s, k)..k]), Indentation(s, k),
                   AllSpace(s[LineStart(s, k + 1)..k + 1]), Survivors(s, k + 1));
    }
  }

  /** One step of the substitution, in terms of whether the first
      character is dropped and whether the next one starts its line with
      whitespace so far. */
  lemma SurvivorStep(u: string, lineSoFar: bool, dropped: bool, next: bool, rest: string)
    requires u != []
    requires dropped <==> lineSoFar && IsSpace(u[0])
    requires next <==> u[0] == '\n' || dropped
    requires Unindent(u[1..], next) == rest
    ensures Unindent(u, lineSoFar) == (if dropped then [] else [u[0]]) + rest
  {
    UnindentStep(u, lineSoFar);
  }

  /** One step of the substitution. */
  lemma UnindentStep(u: string, atLineStart: bool)
    requires u != []
    ensures Unindent(u, atLineStart)
         == if atLineStart && IsSpace(u[0]) then Unindent(u[1..], true)
            else [u[0]] + Unindent(u[1..], u[0] == '\n')
  {
  }

  /** A character is indentation when its line so far is whitespace and it
      is whitespace too; the next position starts its line with whitespace
      so far after a line break or after indentation. */
  lemma LineState(s: string, k: nat)
    requires k < |s|
    ensures Indentation(s, k) <==> AllSpace(s[LineStart(s, k)..k]) && IsSpace(s[k])
    ensures AllSpace(s[LineStart(s, k + 1)..k + 1]) <==> s[k] == '\n' || Indentation(s, k)
  {
    var j := LineStart(s, k);
    assert s[j..k + 1] == s[j..k] + [s[k]];
    AllSpaceAppend(s[j..k], s[k]);
    if s[k] == '\n' {
      assert LineStart(s, k + 1) == k + 1;
      assert s[k + 1..k + 1] == [];
    } else {
      assert LineStart(s, k + 1) == j;
    }
  }

  lemma AllSpaceAppend(a: string, c: char)
    ensures AllSpace(a + [c]) <==> AllSpace(a) && IsSpace(c)
  {
    if AllSpace(a + [c]) {
      assert forall k :: 0 <= k < |a| ==> a[k] == (a + [c])[k];
      assert (a + [c])[|a|] == c;
    }
  }

  /** `clean_text` deletes whitespace only, keeps every other character in
      order, and leaves no line (other than an empty last one) starting
      with whitespace: indentation is removed outright, not replaced by a
      space. What survives is exactly every character outside the
      whitespace run that begins its line, so whitespace after the first
      non-whitespace character of a line is kept as it was. */
  lemma CleanTextDeletesIndentation(text: string)
    ensures CleanText(text) == Survivors(text, 0)
    ensures DeletesOnly(text, CleanText(text), IsSpace)
    ensures NonSpace(CleanText(text)) == NonSpace(text)
    ensures |CleanText(text)| <= |text|
    ensures CleanText(text) != [] ==> !IsSpace(CleanText(text)[0])
    ensures forall k :: 0 <= k < |CleanText(text)| - 1 && CleanText(text)[k] == '\n' ==>
              !IsSpace(CleanText(text)[k + 1])
  {
    DeletionKeepsNonSpace(text, CleanText(text));
    UnindentSurvivors(text, 0);
    assert text[0..] == text;
  }

  lemma {:induction false} DeletionKeepsNonSpace(s: string, r: string)
    requires DeletesOnly(s, r, IsSpace)
    ensures NonSpace(r) == NonSpace(s) && |r| <= |s|
    decreases |s|
  {
    if s != [] {
      if r != [] && r[0] == s[0] && DeletesOnly(s[1..], r[1..], IsSpace) {
        DeletionKeepsNonSpace(s[1..], r[1..]);
        assert r == [r[0]] + r[1..];
      } else {
        DeletionKeepsNonSpace(s[1..], r);
      }
    }
  }

  /** A text with no indented line is left unchanged. */
  lemma {:induction false} UnindentFixed(s: string, atLineStart: bool)
    requires NoIndent(s, atLineStart)
    ensures Unindent(s, atLineStart) == s
    decreases |s|
  {
    if s != [] {
      assert NoIndent(s[1..], s[0] == '\n') by {
        forall k | 0 <= k < |s[1..]| - 1 && s[1..][k] == '\n'
          ensures !IsSpace(s[1..][k + 1])
        {
          assert s[k + 1] == '\n';
        }
        if s[0] == '\n' && s[1..] != [] {
          assert s[0] == '\n' && 0 < |s| - 1;
        }
      }
      UnindentFixed(s[1..], s[0] == '\n');
      assert s == [s[0]] + s[1..];
    }
  }

  /** `clean_text` is idempotent. */
  lemma CleanTextIdempotent(text: string)
    ensures CleanText(CleanText(text)) == CleanText(text)
  {
    UnindentFixed(CleanText(text), true);
  }

  /** On a single line `clean_text` only strips the leading whitespace. */
  lemma {:induction false} UnindentOneLine(s: string)
    requires '\n' !in s
    ensures Unindent(s, true) == TrimStart(s)
    decreases |s|
  {
    if s != [] {
      if IsSpace(s[0]) {
        UnindentOneLine(s[1..]);
      } else {
        UnindentInsideLine(s[1..]);
        assert s == [s[0]] + s[1..];
      }
    }
  }

  /** Inside a line, away from its start, nothing is removed. */
  lemma {:induction false} UnindentInsideLine(s: string)
    requires '\n' !in s
    ensures Unindent(s, false) == s
    decreases |s|
  {
    if s != [] {
      UnindentInsideLine(s[1..]);
      assert s == [s[0]] + s[1..];
    }
  }

  /** The per-node normaliser (lines 21-23): split the node into lines,
      strip each, join them with single spaces, apply `clean_text`, strip. */
  function NormalizeNode(text: string): (r: string)
    ensures Trimmed(r)
  {
    Strip(CleanText(Join(StripEach(SplitLines(text)), " ")))
  }

  /** Every normalised node is one line with no surrounding whitespace, and
      a node made only of whitespace normalises to the empty string. */
  lemma NormalizedNodeIsTrimmedLine(text: string)
    ensures Trimmed(NormalizeNode(text))
    ensures '\n' !in NormalizeNode(text)
    ensures AllSpace(text) ==> NormalizeNode(text) == ""
  {
    var joined := Join(StripEach(SplitLines(text)), " ");
    JoinedLinesOneLine(text);
    UnindentOneLine(joined);
    StripChars(CleanText(joined));
    if AllSpace(text) {
      CleanTextRedundantInNode(text);
      BlankLinesJoinBlank(text);
    }
  }

  /** Since joining the lines leaves no line feed, `clean_text` adds nothing
      to the final strip in the per-node normaliser. */
  lemma CleanTextRedundantInNode(text: string)
    ensures NormalizeNode(text) == Strip(Join(StripEach(SplitLines(text)), " "))
  {
    var joined := Join(StripEach(SplitLines(text)), " ");
    JoinedLinesOneLine(text);
    UnindentOneLine(joined);
    TrimStartTwice(joined);
  }

  lemma BlankLinesJoinBlank(text: string)
    requires AllSpace(text)
    ensures Strip(Join(StripEach(SplitLines(text)), " ")) == ""
  {
    SplitLinesAllSpace(text);
    JoinAllSpace(StripEach(SplitLines(text)), " ");
    StripEmpty(Join(StripEach(SplitLines(text)), " "));
  }

  /** Joining the stripped lines with spaces leaves no line feed. */
  lemma JoinedLinesOneLine(text: string)
    ensures '\n' !in Join(StripEach(SplitLines(text)), " ")
  {
    var lines := SplitLines(text);
    var stripped := StripEach(lines);
    forall i | 0 <= i < |stripped|
      ensures '\n' !in stripped[i]
    {
      assert '\n' !in lines[i];
      StripChars(lines[i]);
    }
    JoinAvoids(stripped, " ", '\n');
  }

  lemma TrimStartTwice(s: string)
    ensures TrimStart(TrimStart(s)) == TrimStart(s)
  {
  }

  lemma SplitLinesAllSpace(text: string)
    requires AllSpace(text)
    ensures forall i :: 0 <= i < |StripEach(SplitLines(text))| ==> StripEach(SplitLines(text))[i] == ""
  {
    var lines := SplitLines(text);
    if text != [] {
      SplitChars(text, "\n");
      var parts := Split(text, "\n");
      forall i | 0 <= i < |lines|
        ensures Strip(lines[i]) == ""
      {
        assert AllSpace(lines[i]) by {
          assert lines[i] == parts[i];
          forall k | 0 <= k < |lines[i]| ensures IsSpace(lines[i][k]) {
            assert lines[i][k] in parts[i];
            assert lines[i][k] in text;
          }
        }
        StripEmpty(lines[i]);
      }
    }
  }

  lemma {:induction false} JoinAllSpace(parts: seq<string>, sep: string)
    requires AllSpace(sep)
    requires forall i :: 0 <= i < |parts| ==> parts[i] == ""
    ensures AllSpace(Join(parts, sep))
    decreases |parts|
  {
    if |parts| > 1 {
      JoinAllSpace(parts[1..], sep);
      var rest := Join(parts[1..], sep);
      assert Join(parts, sep) == sep + rest;
    }
  }

  /** The blocks collected from the text nodes (lines 17-24): every
      non-empty node, normalised, in document order. */
  function ExtractedBlocks(nodes: seq<string>): (blocks: seq<string>)
    ensures |blocks| <= |nodes|
  {
    if nodes == [] then []
    else
      var last := nodes[|nodes| - 1];
      ExtractedBlocks(nodes[..|nodes| - 1]) + (if last != "" then [NormalizeNode(last)] else [])
  }

  lemma ExtractedBlocksStep(nodes: seq<string>, n: nat)
    requires n < |nodes|
    ensures ExtractedBlocks(nodes[..n + 1])
         == ExtractedBlocks(nodes[..n]) + (if nodes[n] != "" then [NormalizeNode(nodes[n])] else [])
  {
    assert nodes[..n + 1][..n] == nodes[..n];
  }

  lemma AppendTrimmedLine(blocks: seq<string>, block: string)
    requires forall i :: 0 <= i < |blocks| ==> TrimmedLine(blocks[i])
    requires TrimmedLine(block)
    ensures forall i :: 0 <= i < |blocks + [block]| ==> TrimmedLine((blocks + [block])[i])
  {
  }

  /** Every collected block is a single line with no surrounding whitespace. */
  lemma {:induction false} ExtractedBlocksAreTrimmedLines(nodes: seq<string>)
    ensures forall i :: 0 <= i < |ExtractedBlocks(nodes)| ==> TrimmedLine(ExtractedBlocks(nodes)[i])
  {
    if nodes != [] {
      var n := |nodes| - 1;
      ExtractedBlocksAreTrimmedLines(nodes[..n]);
      var before := ExtractedBlocks(nodes[..n]);
      if nodes[n] != "" {
        var block := NormalizeNode(nodes[n]);
        assert TrimmedLine(block) by { NormalizedNodeIsTrimmedLine(nodes[n]); }
        AppendTrimmedLine(before, block);
      }
    }
  }

  /** The loop of `extract_text_blocks_from_html` over the given nodes:
      skips empty nodes (`if text:`) and appends each other node normalised. */
  method ExtractTextBlocks(nodes: seq<string>) returns (textBlocks: seq<string>)
    ensures textBlocks == ExtractedBlocks(nodes)
    ensures forall i :: 0 <= i < |textBlocks| ==> TrimmedLine(textBlocks[i])
  {
    textBlocks := [];
    var n := 0;
    while n < |nodes|
      invariant 0 <= n <= |nodes|
      invariant textBlocks == ExtractedBlocks(nodes[..n])
    {
      var text := nodes[n];
      ExtractedBlocksStep(nodes, n);
      if text != "" {
        textBlocks := textBlocks + [NormalizeNode(text)];
      }
      n := n + 1;
    }
    assert nodes[..n] == nodes;
    BlocksAreTrimmedLines(nodes, textBlocks);
  }

  /** `ExtractedBlocksAreTrimmedLines` about a named sequence of blocks,
      which keeps the loop's final proof step small. */
  lemma BlocksAreTrimmedLines(nodes: seq<string>, blocks: seq<string>)
    requires blocks == ExtractedBlocks(nodes)
    ensures forall i :: 0 <= i < |blocks| ==> TrimmedLine(blocks[i])
  {
    ExtractedBlocksAreTrimmedLines(nodes);
  }
}
