/**
 * The block comparator of email_checker.py (`compare_text_blocks`): every
 * expected block of the copydoc is scored against every text block of the
 * email. A candidate scoring 100 is a perfect match, one scoring at least
 * 50 and below 100 is a near match that is reported as a discrepancy, and
 * an expected block with neither is reported missing. The similarity score
 * (difflib's ratio times 100) is a parameter of the model.
 */
module Compare {
  import opened Wrappers
  import opened OrderedDict

  /** A similarity score: a percentage. */
  type Score = r: real | 0.0 <= r <= 100.0

  /** One discrepancy record: the key and expected text of a copydoc block,
      the email block that nearly matches it, and their similarity. */
  datatype Discrepancy = Discrepancy(key: string, expected: string, found: string, similarity: Score)

  /** The records the inner loop (lines 45-52) adds for one expected block,
      in the order of the candidates. */
  function RecordsFor(sim: (string, string) -> Score, key: string, text: string, candidates: seq<string>)
    : (records: seq<Discrepancy>)
    ensures |records| <= |candidates|
  {
    if candidates == [] then []
    else
      var candidate := candidates[|candidates| - 1];
      var s := sim(text, candidate);
      RecordsFor(sim, key, text, candidates[..|candidates| - 1])
        + (if 50.0 <= s < 100.0 then [Discrepancy(key, text, candidate, s)] else [])
  }

  /** The `found` flag after the inner loop: set by a perfect match or by a
      near match. */
  function Matched(sim: (string, string) -> Score, text: string, candidates: seq<string>): (found: bool)
    ensures found ==> candidates != []
  {
    if candidates == [] then false
    else
      var s := sim(text, candidates[|candidates| - 1]);
      Matched(sim, text, candidates[..|candidates| - 1]) || s == 100.0 || 50.0 <= s < 100.0
  }

  /** All records of the outer loop (lines 43-55), block by block. */
  function AllRecords(sim: (string, string) -> Score, correct: Dict, email: seq<string>): (records: seq<Discrepancy>)
    ensures email == [] ==> records == []
  {
    if correct == [] then []
    else
      var (key, text) := correct[|correct| - 1];
      AllRecords(sim, correct[..|correct| - 1], email) + RecordsFor(sim, key, text, email)
  }

  /** The `missing_blocks` dictionary: each expected block that nothing
      matched, written as `missing_blocks[key] = correct_text`. */
  function MissingBlocks(sim: (string, string) -> Score, correct: Dict, email: seq<string>): (missing: Dict)
    ensures |missing| <= |correct|
  {
    if correct == [] then []
    else
      var (key, text) := correct[|correct| - 1];
      var missing := MissingBlocks(sim, correct[..|correct| - 1], email);
      if Matched(sim, text, email) then missing else Insert(missing, key, text)
  }

  /** `compare_text_blocks`: the nested loops of lines 43-55. */
  method CompareTextBlocks(sim: (string, string) -> Score, correctBlocks: Dict, emailBlocks: seq<string>)
    returns (discrepancies: seq<Discrepancy>, missingBlocks: Dict)
    ensures discrepancies == AllRecords(sim, correctBlocks, emailBlocks)
    ensures missingBlocks == MissingBlocks(sim, correctBlocks, emailBlocks)
  {
    discrepancies := [];
    missingBlocks := [];
    for n := 0 to |correctBlocks|
      invariant discrepancies == AllRecords(sim, correctBlocks[..n], emailBlocks)
      invariant missingBlocks == MissingBlocks(sim, correctBlocks[..n], emailBlocks)
    {
      var (key, correctText) := correctBlocks[n];
      var found := false;
      ghost var before := discrepancies;
      for m := 0 to |emailBlocks|
        invariant discrepancies == before + RecordsFor(sim, key, correctText, emailBlocks[..m])
        invariant found == Matched(sim, correctText, emailBlocks[..m])
      {
        var emailText := emailBlocks[m];
        var similarity := sim(correctText, emailText);
        CandidateStep(sim, key, correctText, emailBlocks, m);
        if similarity == 100.0 {
          found := true;
        } else if 50.0 <= similarity < 100.0 {
          discrepancies := discrepancies + [Discrepancy(key, correctText, emailText, similarity)];
          found := true;
        }
      }
      assert emailBlocks[..|emailBlocks|] == emailBlocks;
      BlockStep(sim, correctBlocks, emailBlocks, n);
      if !found {
        missingBlocks := Insert(missingBlocks, key, correctText);
      }
    }
    assert correctBlocks[..|correctBlocks|] == correctBlocks;
  }

  lemma CandidateStep(sim: (string, string) -> Score, key: string, text: string, candidates: seq<string>, m: nat)
    requires m < |candidates|
    ensures var s := sim(text, candidates[m]);
            && RecordsFor(sim, key, text, candidates[..m + 1])
               == RecordsFor(sim, key, text, candidates[..m])
                  + (if 50.0 <= s < 100.0 then [Discrepancy(key, text, candidates[m], s)] else [])
            && (Matched(sim, text, candidates[..m + 1])
                <==> Matched(sim, text, candidates[..m]) || s == 100.0 || 50.0 <= s < 100.0)
  {
    assert candidates[..m + 1][..m] == candidates[..m];
  }

  lemma BlockStep(sim: (string, string) -> Score, correct: Dict, email: seq<string>, n: nat)
    requires n < |correct|
    ensures var (key, text) := correct[n];
            && AllRecords(sim, correct[..n + 1], email)
               == AllRecords(sim, correct[..n], email) + RecordsFor(sim, key, text, email)
            && MissingBlocks(sim, correct[..n + 1], email)
               == if Matched(sim, text, email) then MissingBlocks(sim, correct[..n], email)
                  else Insert(MissingBlocks(sim, correct[..n], email), key, text)
  {
    assert correct[..n + 1][..n] == correct[..n];
  }

  /** The inner loop sets `found` exactly when some candidate scores 50 or more. */
  lemma {:induction false} MatchedIffSomeScoreReachesHalf(sim: (string, string) -> Score, text: string, candidates: seq<string>)
    ensures Matched(sim, text, candidates) <==> exists j :: 0 <= j < |candidates| && sim(text, candidates[j]) >= 50.0
  {
    if candidates != [] {
      var n := |candidates| - 1;
      var prefix := candidates[..n];
      MatchedIffSomeScoreReachesHalf(sim, text, prefix);
      if exists j :: 0 <= j < |candidates| && sim(text, candidates[j]) >= 50.0 {
        var j :| 0 <= j < |candidates| && sim(text, candidates[j]) >= 50.0;
        if j < n {
          assert prefix[j] == candidates[j];
        }
      }
      if exists j :: 0 <= j < |prefix| && sim(text, prefix[j]) >= 50.0 {
        var j :| 0 <= j < |prefix| && sim(text, prefix[j]) >= 50.0;
        assert candidates[j] == prefix[j];
      }
    }
  }

  /** A candidate is recorded for a block exactly when it scores at least
      50 and below 100; the record holds the block's key and text. */
  lemma {:induction false} RecordsForExactly(sim: (string, string) -> Score, key: string, text: string,
                                             candidates: seq<string>, r: Discrepancy)
    ensures r in RecordsFor(sim, key, text, candidates) <==>
              && r.key == key && r.expected == text && r.found in candidates
              && r.similarity == sim(text, r.found) && 50.0 <= r.similarity < 100.0
  {
    if candidates != [] {
      var n := |candidates| - 1;
      var prefix := candidates[..n];
      RecordsForExactly(sim, key, text, prefix, r);
      assert candidates == prefix + [candidates[n]];
      assert r.found in candidates <==> r.found in prefix || r.found == candidates[n];
    }
  }

  /** Every record is `(key, expected text of key, candidate, score)` for an
      expected block and an email block, with a score of at least 50 and
      below 100. */
  lemma {:induction false} RecordsWellFormed(sim: (string, string) -> Score, correct: Dict, email: seq<string>,
                                             r: Discrepancy)
    requires r in AllRecords(sim, correct, email)
    ensures (r.key, r.expected) in correct && r.found in email
    ensures r.similarity == sim(r.expected, r.found) && 50.0 <= r.similarity < 100.0
  {
    var n := |correct| - 1;
    var (key, text) := correct[n];
    if r in AllRecords(sim, correct[..n], email) {
      RecordsWellFormed(sim, correct[..n], email, r);
      assert correct[..n] <= correct;
    } else {
      RecordsForExactly(sim, key, text, email, r);
    }
  }

  /** The records follow the expected blocks in order: the records of a
      longer copydoc extend those of its prefix. */
  lemma {:induction false} AllRecordsAppend(sim: (string, string) -> Score, c1: Dict, c2: Dict, email: seq<string>)
    ensures AllRecords(sim, c1 + c2, email) == AllRecords(sim, c1, email) + AllRecords(sim, c2, email)
    decreases |c2|
  {
    if c2 != [] {
      var n := |c2| - 1;
      AllRecordsAppend(sim, c1, c2[..n], email);
      assert (c1 + c2)[..|c1 + c2| - 1] == c1 + c2[..n];
    } else {
      assert c1 + c2 == c1;
    }
  }

  /** Within one block the records follow the email blocks in order. */
  lemma {:induction false} RecordsForAppend(sim: (string, string) -> Score, key: string, text: string,
                                            e1: seq<string>, e2: seq<string>)
    ensures RecordsFor(sim, key, text, e1 + e2)
         == RecordsFor(sim, key, text, e1) + RecordsFor(sim, key, text, e2)
    decreases |e2|
  {
    if e2 != [] {
      var n := |e2| - 1;
      RecordsForAppend(sim, key, text, e1, e2[..n]);
      assert (e1 + e2)[..|e1 + e2| - 1] == e1 + e2[..n];
    } else {
      assert e1 + e2 == e1;
    }
  }

  /** A perfect match adds no record and does not end the scan: the
      candidates after it are still scored and recorded. */
  lemma PerfectMatchKeepsScanning(sim: (string, string) -> Score, key: string, text: string,
                                  before: seq<string>, perfect: string, after: seq<string>)
    requires sim(text, perfect) == 100.0
    ensures RecordsFor(sim, key, text, before + [perfect] + after)
         == RecordsFor(sim, key, text, before) + RecordsFor(sim, key, text, after)
    ensures Matched(sim, text, before + [perfect] + after)
  {
    RecordsForAppend(sim, key, text, before + [perfect], after);
    assert (before + [perfect])[..|before|] == before;
    MatchedIffSomeScoreReachesHalf(sim, text, before + [perfect] + after);
    assert (before + [perfect] + after)[|before|] == perfect;
  }

  /** A block can be matched perfectly and still have a record: a perfect
      match followed by a near match records the near match. */
  lemma PerfectThenNearMatch(sim: (string, string) -> Score, key: string, text: string, perfect: string, near: string)
    requires sim(text, perfect) == 100.0
    requires 50.0 <= sim(text, near) < 100.0
    ensures RecordsFor(sim, key, text, [perfect, near]) == [Discrepancy(key, text, near, sim(text, near))]
    ensures Matched(sim, text, [perfect, near])
  {
    assert [perfect, near][..1] == [perfect];
    assert [perfect][..0] == [];
    assert RecordsFor(sim, key, text, [perfect]) == [];
  }

  /** With one entry per key (a dictionary), a key is missing exactly when
      it is an expected block that nothing matched, and it is mapped to its
      expected text. */
  lemma {:induction false} MissingBlocksExactly(sim: (string, string) -> Score, correct: Dict, email: seq<string>, k: string)
    requires UniqueKeys(correct)
    ensures Get(MissingBlocks(sim, correct, email), k)
         == match Get(correct, k)
            case None => None
            case Some(text) => if Matched(sim, text, email) then None else Some(text)
  {
    if correct != [] {
      var n := |correct| - 1;
      var prefix := correct[..n];
      FreshLastKey(correct);
      MissingBlocksExactly(sim, prefix, email, k);
      InsertGet(MissingBlocks(sim, prefix, email), correct[n].0, correct[n].1, k);
      GetAppended(prefix, correct[n].0, correct[n].1, k);
      SplitLast(correct);
    }
  }

  /** A key is missing, with its expected text, exactly when every email
      block scores below 50 against it. */
  lemma MissingIffAllBelowHalf(sim: (string, string) -> Score, correct: Dict, email: seq<string>, i: nat)
    requires UniqueKeys(correct) && i < |correct|
    ensures Get(MissingBlocks(sim, correct, email), correct[i].0) == Some(correct[i].1)
        <==> forall j :: 0 <= j < |email| ==> sim(correct[i].1, email[j]) < 50.0
    ensures Get(MissingBlocks(sim, correct, email), correct[i].0) != Some(correct[i].1) ==>
              Get(MissingBlocks(sim, correct, email), correct[i].0) == None
  {
    GetEntry(correct, i);
    MissingBlocksExactly(sim, correct, email, correct[i].0);
    MatchedIffSomeScoreReachesHalf(sim, correct[i].1, email);
  }

  /** A key with a discrepancy record is never missing. */
  lemma RecordedNeverMissing(sim: (string, string) -> Score, correct: Dict, email: seq<string>, r: Discrepancy)
    requires UniqueKeys(correct)
    requires r in AllRecords(sim, correct, email)
    ensures Get(MissingBlocks(sim, correct, email), r.key) == None
  {
    RecordsWellFormed(sim, correct, email, r);
    var i :| 0 <= i < |correct| && correct[i] == (r.key, r.expected);
    GetEntry(correct, i);
    MissingBlocksExactly(sim, correct, email, r.key);
    var j :| 0 <= j < |email| && email[j] == r.found;
    MatchedIffSomeScoreReachesHalf(sim, r.expected, email);
  }

  /** Against an email with no text blocks there are no records, and every
      expected block is missing, in the copydoc's order. */
  lemma {:induction false} EmptyEmail(sim: (string, string) -> Score, correct: Dict)
    requires UniqueKeys(correct)
    ensures AllRecords(sim, correct, []) == []
    ensures MissingBlocks(sim, correct, []) == correct
  {
    if correct != [] {
      var n := |correct| - 1;
      var prefix := correct[..n];
      FreshLastKey(correct);
      EmptyEmail(sim, prefix);
      InsertNew(prefix, correct[n].0, correct[n].1);
      SplitLast(correct);
    }
  }
}
