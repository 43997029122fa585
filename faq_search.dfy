/**
 * The two-pass merge of `GetFaq` (FaqPlugin.cs): pass 1 keeps the hits of the
 * question-vector search that score above 0.3; pass 2 appends the hits of the
 * answer-vector search that score above 0.5 and whose question is not already in
 * the output. The passes are specified by functions over the hit lists and
 * implemented by the loops of the source; the lemmas state what the merge means.
 */
module FaqSearch {
  import opened Wrappers
  import opened FaqTypes
  import opened VectorStore

  /** `QuestionThreshold`: a question-vector hit must score strictly more. */
  const QuestionThreshold: real := 0.3
  /** `ResponseThreshold`: an answer-vector hit must score strictly more. */
  const ResponseThreshold: real := 0.5
  /** `Top` of the question-vector search. */
  const QuestionTop: nat := 3
  /** `Top` of the answer-vector search. */
  const ResponseTop: nat := 5

  /**
   * `score > threshold` on the library's nullable score: a hit without a score
   * never clears a threshold.
   */
  predicate ScoreAbove(score: Option<real>, threshold: real)
  {
    score.Some? && score.value > threshold
  }

  /** Some entry of `fs` has question text `q` (the source's `Any`). */
  predicate HasQuestion(fs: seq<FaqBasic>, q: string)
  {
    exists k :: 0 <= k < |fs| && fs[k].question == q
  }

  /** No two entries of `fs` share a question text. */
  predicate DistinctQuestions(fs: seq<FaqBasic>)
  {
    forall k, l :: 0 <= k < l < |fs| ==> fs[k].question != fs[l].question
  }

  /** Some hit of `hits` clears the answer threshold and has question text `q`. */
  predicate ResponseMatch(hits: seq<Hit>, q: string)
  {
    exists j :: 0 <= j < |hits| && ScoreAbove(hits[j].score, ResponseThreshold) && hits[j].record.question == q
  }

  /**
   * Pass 1 as a function of the question-vector hits, defined by its last step
   * so that it follows the loop that builds it.
   */
  function QuestionPass(hits: seq<Hit>): seq<FaqBasic>
  {
    if hits == [] then []
    else
      var prev := QuestionPass(hits[..|hits| - 1]);
      var h := hits[|hits| - 1];
      if ScoreAbove(h.score, QuestionThreshold) then prev + [ToBasic(h.record)] else prev
  }

  /** Pass 2 as a function of the list built so far and the answer-vector hits. */
  function ResponsePass(acc: seq<FaqBasic>, hits: seq<Hit>): seq<FaqBasic>
  {
    if hits == [] then acc
    else
      var prev := ResponsePass(acc, hits[..|hits| - 1]);
      var h := hits[|hits| - 1];
      if ScoreAbove(h.score, ResponseThreshold) && !HasQuestion(prev, h.record.question)
      then prev + [ToBasic(h.record)]
      else prev
  }

  /** The list `GetFaq` returns for the two search results. */
  function Merge(questionHits: seq<Hit>, responseHits: seq<Hit>): seq<FaqBasic>
  {
    ResponsePass(QuestionPass(questionHits), responseHits)
  }

  /**
   * `out` lists, in order, the projections of the hits at the strictly
   * increasing positions `idx`.
   */
  ghost predicate SelectedInOrder(out: seq<FaqBasic>, hits: seq<Hit>, idx: seq<int>)
  {
    |idx| == |out| &&
    (forall k :: 0 <= k < |idx| ==> 0 <= idx[k] < |hits| && out[k] == ToBasic(hits[idx[k]].record)) &&
    (forall k, l :: 0 <= k < l < |idx| ==> idx[k] < idx[l])
  }

  /**
   * Hit `i` is appended by pass 2: it clears the answer threshold, its question
   * is not in the list pass 2 started from, and no earlier answer hit that
   * clears the threshold has the same question.
   */
  ghost predicate FirstNewResponseMatch(acc: seq<FaqBasic>, hits: seq<Hit>, i: int)
    requires 0 <= i < |hits|
  {
    ScoreAbove(hits[i].score, ResponseThreshold) &&
    !HasQuestion(acc, hits[i].record.question) &&
    !ResponseMatch(hits[..i], hits[i].record.question)
  }

  // ---------------------------------------------------------------------------
  // The loops of GetFaq
  // ---------------------------------------------------------------------------

  /** `faqsResult.Any(f => f.Question == q)`. */
  method AnyQuestion(fs: seq<FaqBasic>, q: string) returns (found: bool)
    ensures found <==> HasQuestion(fs, q)
  {
    var k := 0;
    while k < |fs|
      invariant 0 <= k <= |fs|
      invariant forall j :: 0 <= j < k ==> fs[j].question != q
    {
      if fs[k].question == q {
        return true;
      }
      k := k + 1;
    }
    return false;
  }

  /** Pass 1: the loop over the question-vector results. */
  method KeepQuestionMatches(hits: seq<Hit>) returns (kept: seq<FaqBasic>)
    ensures kept == QuestionPass(hits)
  {
    kept := [];
    var i := 0;
    while i < |hits|
      invariant 0 <= i <= |hits|
      invariant kept == QuestionPass(hits[..i])
    {
      assert hits[..i + 1][..i] == hits[..i];
      if ScoreAbove(hits[i].score, QuestionThreshold) {
        kept := kept + [ToBasic(hits[i].record)];
      }
      i := i + 1;
    }
    assert hits[..i] == hits;
  }

  /** Pass 2: the loop over the answer-vector results, appending to `acc`. */
  method AppendResponseMatches(acc: seq<FaqBasic>, hits: seq<Hit>) returns (result: seq<FaqBasic>)
    ensures result == ResponsePass(acc, hits)
  {
    result := acc;
    var i := 0;
    while i < |hits|
      invariant 0 <= i <= |hits|
      invariant result == ResponsePass(acc, hits[..i])
    {
      assert hits[..i + 1][..i] == hits[..i];
      if ScoreAbove(hits[i].score, ResponseThreshold) {
        var present := AnyQuestion(result, hits[i].record.question);
        if !present {
          result := result + [ToBasic(hits[i].record)];
        }
      }
      i := i + 1;
    }
    assert hits[..i] == hits;
  }

  // ---------------------------------------------------------------------------
  // Pass 1
  // ---------------------------------------------------------------------------

  /** A selection from a prefix of the hits is a selection from all of them, of positions inside the prefix. */
  lemma SelectedInPrefix(out: seq<FaqBasic>, hits: seq<Hit>, n: nat, idx: seq<int>)
    requires n <= |hits| && SelectedInOrder(out, hits[..n], idx)
    ensures SelectedInOrder(out, hits, idx)
    ensures forall k :: 0 <= k < |idx| ==> idx[k] < n
  {
    forall k | 0 <= k < |idx| ensures out[k] == ToBasic(hits[idx[k]].record) {
      assert hits[..n][idx[k]] == hits[idx[k]];
    }
  }

  /** Selecting one more hit, after all the selected ones, appends its projection. */
  lemma SelectedAppend(out: seq<FaqBasic>, hits: seq<Hit>, idx: seq<int>, n: nat)
    requires SelectedInOrder(out, hits, idx) && n < |hits|
    requires forall k :: 0 <= k < |idx| ==> idx[k] < n
    ensures SelectedInOrder(out + [ToBasic(hits[n].record)], hits, idx + [n])
  {
  }

  /**
   * If `idx` holds exactly the positions below `n` that satisfy `keep`, then
   * `next`, which adds `n` exactly when `keep[n]` holds, holds exactly the
   * positions up to `n` that satisfy `keep`.
   */
  lemma PositionsStep(idx: seq<int>, next: seq<int>, n: nat, keep: seq<bool>)
    requires n < |keep|
    requires forall k :: 0 <= k < |idx| ==> idx[k] < n
    requires forall i :: 0 <= i < n ==> (i in idx <==> keep[i])
    requires next == if keep[n] then idx + [n] else idx
    ensures forall i :: 0 <= i <= n ==> (i in next <==> keep[i])
  {
    assert n !in idx;
  }

  /** The positions of the hits that pass 1 keeps. */
  ghost function QuestionPositions(hits: seq<Hit>): seq<int>
  {
    if hits == [] then []
    else
      var n := |hits| - 1;
      QuestionPositions(hits[..n]) + if ScoreAbove(hits[n].score, QuestionThreshold) then [n] else []
  }

  /** One step of `QuestionPassSelection`: from all hits but the last to all hits. */
  lemma QuestionPassStep(hits: seq<Hit>, n: nat)
    requires n == |hits| - 1
    requires SelectedInOrder(QuestionPass(hits[..n]), hits[..n], QuestionPositions(hits[..n]))
    requires forall i :: 0 <= i < n ==> (i in QuestionPositions(hits[..n]) <==> ScoreAbove(hits[..n][i].score, QuestionThreshold))
    ensures SelectedInOrder(QuestionPass(hits), hits, QuestionPositions(hits))
    ensures forall i :: 0 <= i < |hits| ==> (i in QuestionPositions(hits) <==> ScoreAbove(hits[i].score, QuestionThreshold))
  {
    var prev := QuestionPass(hits[..n]);
    var idx := QuestionPositions(hits[..n]);
    SelectedInPrefix(prev, hits, n, idx);
    var keep := seq(|hits|, i requires 0 <= i < |hits| => ScoreAbove(hits[i].score, QuestionThreshold));
    forall i | 0 <= i < n ensures i in idx <==> keep[i] {
      assert hits[..n][i] == hits[i];
    }
    PositionsStep(idx, QuestionPositions(hits), n, keep);
    if keep[n] {
      SelectedAppend(prev, hits, idx, n);
    }
  }

  /**
   * Pass 1 keeps exactly the hits scoring strictly above 0.3, in search order:
   * its output lists the hits at the strictly increasing positions
   * `QuestionPositions(hits)`, and a position is among them exactly when its
   * hit scores above 0.3.
   */
  lemma {:induction false} QuestionPassSelection(hits: seq<Hit>)
    ensures SelectedInOrder(QuestionPass(hits), hits, QuestionPositions(hits))
    ensures forall i :: 0 <= i < |hits| ==> (i in QuestionPositions(hits) <==> ScoreAbove(hits[i].score, QuestionThreshold))
  {
    if hits != [] {
      QuestionPassSelection(hits[..|hits| - 1]);
      QuestionPassStep(hits, |hits| - 1);
    }
  }

  /** Pass 1 keeps at most as many entries as there are hits. */
  lemma {:induction false} QuestionPassLength(hits: seq<Hit>)
    ensures |QuestionPass(hits)| <= |hits|
  {
    if hits != [] {
      QuestionPassLength(hits[..|hits| - 1]);
    }
  }

  /**
   * Pass 1 does not de-duplicate: two records with different keys and the same
   * question, both found above 0.3, are both kept.
   */
  lemma QuestionPassKeepsDuplicates(r1: FaqModel, r2: FaqModel)
    requires r1.id != r2.id && r1.question == r2.question
    ensures QuestionPass([Hit(r1, Some(0.9)), Hit(r2, Some(0.8))]) == [ToBasic(r1), ToBasic(r2)]
    ensures !DistinctQuestions(QuestionPass([Hit(r1, Some(0.9)), Hit(r2, Some(0.8))]))
  {
    var hits := [Hit(r1, Some(0.9)), Hit(r2, Some(0.8))];
    assert hits[..1][..0] == [];
    assert QuestionPass(hits[..1]) == [ToBasic(r1)];
    assert QuestionPass(hits)[0].question == QuestionPass(hits)[1].question;
  }

  // ---------------------------------------------------------------------------
  // Pass 2
  // ---------------------------------------------------------------------------

  /** Appending an entry adds exactly its question. */
  lemma HasQuestionAppend(fs: seq<FaqBasic>, f: FaqBasic, q: string)
    ensures HasQuestion(fs + [f], q) <==> HasQuestion(fs, q) || f.question == q
  {
    if HasQuestion(fs, q) {
      var k :| 0 <= k < |fs| && fs[k].question == q;
      assert (fs + [f])[k] == fs[k];
    }
    if f.question == q {
      assert (fs + [f])[|fs|] == f;
    }
  }

  /** An answer hit matches `q` when an earlier one does or the last one does. */
  lemma ResponseMatchLast(hits: seq<Hit>, q: string)
    requires hits != []
    ensures ResponseMatch(hits, q) <==>
      ResponseMatch(hits[..|hits| - 1], q) ||
      (ScoreAbove(hits[|hits| - 1].score, ResponseThreshold) && hits[|hits| - 1].record.question == q)
  {
    var n := |hits| - 1;
    if ResponseMatch(hits[..n], q) {
      var j :| 0 <= j < n && ScoreAbove(hits[..n][j].score, ResponseThreshold) && hits[..n][j].record.question == q;
      assert hits[j] == hits[..n][j];
    }
    if ResponseMatch(hits, q) {
      var j :| 0 <= j < |hits| && ScoreAbove(hits[j].score, ResponseThreshold) && hits[j].record.question == q;
      if j < n {
        assert hits[..n][j] == hits[j];
      }
    }
  }

  /**
   * After pass 2 a question is in the output exactly when it was in the list
   * pass 2 started from or some answer hit above 0.5 has it.
   */
  lemma {:induction false} ResponsePassQuestions(acc: seq<FaqBasic>, hits: seq<Hit>, q: string)
    ensures HasQuestion(ResponsePass(acc, hits), q) <==> HasQuestion(acc, q) || ResponseMatch(hits, q)
  {
    if hits != [] {
      var n := |hits| - 1;
      var prev := ResponsePass(acc, hits[..n]);
      var h := hits[n];
      ResponsePassQuestions(acc, hits[..n], q);
      ResponseMatchLast(hits, q);
      if ScoreAbove(h.score, ResponseThreshold) && !HasQuestion(prev, h.record.question) {
        HasQuestionAppend(prev, ToBasic(h.record), q);
      }
    }
  }

  /** Pass 2 keeps the list it starts from as a prefix and appends at most one entry per hit. */
  lemma {:induction false} ResponsePassExtends(acc: seq<FaqBasic>, hits: seq<Hit>)
    ensures |acc| <= |ResponsePass(acc, hits)| <= |acc| + |hits|
    ensures ResponsePass(acc, hits)[..|acc|] == acc
  {
    if hits != [] {
      ResponsePassExtends(acc, hits[..|hits| - 1]);
    }
  }

  /** The positions of the answer hits that pass 2 appends. */
  ghost function ResponsePositions(acc: seq<FaqBasic>, hits: seq<Hit>): seq<int>
  {
    if hits == [] then []
    else
      var n := |hits| - 1;
      var prev := ResponsePass(acc, hits[..n]);
      ResponsePositions(acc, hits[..n]) +
        if ScoreAbove(hits[n].score, ResponseThreshold) && !HasQuestion(prev, hits[n].record.question) then [n] else []
  }

  /** Whether hit `i` is appended does not depend on the hits after it. */
  lemma FirstNewResponseMatchPrefix(acc: seq<FaqBasic>, hits: seq<Hit>, n: nat, i: int)
    requires 0 <= i < n <= |hits|
    ensures FirstNewResponseMatch(acc, hits[..n], i) <==> FirstNewResponseMatch(acc, hits, i)
  {
    assert hits[..n][..i] == hits[..i];
  }

  /** One step of `ResponsePassSelection`: from all hits but the last to all hits. */
  lemma ResponsePassStep(acc: seq<FaqBasic>, hits: seq<Hit>, n: nat)
    requires n == |hits| - 1
    requires |acc| <= |ResponsePass(acc, hits[..n])|
    requires SelectedInOrder(ResponsePass(acc, hits[..n])[|acc|..], hits[..n], ResponsePositions(acc, hits[..n]))
    requires forall i :: 0 <= i < n ==> (i in ResponsePositions(acc, hits[..n]) <==> FirstNewResponseMatch(acc, hits[..n], i))
    ensures |acc| <= |ResponsePass(acc, hits)|
    ensures SelectedInOrder(ResponsePass(acc, hits)[|acc|..], hits, ResponsePositions(acc, hits))
    ensures forall i :: 0 <= i < |hits| ==> (i in ResponsePositions(acc, hits) <==> FirstNewResponseMatch(acc, hits, i))
  {
    var h := hits[n];
    var prev := ResponsePass(acc, hits[..n]);
    var idx := ResponsePositions(acc, hits[..n]);
    SelectedInPrefix(prev[|acc|..], hits, n, idx);
    var keep := seq(|hits|, i requires 0 <= i < |hits| => FirstNewResponseMatch(acc, hits, i));
    forall i | 0 <= i < n ensures i in idx <==> keep[i] {
      FirstNewResponseMatchPrefix(acc, hits, n, i);
    }
    ResponsePassQuestions(acc, hits[..n], h.record.question);
    assert keep[n] <==> ScoreAbove(h.score, ResponseThreshold) && !HasQuestion(prev, h.record.question);
    PositionsStep(idx, ResponsePositions(acc, hits), n, keep);
    if keep[n] {
      assert ResponsePass(acc, hits)[|acc|..] == prev[|acc|..] + [ToBasic(h.record)];
      SelectedAppend(prev[|acc|..], hits, idx, n);
    }
  }

  /**
   * Pass 2 appends, in search order, exactly the answer hits above 0.5 whose
   * question is neither in the list it started from nor on an earlier such hit:
   * the appended part lists the hits at the strictly increasing positions
   * `ResponsePositions(acc, hits)`, and a position is among them exactly when
   * `FirstNewResponseMatch` holds of it.
   */
  lemma {:induction false} ResponsePassSelection(acc: seq<FaqBasic>, hits: seq<Hit>)
    ensures |acc| <= |ResponsePass(acc, hits)| && ResponsePass(acc, hits)[..|acc|] == acc
    ensures SelectedInOrder(ResponsePass(acc, hits)[|acc|..], hits, ResponsePositions(acc, hits))
    ensures forall i :: 0 <= i < |hits| ==> (i in ResponsePositions(acc, hits) <==> FirstNewResponseMatch(acc, hits, i))
  {
    ResponsePassExtends(acc, hits);
    if hits != [] {
      ResponsePassSelection(acc, hits[..|hits| - 1]);
      ResponsePassStep(acc, hits, |hits| - 1);
    }
  }

  /**
   * Pass 2 never appends a question already in the list: every entry it
   * appends differs in question from every entry before it, whether from the
   * starting list or from its own earlier additions. This holds even when the
   * starting list has duplicates of its own.
   */
  lemma {:induction false} ResponsePassAddsNoDuplicate(acc: seq<FaqBasic>, hits: seq<Hit>)
    ensures forall k, l :: 0 <= k < l < |ResponsePass(acc, hits)| && |acc| <= l ==>
      ResponsePass(acc, hits)[k].question != ResponsePass(acc, hits)[l].question
  {
    if hits != [] {
      var n := |hits| - 1;
      var prev := ResponsePass(acc, hits[..n]);
      var h := hits[n];
      ResponsePassAddsNoDuplicate(acc, hits[..n]);
      if ScoreAbove(h.score, ResponseThreshold) && !HasQuestion(prev, h.record.question) {
        var out := prev + [ToBasic(h.record)];
        forall k, l | 0 <= k < l < |out| && |acc| <= l ensures out[k].question != out[l].question {
          if l == |prev| {
            assert out[k] == prev[k];
          } else {
            assert out[k] == prev[k] && out[l] == prev[l];
          }
        }
      }
    }
  }

  /** Pass 2 keeps a duplicate-free list duplicate-free. */
  lemma {:induction false} ResponsePassKeepsDistinct(acc: seq<FaqBasic>, hits: seq<Hit>)
    requires DistinctQuestions(acc)
    ensures DistinctQuestions(ResponsePass(acc, hits))
  {
    if hits != [] {
      var n := |hits| - 1;
      var prev := ResponsePass(acc, hits[..n]);
      var h := hits[n];
      ResponsePassKeepsDistinct(acc, hits[..n]);
      if ScoreAbove(h.score, ResponseThreshold) && !HasQuestion(prev, h.record.question) {
        var out := prev + [ToBasic(h.record)];
        forall k, l | 0 <= k < l < |out| ensures out[k].question != out[l].question {
          if l == |prev| {
            assert out[k] == prev[k];
          }
        }
      }
    }
  }

  // ---------------------------------------------------------------------------
  // The whole merge
  // ---------------------------------------------------------------------------

  /**
   * The output starts with the pass-1 list and is no longer than the two hit
   * lists together.
   */
  lemma MergeStructure(questionHits: seq<Hit>, responseHits: seq<Hit>)
    ensures |QuestionPass(questionHits)| <= |Merge(questionHits, responseHits)|
    ensures Merge(questionHits, responseHits)[..|QuestionPass(questionHits)|] == QuestionPass(questionHits)
    ensures |Merge(questionHits, responseHits)| <= |questionHits| + |responseHits|
  {
    QuestionPassLength(questionHits);
    ResponsePassExtends(QuestionPass(questionHits), responseHits);
  }

  /** With the searches capped at 3 and 5 results, `GetFaq` returns at most 8 entries. */
  lemma MergeAtMostEight(questionHits: seq<Hit>, responseHits: seq<Hit>)
    requires |questionHits| <= QuestionTop && |responseHits| <= ResponseTop
    ensures |Merge(questionHits, responseHits)| <= 8
  {
    MergeStructure(questionHits, responseHits);
  }

  /** `f` is the projection of a question hit above 0.3 or of an answer hit above 0.5. */
  ghost predicate FromHits(f: FaqBasic, questionHits: seq<Hit>, responseHits: seq<Hit>)
  {
    (exists i :: 0 <= i < |questionHits| && ScoreAbove(questionHits[i].score, QuestionThreshold) &&
       f == ToBasic(questionHits[i].record)) ||
    (exists i :: 0 <= i < |responseHits| && ScoreAbove(responseHits[i].score, ResponseThreshold) &&
       f == ToBasic(responseHits[i].record))
  }

  /**
   * Every output entry is the projection of a question hit above 0.3 or of an
   * answer hit above 0.5.
   */
  lemma MergeProvenance(questionHits: seq<Hit>, responseHits: seq<Hit>)
    ensures forall k :: 0 <= k < |Merge(questionHits, responseHits)| ==>
      FromHits(Merge(questionHits, responseHits)[k], questionHits, responseHits)
  {
    var kept := QuestionPass(questionHits);
    var out := Merge(questionHits, responseHits);
    QuestionPassSelection(questionHits);
    var qIdx := QuestionPositions(questionHits);
    ResponsePassSelection(kept, responseHits);
    var rIdx := ResponsePositions(kept, responseHits);
    forall k | 0 <= k < |out|
      ensures FromHits(out[k], questionHits, responseHits)
    {
      if k < |kept| {
        var i := qIdx[k];
        assert i in qIdx;
        assert out[k] == kept[k];
      } else {
        var i := rIdx[k - |kept|];
        assert i in rIdx;
        assert out[k] == out[|kept|..][k - |kept|];
      }
    }
  }

  /** If the pass-1 entries have distinct questions, the whole output does. */
  lemma MergeDistinct(questionHits: seq<Hit>, responseHits: seq<Hit>)
    requires DistinctQuestions(QuestionPass(questionHits))
    ensures DistinctQuestions(Merge(questionHits, responseHits))
  {
    ResponsePassKeepsDistinct(QuestionPass(questionHits), responseHits);
  }

  /** Every answer hit above 0.5 has its question somewhere in the output. */
  lemma MergeCoversResponseMatches(questionHits: seq<Hit>, responseHits: seq<Hit>)
    ensures forall i :: 0 <= i < |responseHits| && ScoreAbove(responseHits[i].score, ResponseThreshold) ==>
      HasQuestion(Merge(questionHits, responseHits), responseHits[i].record.question)
  {
    forall i | 0 <= i < |responseHits| && ScoreAbove(responseHits[i].score, ResponseThreshold)
      ensures HasQuestion(Merge(questionHits, responseHits), responseHits[i].record.question)
    {
      ResponsePassQuestions(QuestionPass(questionHits), responseHits, responseHits[i].record.question);
    }
  }

  /**
   * The single-record cases: a strong question match alone; a question score of
   * exactly 0.3 rescued by an answer score of 0.6; two scores below their
   * thresholds; a record found by both searches, returned once; and hits
   * without a score, dropped by both passes.
   */
  lemma SingleRecordScenarios(r: FaqModel)
    ensures Merge([Hit(r, Some(0.9))], [Hit(r, Some(0.2))]) == [ToBasic(r)]
    ensures QuestionPass([Hit(r, Some(0.3))]) == []
    ensures Merge([Hit(r, Some(0.3))], [Hit(r, Some(0.6))]) == [ToBasic(r)]
    ensures Merge([Hit(r, Some(0.1))], [Hit(r, Some(0.4))]) == []
    ensures Merge([Hit(r, Some(0.9))], [Hit(r, Some(0.9))]) == [ToBasic(r)]
    ensures Merge([Hit(r, None)], [Hit(r, None)]) == []
  {
    var b := ToBasic(r);
    assert HasQuestion([b], r.question) by {
      assert [b][0].question == r.question;
    }
    forall s: Option<real> ensures QuestionPass([Hit(r, s)]) == if ScoreAbove(s, QuestionThreshold) then [b] else [] {
      assert [Hit(r, s)][..0] == [];
    }
    forall acc: seq<FaqBasic>, s: Option<real>
      ensures ResponsePass(acc, [Hit(r, s)]) ==
        if ScoreAbove(s, ResponseThreshold) && !HasQuestion(acc, r.question) then acc + [b] else acc
    {
      assert [Hit(r, s)][..0] == [];
    }
  }
}
