/** The question page's collection of extracted answers (`allAnswers` and
    `AddAnswer` in src/index.ts): answers are pushed in the order they are
    met, and an answer whose id is already present is ignored, so the list
    never holds two answers with the same id. */
module AnswerList {
  import opened Extractor

  /** No two answers share an id. */
  predicate DistinctIds(answers: seq<ExtractedAnswerData>) {
    forall i, j :: 0 <= i < j < |answers| ==> answers[i].id != answers[j].id
  }

  predicate HasId(answers: seq<ExtractedAnswerData>, id: string) {
    exists k :: 0 <= k < |answers| && answers[k].id == id
  }

  function Ids(answers: seq<ExtractedAnswerData>): set<string> {
    set k | 0 <= k < |answers| :: answers[k].id
  }

  /** The list after one `AddAnswer(answer)`. */
  function Added(answers: seq<ExtractedAnswerData>, answer: ExtractedAnswerData): (r: seq<ExtractedAnswerData>)
    ensures answers <= r && |r| <= |answers| + 1
  {
    if forall k :: 0 <= k < |answers| ==> answers[k].id != answer.id then answers + [answer] else answers
  }

  /** The list after `AddAnswer` for each of `batch`, in order. */
  function AddedAll(answers: seq<ExtractedAnswerData>, batch: seq<ExtractedAnswerData>): (r: seq<ExtractedAnswerData>)
    ensures answers <= r && |r| <= |answers| + |batch|
    decreases |batch|
  {
    if batch == [] then answers else AddedAll(Added(answers, batch[0]), batch[1..])
  }

  /** A repeated id leaves the list exactly as it was; a new id is appended
      at the end, with every earlier answer kept in place. */
  lemma {:induction false} AddedCases(answers: seq<ExtractedAnswerData>, answer: ExtractedAnswerData)
    ensures HasId(answers, answer.id) ==> Added(answers, answer) == answers
    ensures !HasId(answers, answer.id) ==>
              |Added(answers, answer)| == |answers| + 1 &&
              Added(answers, answer)[..|answers|] == answers &&
              Added(answers, answer)[|answers|] == answer
    ensures HasId(Added(answers, answer), answer.id)
  {
    if !HasId(answers, answer.id) {
      var r := Added(answers, answer);
      assert r[|answers|].id == answer.id;
    }
  }

  /** `AddAnswer` keeps the ids distinct. */
  lemma {:induction false} AddedKeepsDistinct(answers: seq<ExtractedAnswerData>, answer: ExtractedAnswerData)
    requires DistinctIds(answers)
    ensures DistinctIds(Added(answers, answer))
  {
  }

  /** Adding the same answer twice is the same as adding it once. */
  lemma {:induction false} AddedIdempotent(answers: seq<ExtractedAnswerData>, answer: ExtractedAnswerData)
    ensures Added(Added(answers, answer), answer) == Added(answers, answer)
  {
    AddedCases(answers, answer);
  }

  /** The ids after `AddAnswer` are the old ids and the new one. */
  lemma {:induction false} AddedIds(answers: seq<ExtractedAnswerData>, answer: ExtractedAnswerData)
    ensures Ids(Added(answers, answer)) == Ids(answers) + {answer.id}
  {
    var r := Added(answers, answer);
    if HasId(answers, answer.id) {
      var k :| 0 <= k < |answers| && answers[k].id == answer.id;
      assert answer.id in Ids(answers);
    } else {
      assert r[|answers|].id == answer.id;
      forall x | x in Ids(r) ensures x in Ids(answers) + {answer.id} {
        var k :| 0 <= k < |r| && r[k].id == x;
        if k < |answers| { assert answers[k] == r[k]; }
      }
      forall x | x in Ids(answers) ensures x in Ids(r) {
        var k :| 0 <= k < |answers| && answers[k].id == x;
        assert r[k] == answers[k];
      }
    }
  }

  /** Any sequence of `AddAnswer` calls keeps the ids distinct and collects
      exactly the ids met. That earlier answers stay in place is the
      contract of `AddedAll` itself. */
  lemma {:induction false} AddedAllProperties(answers: seq<ExtractedAnswerData>, batch: seq<ExtractedAnswerData>)
    requires DistinctIds(answers)
    ensures DistinctIds(AddedAll(answers, batch))
    ensures Ids(AddedAll(answers, batch)) == Ids(answers) + Ids(batch)
    decreases |batch|
  {
    if batch != [] {
      var next := Added(answers, batch[0]);
      AddedKeepsDistinct(answers, batch[0]);
      AddedIds(answers, batch[0]);
      AddedCases(answers, batch[0]);
      AddedAllProperties(next, batch[1..]);
      IdsCons(batch);
    }
  }

  /** The ids of a non-empty batch are its first id and the ids of the rest. */
  lemma {:induction false} IdsCons(batch: seq<ExtractedAnswerData>)
    requires batch != []
    ensures Ids(batch) == {batch[0].id} + Ids(batch[1..])
  {
    forall x | x in Ids(batch) ensures x in {batch[0].id} + Ids(batch[1..]) {
      var k :| 0 <= k < |batch| && batch[k].id == x;
      if k > 0 { assert batch[1..][k - 1] == batch[k]; }
    }
    forall x | x in Ids(batch[1..]) ensures x in Ids(batch) {
      var k :| 0 <= k < |batch[1..]| && batch[1..][k].id == x;
      assert batch[k + 1] == batch[1..][k];
    }
  }

  /** The page-wide answer list. */
  class AnswerStore {
    var allAnswers: seq<ExtractedAnswerData>

    ghost predicate Valid()
      reads this
    {
      DistinctIds(allAnswers)
    }

    constructor ()
      ensures Valid() && allAnswers == []
    {
      allAnswers := [];
    }

    /** `AddAnswer`: push the answer unless `allAnswers` already holds its id. */
    method AddAnswer(answer: ExtractedAnswerData)
      requires Valid()
      modifies this
      ensures Valid()
      ensures allAnswers == Added(old(allAnswers), answer)
      ensures HasId(old(allAnswers), answer.id) ==> allAnswers == old(allAnswers)
      ensures !HasId(old(allAnswers), answer.id) ==> allAnswers == old(allAnswers) + [answer]
    {
      if forall k :: 0 <= k < |allAnswers| ==> allAnswers[k].id != answer.id {
        allAnswers := allAnswers + [answer];
      }
    }
  }
}
