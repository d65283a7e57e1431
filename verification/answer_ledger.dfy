/** The answer ledger behind `setAnswer` and `getAnswerForQuestion`
    (src/stores/quizStore.ts): an array of `{question_id, selected_answer}`
    records searched front to back. */
module AnswerLedger {
  import opened QuizTypes
  import IdSets

  /** The question ids of the ledger, entry by entry. */
  function AnswerIds(ls: seq<Answer>): (ids: seq<int>)
    ensures |ids| == |ls|
    ensures forall i :: 0 <= i < |ls| ==> ids[i] == ls[i].questionId
  {
    seq(|ls|, i requires 0 <= i < |ls| => ls[i].questionId)
  }

  /** The set of answered question ids. */
  function Ids(ls: seq<Answer>): set<int>
  {
    IdSets.Elems(AnswerIds(ls))
  }

  /** At most one entry per question id. */
  predicate IdsUnique(ls: seq<Answer>)
  {
    IdSets.Distinct(AnswerIds(ls))
  }

  /** `answers.findIndex(a => a.question_id === id)`: the first position holding
      `id`, or -1 when there is none. */
  function FindIndex(ls: seq<Answer>, id: int): (k: int)
    ensures -1 <= k < |ls|
    ensures k >= 0 ==> ls[k].questionId == id
    ensures forall j :: 0 <= j < |ls| && (k < 0 || j < k) ==> ls[j].questionId != id
    decreases |ls|
  {
    if |ls| == 0 then -1
    else if ls[0].questionId == id then 0
    else
      var k := FindIndex(ls[1..], id);
      if k < 0 then -1 else k + 1
  }

  /** `getAnswerForQuestion`: the option of the first entry for `id`, or
      nothing when no entry has that id. */
  function Lookup(ls: seq<Answer>, id: int): (r: Option<Choice>)
    ensures r.None? <==> id !in Ids(ls)
    ensures r.Some? ==>
      exists i :: 0 <= i < |ls| && ls[i] == Answer(id, r.value) &&
        forall j :: 0 <= j < i ==> ls[j].questionId != id
  {
    var k := FindIndex(ls, id);
    if k >= 0 then Some(ls[k].selectedAnswer) else None
  }

  /** `setAnswer`: replace the first entry for `id` in place, or append a new
      entry when there is none. The id is not checked against anything. */
  function Upsert(ls: seq<Answer>, id: int, choice: Choice): (r: seq<Answer>)
    ensures Lookup(r, id) == Some(choice)
    ensures forall other :: other != id ==> Lookup(r, other) == Lookup(ls, other)
    ensures |r| == if id in Ids(ls) then |ls| else |ls| + 1
    ensures Ids(r) == Ids(ls) + {id}
  {
    var k := FindIndex(ls, id);
    if k >= 0 then
      var r := ls[k := Answer(id, choice)];
      UpdateKeepsOthers(ls, k, choice);
      assert AnswerIds(r) == AnswerIds(ls);
      r
    else
      var r := ls + [Answer(id, choice)];
      AppendKeepsOthers(ls, Answer(id, choice));
      assert AnswerIds(r) == AnswerIds(ls) + [id];
      r
  }

  /** Overwriting the option of one entry, keeping its id, finds every id at
      the same place and leaves the lookups of all other ids alone. */
  lemma UpdateKeepsOthers(ls: seq<Answer>, k: int, choice: Choice)
    requires 0 <= k < |ls|
    ensures var r := ls[k := Answer(ls[k].questionId, choice)];
      && (forall id :: FindIndex(r, id) == FindIndex(ls, id))
      && (forall other :: other != ls[k].questionId ==> Lookup(r, other) == Lookup(ls, other))
  {
    var r := ls[k := Answer(ls[k].questionId, choice)];
    forall id
      ensures FindIndex(r, id) == FindIndex(ls, id)
    {
      var kr, kl := FindIndex(r, id), FindIndex(ls, id);
      if kl >= 0 {
        assert r[kl].questionId == id;
      }
      if kr >= 0 {
        assert ls[kr].questionId == id;
      }
    }
  }

  /** Appending an entry leaves the lookups of all other ids alone. */
  lemma AppendKeepsOthers(ls: seq<Answer>, x: Answer)
    ensures forall other :: other != x.questionId ==> Lookup(ls + [x], other) == Lookup(ls, other)
  {
    var r := ls + [x];
    forall other | other != x.questionId
      ensures Lookup(r, other) == Lookup(ls, other)
    {
      var kr, kl := FindIndex(r, other), FindIndex(ls, other);
      if kl >= 0 {
        assert r[kl].questionId == other;
      }
      if kr >= 0 {
        assert kr < |ls| && ls[kr].questionId == other;
      }
    }
  }

  /** Upserting keeps the ledger free of duplicate ids. */
  lemma UpsertKeepsUnique(ls: seq<Answer>, id: int, choice: Choice)
    ensures IdsUnique(ls) ==> IdsUnique(Upsert(ls, id, choice))
  {
    if !IdsUnique(ls) {
      return;
    }
    var r := Upsert(ls, id, choice);
    if id !in Ids(ls) {
      assert r == ls + [Answer(id, choice)];
      forall i | 0 <= i < |ls|
        ensures ls[i].questionId != id
      {
        assert AnswerIds(ls)[i] in Ids(ls);
      }
    } else {
      assert AnswerIds(r) == AnswerIds(ls);
    }
  }

  /** Repeating the same `setAnswer` call changes nothing more. */
  lemma UpsertIdempotent(ls: seq<Answer>, id: int, choice: Choice)
    ensures Upsert(Upsert(ls, id, choice), id, choice) == Upsert(ls, id, choice)
  {
    var r := Upsert(ls, id, choice);
    var k := FindIndex(r, id);
    assert k >= 0 && r[k] == Answer(id, choice);
    assert r[k := Answer(id, choice)] == r;
  }

  /** A duplicate-free ledger has exactly one entry per answered question. */
  lemma UniqueLedgerSize(ls: seq<Answer>)
    requires IdsUnique(ls)
    ensures |Ids(ls)| == |ls|
  {
    IdSets.DistinctCard(AnswerIds(ls));
  }

  /** The ledger after applying a sequence of `setAnswer` calls in order. */
  function UpsertAll(ls: seq<Answer>, calls: seq<Answer>): (r: seq<Answer>)
    ensures Ids(r) == Ids(ls) + Ids(calls)
    ensures IdsUnique(ls) ==> IdsUnique(r)
    decreases |calls|
  {
    if |calls| == 0 then ls
    else
      var next := Upsert(ls, calls[0].questionId, calls[0].selectedAnswer);
      UpsertKeepsUnique(ls, calls[0].questionId, calls[0].selectedAnswer);
      assert AnswerIds(calls) == [calls[0].questionId] + AnswerIds(calls[1..]);
      UpsertAll(next, calls[1..])
  }

  /** However often questions are re-answered, a ledger built from empty holds
      exactly one entry per distinct question id used. */
  lemma LedgerSizeIsDistinctIds(calls: seq<Answer>)
    ensures |UpsertAll([], calls)| == |Ids(calls)| <= |calls|
  {
    var r := UpsertAll([], calls);
    assert Ids([]) == {};
    UniqueLedgerSize(r);
    IdSets.ElemsCardBound(AnswerIds(calls));
  }
}
