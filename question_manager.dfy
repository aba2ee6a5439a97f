/**
 * The question editor of one sub-topic (components/QuestionManager.tsx): a
 * draft list edited by id, which is handed on when saved and dropped when
 * the editor is closed.
 */
module QuestionManager {
  import opened Wrappers
  import opened Types

  /** Ids within the list are pairwise distinct (the bank's per-list invariant). */
  ghost predicate UniqueIds(qs: seq<Question>) {
    forall i, j :: 0 <= i < j < |qs| ==> qs[i].id != qs[j].id
  }

  ghost predicate HasId(qs: seq<Question>, id: string) {
    exists i :: 0 <= i < |qs| && qs[i].id == id
  }

  /** `questions.findIndex(q => q.id === id)`: the first position holding the id, or -1. */
  function FirstIndexWithId(qs: seq<Question>, id: string): (r: int)
    ensures -1 <= r < |qs|
    ensures r == -1 <==> !HasId(qs, id)
    ensures r >= 0 ==> qs[r].id == id && forall i :: 0 <= i < r ==> qs[i].id != id
  {
    if qs == [] then -1
    else if qs[0].id == id then 0
    else
      var k := FirstIndexWithId(qs[1..], id);
      if k == -1 then -1 else k + 1
  }

  /** Replace at the first position with the same id, or append. */
  function Upserted(draft: seq<Question>, q: Question): (r: seq<Question>)
    ensures q in r
    ensures |r| == if HasId(draft, q.id) then |draft| else |draft| + 1
    ensures forall i :: 0 <= i < |draft| && draft[i].id != q.id ==> r[i] == draft[i]
    ensures !HasId(draft, q.id) ==> r[..|draft|] == draft
  {
    var k := FirstIndexWithId(draft, q.id);
    if k > -1 then
      var r := draft[k := q];
      assert r[k] == q;
      r
    else
      var r := draft + [q];
      assert r[|draft|] == q;
      r
  }

  /** An edit of a question already in the draft keeps its place: only the first match changes, the length stays. */
  lemma UpsertReplacesInPlace(draft: seq<Question>, q: Question, k: nat)
    requires k < |draft| && draft[k].id == q.id
    requires forall i :: 0 <= i < k ==> draft[i].id != q.id
    ensures |Upserted(draft, q)| == |draft|
    ensures Upserted(draft, q)[k] == q
    ensures forall i :: 0 <= i < |draft| && i != k ==> Upserted(draft, q)[i] == draft[i]
  {
    assert FirstIndexWithId(draft, q.id) == k;
  }

  /** A question with a new id goes to the end; everything before it stays. */
  lemma UpsertAppendsNew(draft: seq<Question>, q: Question)
    requires forall i :: 0 <= i < |draft| ==> draft[i].id != q.id
    ensures Upserted(draft, q) == draft + [q]
  {
  }

  /** Upserting keeps the ids of a draft distinct. */
  lemma UpsertKeepsIdsUnique(draft: seq<Question>, q: Question)
    requires UniqueIds(draft)
    ensures UniqueIds(Upserted(draft, q))
  {
    var k := FirstIndexWithId(draft, q.id);
    var r := Upserted(draft, q);
    if k > -1 {
      forall i, j | 0 <= i < j < |r| ensures r[i].id != r[j].id {
        assert r[i].id == draft[i].id && r[j].id == draft[j].id;
      }
    } else {
      forall i, j | 0 <= i < j < |r| ensures r[i].id != r[j].id {
        if j == |draft| {
          assert r[i] == draft[i];
        } else {
          assert r[i] == draft[i] && r[j] == draft[j];
        }
      }
    }
  }

  /** Submitting the same question twice is the same as submitting it once. */
  lemma UpsertIdempotent(draft: seq<Question>, q: Question)
    ensures Upserted(Upserted(draft, q), q) == Upserted(draft, q)
  {
    var k := FirstIndexWithId(draft, q.id);
    var once := Upserted(draft, q);
    if k > -1 {
      UpsertReplacesInPlace(once, q, k);
      assert Upserted(once, q) == once;
    } else {
      UpsertReplacesInPlace(once, q, |draft|);
      assert Upserted(once, q) == once;
    }
  }

  /** `questions.filter(q => q.id !== id)` */
  function WithoutId(qs: seq<Question>, id: string): (r: seq<Question>)
    ensures |r| <= |qs|
    ensures forall i :: 0 <= i < |r| ==> r[i].id != id && r[i] in qs
    ensures forall i :: 0 <= i < |qs| && qs[i].id != id ==> qs[i] in r
  {
    if qs == [] then []
    else if qs[0].id == id then WithoutId(qs[1..], id)
    else [qs[0]] + WithoutId(qs[1..], id)
  }

  /** The filter keeps relative order: it distributes over concatenation. */
  lemma {:induction false} WithoutIdAppend(a: seq<Question>, b: seq<Question>, id: string)
    ensures WithoutId(a + b, id) == WithoutId(a, id) + WithoutId(b, id)
  {
    if a == [] {
      assert a + b == b;
    } else {
      assert (a + b)[0] == a[0] && (a + b)[1..] == a[1..] + b;
      WithoutIdAppend(a[1..], b, id);
    }
  }

  /** Deleting an id that is not in the draft changes nothing. */
  lemma {:induction false} WithoutAbsentId(qs: seq<Question>, id: string)
    requires !HasId(qs, id)
    ensures WithoutId(qs, id) == qs
  {
    if qs != [] {
      assert qs[0].id != id;
      WithoutAbsentId(qs[1..], id);
    }
  }

  lemma UniqueIdsTail(qs: seq<Question>)
    requires UniqueIds(qs) && qs != []
    ensures UniqueIds(qs[1..])
    ensures forall x :: x in qs[1..] ==> x.id != qs[0].id
  {
    var tail := qs[1..];
    forall i, j | 0 <= i < j < |tail| ensures tail[i].id != tail[j].id {
      assert tail[i] == qs[i + 1] && tail[j] == qs[j + 1];
    }
    forall x | x in tail ensures x.id != qs[0].id {
      var k :| 0 <= k < |tail| && tail[k] == x;
      assert qs[k + 1] == x;
    }
  }

  lemma UniqueIdsCons(x: Question, rest: seq<Question>)
    requires UniqueIds(rest) && forall y :: y in rest ==> y.id != x.id
    ensures UniqueIds([x] + rest)
  {
    var r := [x] + rest;
    forall i, j | 0 <= i < j < |r| ensures r[i].id != r[j].id {
      assert r[j] == rest[j - 1];
      if i > 0 {
        assert r[i] == rest[i - 1];
      }
    }
  }

  /** Deleting keeps the ids of a draft distinct. */
  lemma {:induction false} WithoutIdKeepsIdsUnique(qs: seq<Question>, id: string)
    requires UniqueIds(qs)
    ensures UniqueIds(WithoutId(qs, id))
  {
    if qs != [] {
      var tail := qs[1..];
      UniqueIdsTail(qs);
      WithoutIdKeepsIdsUnique(tail, id);
      if qs[0].id != id {
        UniqueIdsCons(qs[0], WithoutId(tail, id));
      }
    }
  }

  /** Editing a question and then deleting its id leaves what deleting alone would. */
  lemma {:induction false} DeleteAfterUpsert(draft: seq<Question>, q: Question)
    ensures WithoutId(Upserted(draft, q), q.id) == WithoutId(draft, q.id)
  {
    var k := FirstIndexWithId(draft, q.id);
    if k > -1 {
      var r := draft[k := q];
      assert draft == draft[..k] + [draft[k]] + draft[k + 1..];
      assert r == draft[..k] + [q] + draft[k + 1..];
      WithoutIdAppend(draft[..k] + [draft[k]], draft[k + 1..], q.id);
      WithoutIdAppend(draft[..k], [draft[k]], q.id);
      WithoutIdAppend(draft[..k] + [q], draft[k + 1..], q.id);
      WithoutIdAppend(draft[..k], [q], q.id);
      assert WithoutId([draft[k]], q.id) == [] == WithoutId([q], q.id);
    } else {
      WithoutIdAppend(draft, [q], q.id);
      assert WithoutId([q], q.id) == [];
    }
  }

  /** What the editor hands to its parent when it goes away. */
  datatype Outcome = SavedAndClosed(questions: seq<Question>) | Closed

  class Editor {
    var draft: seq<Question>
    var editing: Option<Question>
    var adding: bool

    constructor (initialQuestions: seq<Question>)
      ensures draft == initialQuestions && editing.None? && !adding
    {
      draft := initialQuestions;
      editing := None;
      adding := false;
    }

    /** The question form is on screen. */
    predicate FormOpen()
      reads this
    {
      adding || editing.Some?
    }

    method StartAdding()
      modifies this`adding
      ensures adding
    {
      adding := true;
    }

    method StartEditing(q: Question)
      requires q in draft
      modifies this`editing
      ensures editing == Some(q)
    {
      editing := Some(q);
    }

    method CancelForm()
      modifies this`adding, this`editing
      ensures !FormOpen()
    {
      adding := false;
      editing := None;
    }

    /** The form's submit: replace at the first matching id or append, then close the form. */
    method AddOrUpdateQuestion(q: Question)
      modifies this
      ensures draft == Upserted(old(draft), q)
      ensures editing.None? && !adding
    {
      var k := FirstIndexWithId(draft, q.id);
      if k > -1 {
        draft := draft[k := q];
      } else {
        draft := draft + [q];
      }
      editing := None;
      adding := false;
    }

    /** A confirmed delete drops every question with the id; an unconfirmed one changes nothing. */
    method DeleteQuestion(id: string, confirmed: bool)
      modifies this`draft
      ensures draft == if confirmed then WithoutId(old(draft), id) else old(draft)
    {
      if confirmed {
        draft := WithoutId(draft, id);
      }
    }

    /** Save & Close hands the whole draft on, then closes. */
    method SaveChanges() returns (outcome: Outcome)
      ensures outcome.SavedAndClosed? && outcome.questions == draft
    {
      outcome := SavedAndClosed(draft);
    }

    /** Close drops the draft without saving. */
    method Close() returns (outcome: Outcome)
      ensures outcome.Closed?
    {
      outcome := Closed;
    }
  }
}
