/** Choosing options on a question card (App.tsx:43-54) and the answer state of a practice
    session (App.tsx:221-242, 310-312). */
module Answering {
  import opened Types
  import opened Scoring

  /** The list with every occurrence of `id` removed, the others kept in order. */
  function Without(xs: seq<string>, id: string): (r: seq<string>)
    ensures |r| <= |xs|
    ensures forall x :: x in r <==> x in xs && x != id
  {
    if xs == [] then [] else (if xs[0] == id then [] else [xs[0]]) + Without(xs[1..], id)
  }

  /** The filter keeps the order of the options: removal distributes over concatenation. */
  lemma {:induction false} WithoutConcat(a: seq<string>, b: seq<string>, id: string)
    ensures Without(a + b, id) == Without(a, id) + Without(b, id)
  {
    if a == [] {
      assert a + b == b;
    } else {
      var h := if a[0] == id then [] else [a[0]];
      assert (a + b)[0] == a[0];
      assert (a + b)[1..] == a[1..] + b;
      assert Without(a + b, id) == h + Without(a[1..] + b, id);
      WithoutConcat(a[1..], b, id);
      assert h + (Without(a[1..], id) + Without(b, id)) == (h + Without(a[1..], id)) + Without(b, id);
    }
  }

  /** The answer after clicking option `id` on a card that does not show its answer: a
      single-choice question takes the option alone, a multiple-choice question gains the
      option when it was not chosen and loses it when it was. */
  function Toggled(kind: QuestionType, current: seq<string>, id: string): (r: seq<string>)
    ensures kind == SINGLE ==> r == [id]
    ensures kind == MULTIPLE ==> (id in r <==> id !in current)
    ensures kind == MULTIPLE ==> forall x :: x != id ==> (x in r <==> x in current)
    ensures kind == MULTIPLE && id !in current ==> r == current + [id]
    ensures kind == MULTIPLE && id in current ==> multiset(r) == multiset(current)[id := 0]
    ensures kind == MULTIPLE && id in current ==> r == Without(current, id)
  {
    match kind
    case SINGLE => [id]
    case MULTIPLE =>
      if id in current then
        WithoutMultiset(current, id);
        Without(current, id)
      else current + [id]
  }

  /** No option is chosen twice. */
  predicate Distinct(xs: seq<string>)
  {
    forall i, j :: 0 <= i < j < |xs| ==> xs[i] != xs[j]
  }

  lemma {:induction false} WithoutDistinct(xs: seq<string>, id: string)
    requires Distinct(xs)
    ensures Distinct(Without(xs, id))
  {
    if xs != [] {
      var rest := xs[1..];
      assert Distinct(rest) by {
        forall i, j | 0 <= i < j < |rest| ensures rest[i] != rest[j] {
          assert rest[i] == xs[i + 1] && rest[j] == xs[j + 1];
        }
      }
      WithoutDistinct(rest, id);
      forall k | 0 <= k < |rest| ensures rest[k] != xs[0] {
        assert rest[k] == xs[k + 1];
      }
      var w := Without(rest, id);
      assert xs[0] !in w;
    }
  }

  /** Clicking keeps an answer free of repeated options. */
  lemma ToggleKeepsDistinct(kind: QuestionType, current: seq<string>, id: string)
    requires Distinct(current)
    ensures Distinct(Toggled(kind, current, id))
  {
    if kind == MULTIPLE {
      if id in current {
        WithoutDistinct(current, id);
      } else {
        var r := current + [id];
        forall i, j | 0 <= i < j < |r| ensures r[i] != r[j] {
          if j == |current| {
            assert r[i] == current[i];
          } else {
            assert r[i] == current[i] && r[j] == current[j];
          }
        }
      }
    }
  }

  /** Removing an option that was appended last gives the earlier answer back. */
  lemma {:induction false} WithoutAppended(xs: seq<string>, id: string)
    requires id !in xs
    ensures Without(xs + [id], id) == xs
  {
    if xs == [] {
      assert [] + [id] == [id];
    } else {
      assert (xs + [id])[0] == xs[0];
      assert (xs + [id])[1..] == xs[1..] + [id];
      WithoutAppended(xs[1..], id);
      assert xs == [xs[0]] + xs[1..];
    }
  }

  lemma {:induction false} WithoutMultiset(xs: seq<string>, id: string)
    ensures multiset(Without(xs, id)) == multiset(xs)[id := 0]
  {
    if xs != [] {
      WithoutMultiset(xs[1..], id);
      assert xs == [xs[0]] + xs[1..];
    }
  }

  /** Clicking a multiple-choice option that was not chosen, twice, restores the answer. */
  lemma ToggleTwiceRestores(current: seq<string>, id: string)
    requires id !in current
    ensures Toggled(MULTIPLE, Toggled(MULTIPLE, current, id), id) == current
  {
    WithoutAppended(current, id);
  }

  /** Clicking a chosen multiple-choice option twice moves it to the end: the answer holds
      the same options and is judged the same. */
  lemma ToggleTwiceSameKey(current: seq<string>, id: string)
    requires Distinct(current) && id in current
    ensures multiset(Toggled(MULTIPLE, Toggled(MULTIPLE, current, id), id)) == multiset(current)
    ensures AnswerKey(Toggled(MULTIPLE, Toggled(MULTIPLE, current, id), id)) == AnswerKey(current)
  {
    WithoutMultiset(current, id);
    DistinctOnce(current, id);
    var r := Toggled(MULTIPLE, Toggled(MULTIPLE, current, id), id);
    assert multiset(r) == multiset(current);
    KeyIgnoresOrder(r, current);
  }

  lemma {:induction false} DistinctOnce(xs: seq<string>, id: string)
    requires Distinct(xs) && id in xs
    ensures multiset(xs)[id] == 1
  {
    var rest := xs[1..];
    assert xs == [xs[0]] + rest;
    forall k | 0 <= k < |rest| ensures rest[k] != xs[0] {
      assert rest[k] == xs[k + 1];
    }
    if xs[0] == id {
      assert id !in rest;
    } else {
      assert Distinct(rest) by {
        forall i, j | 0 <= i < j < |rest| ensures rest[i] != rest[j] {
          assert rest[i] == xs[i + 1] && rest[j] == xs[j + 1];
        }
      }
      DistinctOnce(rest, id);
    }
  }

  /** On an answer without repeated options, a click always leaves a single-choice question
      answered, and leaves a multiple-choice question unanswered exactly when it removed the
      only chosen option; either way the question keeps its entry. */
  lemma ToggleAnswered(kind: QuestionType, answers: Answers, qid: string, id: string)
    requires Distinct(Lookup(answers, qid))
    ensures var a := answers[qid := Toggled(kind, Lookup(answers, qid), id)];
      qid in a && (HasAnswered(a, qid) <==> kind == SINGLE || Lookup(answers, qid) != [id])
  {
    var current := Lookup(answers, qid);
    var r := Toggled(kind, current, id);
    if kind == MULTIPLE && id in current {
      if current == [id] {
        assert Without([id], id) == [] + Without([], id);
      } else {
        assert |current| >= 2;
        assert current[0] != current[1];
        var x := if current[0] != id then current[0] else current[1];
        assert x in r;
      }
    }
  }

  /** The answer state of one practice session. */
  class AnswerSheet {
    /** Question id to the options chosen so far. */
    var answers: Answers
    /** Questions submitted one at a time, outside batch mode. */
    var submitted: map<string, bool>
    /** Whether the whole paper was submitted, in batch mode. */
    var globalSubmitted: bool
    const batchMode: bool

    constructor(batchMode: bool)
      ensures this.batchMode == batchMode
      ensures answers == map[] && submitted == map[] && !globalSubmitted
    {
      this.batchMode := batchMode;
      answers := map[];
      submitted := map[];
      globalSubmitted := false;
    }

    /** Whether the card of question `id` reveals its answer. */
    predicate ShowAnswer(id: string)
      reads this
    {
      if batchMode then globalSubmitted else id in submitted && submitted[id]
    }

    /** The answer the card of question `id` shows as chosen. */
    function UserAnswer(id: string): seq<string>
      reads this
    {
      Lookup(answers, id)
    }

    /** A click on option `id` of question `q`: ignored while the answer is revealed,
        otherwise the question's entry becomes the toggled answer and nothing else moves. */
    method ChooseOption(q: Question, id: string)
      modifies this
      ensures old(ShowAnswer(q.id)) ==> answers == old(answers)
      ensures !old(ShowAnswer(q.id)) ==>
        answers == old(answers)[q.id := Toggled(q.kind, old(UserAnswer(q.id)), id)]
      ensures answers.Keys <= old(answers.Keys) + {q.id}
      ensures submitted == old(submitted) && globalSubmitted == old(globalSubmitted)
    {
      if !ShowAnswer(q.id) {
        answers := answers[q.id := Toggled(q.kind, UserAnswer(q.id), id)];
      }
    }

    /** `handleSingleSubmit`: reveals the answer of one question. */
    method SubmitOne(id: string)
      modifies this
      ensures submitted == old(submitted)[id := true]
      ensures answers == old(answers) && globalSubmitted == old(globalSubmitted)
      ensures !batchMode ==> ShowAnswer(id)
      ensures forall x :: old(ShowAnswer(x)) ==> ShowAnswer(x)
    {
      submitted := submitted[id := true];
    }

    /** `handleGlobalSubmit`: reveals every answer in batch mode. */
    method SubmitAll()
      modifies this
      ensures globalSubmitted
      ensures answers == old(answers) && submitted == old(submitted)
      ensures batchMode ==> forall x :: ShowAnswer(x)
      ensures forall x :: old(ShowAnswer(x)) ==> ShowAnswer(x)
    {
      globalSubmitted := true;
    }
  }
}
