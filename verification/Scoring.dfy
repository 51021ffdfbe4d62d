/** How an answer is judged in practice mode (App.tsx:228-234), when the batch submission is
    allowed (App.tsx:332) and how the exam is scored (App.tsx:441-445). */
module Scoring {
  import opened Wrappers
  import opened Types
  import opened Text
  import opened Sorting

  /** The answer record of a session: question id to chosen option ids. */
  type Answers = map<string, seq<string>>

  /** The text an answer list is compared by: a sorted copy joined with commas. */
  function AnswerKey(xs: seq<string>): string
  {
    Join(SortStrings(xs), ",")
  }

  /** The order in which options were chosen never matters. */
  lemma KeyIgnoresOrder(a: seq<string>, b: seq<string>)
    requires multiset(a) == multiset(b)
    ensures AnswerKey(a) == AnswerKey(b)
  {
    SortIgnoresOrder(a, b);
  }

  /** For non-empty lists of option ids without commas, two lists have the same key exactly
      when they hold the same ids the same number of times. */
  lemma KeySameMultiset(a: seq<string>, b: seq<string>)
    requires a != [] && b != []
    requires forall i :: 0 <= i < |a| ==> ',' !in a[i]
    requires forall i :: 0 <= i < |b| ==> ',' !in b[i]
    ensures AnswerKey(a) == AnswerKey(b) <==> multiset(a) == multiset(b)
  {
    if multiset(a) == multiset(b) {
      SortIgnoresOrder(a, b);
    }
    if AnswerKey(a) == AnswerKey(b) {
      var sa, sb := SortStrings(a), SortStrings(b);
      SortedCommaFree(a);
      SortedCommaFree(b);
      SplitJoin(sa, ',');
      SplitJoin(sb, ',');
      assert sa == sb;
    }
  }

  lemma SortedCommaFree(a: seq<string>)
    requires a != []
    requires forall i :: 0 <= i < |a| ==> ',' !in a[i]
    ensures |SortStrings(a)| >= 1
    ensures forall i :: 0 <= i < |SortStrings(a)| ==> ',' !in SortStrings(a)[i]
  {
    var s := SortStrings(a);
    assert |s| == |multiset(s)| == |multiset(a)| == |a|;
    forall i | 0 <= i < |s| ensures ',' !in s[i] {
      assert s[i] in multiset(a);
    }
  }

  /** The empty list and the list holding one empty id share the key `""`, and no other list
      has it. */
  lemma EmptyKey(xs: seq<string>)
    ensures AnswerKey(xs) == "" <==> xs == [] || xs == [""]
  {
    var s := SortStrings(xs);
    assert |s| == |multiset(s)| == |multiset(xs)| == |xs|;
    JoinEmpty(s, ",");
    if |xs| == 1 {
      assert s[0] in multiset(xs);
      assert s == [s[0]];
    }
  }

  lemma JoinEmpty(xs: seq<string>, sep: string)
    requires sep != ""
    ensures Join(xs, sep) == "" <==> |xs| == 0 || (|xs| == 1 && xs[0] == "")
  {
    if |xs| >= 2 {
      assert |Join(xs, sep)| >= |sep|;
    }
  }

  /** `questions.find(item => item.id === qId)`, as the index of the first match. */
  function Find(qs: seq<Question>, id: string): (r: Maybe<nat>)
    ensures r.Some? ==> r.value < |qs| && qs[r.value].id == id
    ensures r.Some? ==> forall j :: 0 <= j < r.value ==> qs[j].id != id
    ensures r.None? <==> forall j :: 0 <= j < |qs| ==> qs[j].id != id
  {
    if qs == [] then None
    else if qs[0].id == id then Some(0)
    else match Find(qs[1..], id)
      case None => None
      case Some(k) => Some(k + 1)
  }

  /** `checkCorrect`: false for an unknown question or a question without an answer entry,
      otherwise whether the keys of the answer and of the correct answers agree. */
  function CheckCorrect(qs: seq<Question>, answers: Answers, id: string): (r: bool)
    ensures r ==> id in answers && exists i :: 0 <= i < |qs| && qs[i].id == id
  {
    match Find(qs, id)
    case None => false
    case Some(k) => id in answers && AnswerKey(answers[id]) == AnswerKey(qs[k].correctAnswers)
  }

  /** For the first question with its id, an answer entry of comma-free option ids is
      correct exactly when it chooses the same options as the correct answers. */
  lemma CheckCorrectMeans(qs: seq<Question>, answers: Answers, i: nat)
    requires i < |qs| && forall j :: 0 <= j < i ==> qs[j].id != qs[i].id
    requires qs[i].id in answers
    requires answers[qs[i].id] != [] && qs[i].correctAnswers != []
    requires forall k :: 0 <= k < |answers[qs[i].id]| ==> ',' !in answers[qs[i].id][k]
    requires forall k :: 0 <= k < |qs[i].correctAnswers| ==> ',' !in qs[i].correctAnswers[k]
    ensures CheckCorrect(qs, answers, qs[i].id)
        <==> multiset(answers[qs[i].id]) == multiset(qs[i].correctAnswers)
  {
    assert Find(qs, qs[i].id) == Some(i);
    KeySameMultiset(answers[qs[i].id], qs[i].correctAnswers);
  }

  /** `hasAnswered`: an entry exists and chooses at least one option. */
  predicate HasAnswered(answers: Answers, id: string)
  {
    id in answers && answers[id] != []
  }

  /** `answers[id] || []`: the entry, or the empty list when there is none. */
  function Lookup(answers: Answers, id: string): seq<string>
  {
    if id in answers then answers[id] else []
  }

  /** What one question adds in the exam fold: five points when the answer matches. */
  predicate Matches(q: Question, answers: Answers)
  {
    AnswerKey(Lookup(answers, q.id)) == AnswerKey(q.correctAnswers)
  }

  /** The exam fold from the accumulator `acc`, left to right over the questions. */
  function ScoreFrom(qs: seq<Question>, answers: Answers, acc: nat): (r: nat)
    ensures acc <= r <= acc + 5 * |qs|
  {
    if qs == [] then acc
    else ScoreFrom(qs[1..], answers, acc + if Matches(qs[0], answers) then 5 else 0)
  }

  /** The exam score: the fold from zero. */
  function ExamScore(qs: seq<Question>, answers: Answers): (r: nat)
    ensures r == 5 * CorrectCount(qs, answers)
    ensures r <= 5 * |qs|
  {
    ScoreFromCount(qs, answers, 0);
    ScoreFrom(qs, answers, 0)
  }

  /** The number of questions answered correctly, counted independently of the fold. */
  function CorrectCount(qs: seq<Question>, answers: Answers): (n: nat)
    ensures n <= |qs|
  {
    if qs == [] then 0
    else CorrectCount(qs[1..], answers) + if Matches(qs[0], answers) then 1 else 0
  }

  /** The fold adds five points for each correctly answered question. */
  lemma {:induction false} ScoreFromCount(qs: seq<Question>, answers: Answers, acc: nat)
    ensures ScoreFrom(qs, answers, acc) == acc + 5 * CorrectCount(qs, answers)
  {
    if qs != [] {
      ScoreFromCount(qs[1..], answers, acc + if Matches(qs[0], answers) then 5 else 0);
    }
  }

  lemma {:induction false} CountAppend(a: seq<Question>, b: seq<Question>, answers: Answers)
    ensures CorrectCount(a + b, answers) == CorrectCount(a, answers) + CorrectCount(b, answers)
  {
    if a != [] {
      assert (a + b)[0] == a[0];
      assert (a + b)[1..] == a[1..] + b;
      CountAppend(a[1..], b, answers);
    } else {
      assert a + b == b;
    }
  }

  /** The score of a paper is the sum of the scores of its parts. */
  lemma ScoreAppend(a: seq<Question>, b: seq<Question>, answers: Answers)
    ensures ExamScore(a + b, answers) == ExamScore(a, answers) + ExamScore(b, answers)
  {
    CountAppend(a, b, answers);
  }

  /** Full marks exactly when every question is answered correctly. */
  lemma {:induction false} FullMarks(qs: seq<Question>, answers: Answers)
    ensures ExamScore(qs, answers) == 5 * |qs| <==> forall i :: 0 <= i < |qs| ==> Matches(qs[i], answers)
  {
    CountAll(qs, answers);
  }

  lemma {:induction false} CountAll(qs: seq<Question>, answers: Answers)
    ensures CorrectCount(qs, answers) == |qs| <==> forall i :: 0 <= i < |qs| ==> Matches(qs[i], answers)
  {
    if qs != [] {
      CountAll(qs[1..], answers);
      if forall i :: 0 <= i < |qs| ==> Matches(qs[i], answers) {
        assert forall i :: 0 <= i < |qs[1..]| ==> Matches(qs[1..][i], answers) by {
          forall i | 0 <= i < |qs[1..]| ensures Matches(qs[1..][i], answers) {
            assert qs[1..][i] == qs[i + 1];
          }
        }
      }
      if CorrectCount(qs, answers) == |qs| {
        forall i | 0 <= i < |qs| ensures Matches(qs[i], answers) {
          if i > 0 {
            assert qs[i] == qs[1..][i - 1];
          }
        }
      }
    }
  }

  /** For an answered question the exam judges as practice mode does. */
  lemma ExamAgreesWithPractice(qs: seq<Question>, answers: Answers, i: nat)
    requires i < |qs| && forall j :: 0 <= j < i ==> qs[j].id != qs[i].id
    requires qs[i].id in answers
    ensures Matches(qs[i], answers) <==> CheckCorrect(qs, answers, qs[i].id)
  {
    assert Find(qs, qs[i].id) == Some(i);
  }

  /** An unanswered exam question counts as the empty answer, so it earns its five points
      exactly when its correct answers are empty (or one empty id); practice mode never
      judges an unanswered question correct. */
  lemma UnansweredExamQuestion(qs: seq<Question>, answers: Answers, i: nat)
    requires i < |qs| && qs[i].id !in answers
    ensures Matches(qs[i], answers) <==> qs[i].correctAnswers == [] || qs[i].correctAnswers == [""]
    ensures !CheckCorrect(qs, answers, qs[i].id)
  {
    EmptyKey([]);
    EmptyKey(qs[i].correctAnswers);
  }

  /** The batch-submit button is enabled when there are at least as many answer entries as
      questions. */
  predicate CanSubmitAll(answers: Answers, qs: seq<Question>)
  {
    |answers.Keys| >= |qs|
  }

  predicate UniqueIds(qs: seq<Question>)
  {
    forall i, j :: 0 <= i < j < |qs| ==> qs[i].id != qs[j].id
  }

  function IdSet(qs: seq<Question>): (r: set<string>)
    ensures forall i :: 0 <= i < |qs| ==> qs[i].id in r
    ensures forall x :: x in r ==> exists i :: 0 <= i < |qs| && qs[i].id == x
  {
    if qs == [] then {}
    else
      var rest := IdSet(qs[1..]);
      assert forall x :: x in rest ==> exists i :: 0 <= i < |qs| && qs[i].id == x by {
        forall x | x in rest ensures exists i :: 0 <= i < |qs| && qs[i].id == x {
          var k :| 0 <= k < |qs[1..]| && qs[1..][k].id == x;
          assert qs[k + 1].id == x;
        }
      }
      {qs[0].id} + rest
  }

  lemma {:induction false} IdSetSize(qs: seq<Question>)
    requires UniqueIds(qs)
    ensures |IdSet(qs)| == |qs|
  {
    if qs != [] {
      var rest := qs[1..];
      assert UniqueIds(rest) by {
        forall i, j | 0 <= i < j < |rest| ensures rest[i].id != rest[j].id {
          assert rest[i] == qs[i + 1] && rest[j] == qs[j + 1];
        }
      }
      IdSetSize(rest);
      forall k | 0 <= k < |rest| ensures rest[k].id != qs[0].id {
        assert rest[k] == qs[k + 1];
      }
      assert qs[0].id !in IdSet(rest);
    }
  }

  lemma SubsetSize(a: set<string>, b: set<string>)
    requires a <= b
    ensures |a| <= |b|
    decreases a
  {
    if a != {} {
      var x :| x in a;
      SubsetSize(a - {x}, b - {x});
    }
  }

  /** When the answer entries belong to the paper's questions (ids distinct), the gate is
      open exactly when every question has an entry; an entry that is empty again after its
      options were toggled off still counts. */
  lemma GateCountsEntries(answers: Answers, qs: seq<Question>)
    requires UniqueIds(qs)
    requires answers.Keys <= IdSet(qs)
    ensures CanSubmitAll(answers, qs) <==> forall i :: 0 <= i < |qs| ==> qs[i].id in answers
  {
    var ids := IdSet(qs);
    IdSetSize(qs);
    if CanSubmitAll(answers, qs) {
      SubsetEqual(answers.Keys, ids);
    }
    if forall i :: 0 <= i < |qs| ==> qs[i].id in answers {
      assert ids <= answers.Keys;
      SubsetSize(ids, answers.Keys);
    }
  }

  lemma SubsetEqual(a: set<string>, b: set<string>)
    requires a <= b && |a| >= |b|
    ensures a == b
  {
    if a != b {
      var x :| x in b && x !in a;
      SubsetSize(a, b - {x});
    }
  }

  /** An empty entry opens the gate without the question being answered. */
  lemma GateOpenUnanswered(q: Question, answers: Answers)
    requires answers == map[q.id := []]
    ensures CanSubmitAll(answers, [q]) && !HasAnswered(answers, q.id)
  {
    assert answers.Keys == {q.id};
  }
}
