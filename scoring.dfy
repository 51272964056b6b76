/** Grading of a submitted exam and the grouping of its questions for display
    (pages/ExamPage.tsx:8, 126-135, 161). */
module Scoring {
  import opened Types
  import opened TextCase

  /** `questionsByType`: the questions of one kind, in exam order. The same filter
      selects the multiple-choice questions for the score and its denominator. */
  function ByType(qs: seq<Question>, t: QuestionType): (r: seq<Question>)
    ensures |r| <= |qs|
    ensures forall q :: q in r ==> q in qs && q.kind == t
  {
    if qs == [] then []
    else (if qs[0].kind == t then [qs[0]] else []) + ByType(qs[1..], t)
  }

  /** `mcqCount`: how many questions of the exam are multiple choice. */
  function McqCount(qs: seq<Question>): (r: nat)
    ensures r <= |qs|
  {
    |ByType(qs, Mcq)|
  }

  /** The test inside the score's reduce: the stored answer is looked up with optional
      chaining, so a missing entry never matches; a present one matches when it equals
      the correct answer after lower-casing both. */
  predicate Matches(q: Question, answers: UserAnswer)
    ensures Matches(q, answers) ==> q.id in answers
    ensures q.id in answers && answers[q.id] == q.correctAnswer ==> Matches(q, answers)
  {
    q.id in answers && SameIgnoringCase(answers[q.id], q.correctAnswer)
  }

  /** The reduce of the score: a left fold adding one per matching question. */
  function Tally(mcqs: seq<Question>, answers: UserAnswer): (r: nat)
    ensures r <= |mcqs|
  {
    if mcqs == [] then 0
    else Tally(mcqs[..|mcqs| - 1], answers) + (if Matches(mcqs[|mcqs| - 1], answers) then 1 else 0)
  }

  /** The score of a submitted exam: matching multiple-choice questions. */
  function ScoreOf(qs: seq<Question>, answers: UserAnswer): (r: nat)
    ensures r <= McqCount(qs)
  {
    Tally(ByType(qs, Mcq), answers)
  }

  /** `isCorrect` of one question card: false before submission; afterwards the card's
      answer equals the correct answer ignoring case. The kind is not consulted, so a
      free-text card can show "Correct!" although it is never scored. */
  predicate IsCorrect(q: Question, userAnswer: string, submitted: bool)
    ensures IsCorrect(q, userAnswer, submitted) ==> submitted
    ensures submitted && userAnswer == q.correctAnswer ==> IsCorrect(q, userAnswer, submitted)
  {
    submitted && SameIgnoringCase(userAnswer, q.correctAnswer)
  }

  /** A card's verdict depends on the answer only up to letter case: two answers that
      differ only in case get the same verdict (with `b` the correct answer, an answer
      differing from it only in case is correct), and lower-casing the answer first
      changes nothing. */
  lemma {:induction false} IsCorrectIgnoresCase(q: Question, a: string, b: string, submitted: bool)
    requires SameIgnoringCase(a, b)
    ensures IsCorrect(q, a, submitted) <==> IsCorrect(q, b, submitted)
    ensures IsCorrect(q, a, submitted) <==> IsCorrect(q, ToLower(a), submitted)
  {
  }

  /** The cards that show "Correct!", taken from the head of the list; each card is
      handed the stored answer for its id. */
  function CorrectCards(cards: seq<Question>, answers: UserAnswer): (r: seq<Question>)
    requires forall q :: q in cards ==> q.id in answers
    ensures forall q :: q in r ==> q in cards && IsCorrect(q, answers[q.id], true)
  {
    if cards == [] then []
    else (if IsCorrect(cards[0], answers[cards[0].id], true) then [cards[0]] else [])
         + CorrectCards(cards[1..], answers)
  }

  /** No correct card is missing from the list, and the list keeps the cards' order. */
  lemma {:induction false} CorrectCardsComplete(cards: seq<Question>, answers: UserAnswer)
    requires forall q :: q in cards ==> q.id in answers
    ensures forall q :: q in cards && IsCorrect(q, answers[q.id], true) ==> q in CorrectCards(cards, answers)
    ensures Subsequence(CorrectCards(cards, answers), cards)
    decreases |cards|
  {
    if cards != [] {
      var rest := CorrectCards(cards[1..], answers);
      CorrectCardsComplete(cards[1..], answers);
      if IsCorrect(cards[0], answers[cards[0].id], true) {
        assert CorrectCards(cards, answers) == [cards[0]] + rest;
        assert ([cards[0]] + rest)[1..] == rest;
      } else {
        assert CorrectCards(cards, answers) == rest;
      }
      forall q | q in cards && IsCorrect(q, answers[q.id], true)
        ensures q in CorrectCards(cards, answers)
      {
        if q != cards[0] {
          assert q in cards[1..];
        }
      }
    }
  }

  /** Each card occurs in the list exactly as often as in the input when it shows
      "Correct!", and not at all otherwise; so the list's length is the number of
      cards showing "Correct!", repeated cards included. */
  lemma {:induction false} CorrectCardsCount(cards: seq<Question>, answers: UserAnswer)
    requires forall q :: q in cards ==> q.id in answers
    ensures forall q :: q in cards ==>
              multiset(CorrectCards(cards, answers))[q] ==
              if IsCorrect(q, answers[q.id], true) then multiset(cards)[q] else 0
    decreases |cards|
  {
    if cards != [] {
      var head, tail := cards[0], cards[1..];
      var rest := CorrectCards(tail, answers);
      CorrectCardsCount(tail, answers);
      assert cards == [head] + tail;
      assert multiset(cards) == multiset{head} + multiset(tail);
      var picked := if IsCorrect(head, answers[head.id], true) then [head] else [];
      assert CorrectCards(cards, answers) == picked + rest;
      assert multiset(CorrectCards(cards, answers)) == multiset(picked) + multiset(rest);
      forall q | q in cards
        ensures multiset(CorrectCards(cards, answers))[q] ==
                if IsCorrect(q, answers[q.id], true) then multiset(cards)[q] else 0
      {
        if q !in tail {
          assert multiset(tail)[q] == 0;
          assert q !in rest;
        }
      }
    }
  }

  lemma {:induction false} CorrectCardsAppend(s: seq<Question>, x: Question, answers: UserAnswer)
    requires forall q :: q in s + [x] ==> q.id in answers
    ensures CorrectCards(s + [x], answers) ==
            CorrectCards(s, answers) + (if IsCorrect(x, answers[x.id], true) then [x] else [])
    decreases |s|
  {
    if s == [] {
      assert [x][1..] == [];
      assert CorrectCards([x][1..], answers) == [];
    } else {
      var head := s[0];
      assert s + [x] == [head] + (s[1..] + [x]);
      assert (s + [x])[0] == head && (s + [x])[1..] == s[1..] + [x];
      CorrectCardsAppend(s[1..], x, answers);
    }
  }

  /** When every card has an answer entry, the score's fold counts exactly the cards
      that show "Correct!". */
  lemma {:induction false} TallyCountsCorrectCards(mcqs: seq<Question>, answers: UserAnswer)
    requires forall q :: q in mcqs ==> q.id in answers
    ensures Tally(mcqs, answers) == |CorrectCards(mcqs, answers)|
    decreases |mcqs|
  {
    if mcqs != [] {
      var init, last := mcqs[..|mcqs| - 1], mcqs[|mcqs| - 1];
      assert mcqs == init + [last];
      TallyCountsCorrectCards(init, answers);
      CorrectCardsAppend(init, last, answers);
    }
  }

  /** With every exam question answered, the score is the number of multiple-choice
      cards showing "Correct!", hence between 0 and the multiple-choice count. */
  lemma ScoreIsCorrectMcqCards(qs: seq<Question>, answers: UserAnswer)
    requires IdSet(qs) <= answers.Keys
    ensures forall q :: q in ByType(qs, Mcq) ==> q.id in answers
    ensures ScoreOf(qs, answers) == |CorrectCards(ByType(qs, Mcq), answers)| <= McqCount(qs)
  {
    assert forall q :: q in ByType(qs, Mcq) ==> q.id in IdSet(qs);
    TallyCountsCorrectCards(ByType(qs, Mcq), answers);
  }

  /** Changing the answer of an id that no counted question carries leaves the fold alone. */
  lemma {:induction false} TallyIgnoresOtherIds(mcqs: seq<Question>, answers: UserAnswer, id: string, v: string)
    requires forall q :: q in mcqs ==> q.id != id
    ensures Tally(mcqs, answers[id := v]) == Tally(mcqs, answers)
    decreases |mcqs|
  {
    if mcqs != [] {
      var init := mcqs[..|mcqs| - 1];
      assert forall q :: q in init ==> q in mcqs;
      TallyIgnoresOtherIds(init, answers, id, v);
    }
  }

  /** Whatever is typed into a short- or long-answer question of an exam with distinct
      ids, the score does not move. */
  lemma FreeTextAnswerNeverScores(qs: seq<Question>, answers: UserAnswer, q: Question, v: string)
    requires DistinctIds(qs) && q in qs && q.kind != Mcq
    ensures ScoreOf(qs, answers[q.id := v]) == ScoreOf(qs, answers)
  {
    forall m | m in ByType(qs, Mcq) ensures m.id != q.id {
      var i :| 0 <= i < |qs| && qs[i] == m;
      var j :| 0 <= j < |qs| && qs[j] == q;
      assert i != j;
    }
    TallyIgnoresOtherIds(ByType(qs, Mcq), answers, q.id, v);
  }

  /** The three groups split the exam: every question lands in the group of its own kind,
      as often as it occurs in the exam, and in no other group. */
  lemma {:induction false} ByTypePartitions(qs: seq<Question>)
    ensures multiset(qs) ==
            multiset(ByType(qs, Mcq)) + multiset(ByType(qs, ShortAnswer)) + multiset(ByType(qs, LongAnswer))
    ensures |qs| == |ByType(qs, Mcq)| + |ByType(qs, ShortAnswer)| + |ByType(qs, LongAnswer)|
  {
    if qs != [] {
      assert qs == [qs[0]] + qs[1..];
      ByTypePartitions(qs[1..]);
    }
  }

  /** Free-text questions are exactly what the multiple-choice count leaves out. */
  lemma McqCountExcludesFreeText(qs: seq<Question>)
    ensures McqCount(qs) == |qs| - |ByType(qs, ShortAnswer)| - |ByType(qs, LongAnswer)|
  {
  }

  /** Each question of the exam appears in the group of its kind and in no other. */
  lemma EachQuestionInOneGroup(qs: seq<Question>, q: Question, t: QuestionType)
    requires q in qs
    ensures q in ByType(qs, t) <==> t == q.kind
  {
  }

  /** `xs` can be obtained from `ys` by deleting elements, keeping the order of the rest. */
  ghost predicate Subsequence(xs: seq<Question>, ys: seq<Question>)
    decreases |ys|
  {
    if xs == [] then true
    else if ys == [] then false
    else if xs[0] == ys[0] then Subsequence(xs[1..], ys[1..])
    else Subsequence(xs, ys[1..])
  }

  /** Each group keeps the exam's relative order. */
  lemma {:induction false} ByTypeKeepsOrder(qs: seq<Question>, t: QuestionType)
    ensures Subsequence(ByType(qs, t), qs)
  {
    if qs != [] {
      ByTypeKeepsOrder(qs[1..], t);
      if qs[0].kind == t {
        assert ByType(qs, t) == [qs[0]] + ByType(qs[1..], t);
      } else {
        assert ByType(qs, t) == ByType(qs[1..], t);
      }
    }
  }
}
