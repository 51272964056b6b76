/** The state of the exam page (pages/ExamPage.tsx:64-68, 97-135): the loaded exam, the
    answer record and the one-way submitted flag, with the handlers that change them. */
module Session {
  import opened Types
  import opened TextCase
  import opened ExamSelection
  import opened Scoring

  /** The reduce that builds the initial answer record: one empty answer per exam
      question, written into the accumulator one question at a time. */
  method InitialAnswers(exam: seq<Question>) returns (acc: UserAnswer)
    ensures acc.Keys == IdSet(exam)
    ensures forall id :: id in acc ==> acc[id] == ""
  {
    acc := map[];
    var i := 0;
    while i < |exam|
      invariant 0 <= i <= |exam|
      invariant acc.Keys == IdSet(exam[..i])
      invariant forall id :: id in acc ==> acc[id] == ""
    {
      assert exam[..i + 1] == exam[..i] + [exam[i]];
      acc := acc[exam[i].id := ""];
      i := i + 1;
    }
    assert exam[..i] == exam;
  }

  class ExamSession {
    /** The questions of the exam chapter; None while no chapter has been loaded. */
    var chapter: Option<seq<Question>>
    /** The answer record, keyed by question id. */
    var answers: UserAnswer
    /** Set once the exam is submitted; nothing clears it. */
    var submitted: bool

    /** Every question of a loaded exam has an entry in the answer record, so each
        card receives a defined answer. */
    ghost predicate Valid()
      reads this
    {
      chapter.Some? ==> IdSet(chapter.value) <= answers.Keys
    }

    /** The page's initial state: no chapter, no answers, not submitted. */
    constructor ()
      ensures Valid()
      ensures chapter == None && answers == map[] && !submitted
    {
      chapter := None;
      answers := map[];
      submitted := false;
    }

    /** The end of the data effect. `found` is the chapter's question bank when the
        chapter was found and None otherwise; `shuffled` is the result of shuffling it.
        A found chapter's exam replaces the loaded one and gets a fresh answer record;
        the submitted flag is left as it was. */
    method Load(found: Option<seq<Question>>, shuffled: seq<Question>)
      requires found.Some? ==> IsPermutation(shuffled, found.value)
      requires Valid()
      modifies this`chapter, this`answers
      ensures Valid()
      ensures found.None? ==> chapter == old(chapter) && answers == old(answers)
      ensures found.Some? ==> chapter == Some(BuildExam(shuffled))
      ensures found.Some? ==> multiset(chapter.value) <= multiset(found.value)
      ensures found.Some? ==> answers.Keys == IdSet(chapter.value)
      ensures found.Some? ==> forall id :: id in answers ==> answers[id] == ""
    {
      if found.Some? {
        var exam := BuildExam(shuffled);
        SelectionDrawnFromBank(found.value, shuffled, ExamSize);
        chapter := Some(exam);
        answers := InitialAnswers(exam);
      }
    }

    /** `handleAnswerChange`: stores `answer` under `id`. It consults neither the
        submitted flag nor whether `id` belongs to the exam; an unknown id is added. */
    method SetAnswer(id: string, answer: string)
      requires Valid()
      modifies this`answers
      ensures Valid()
      ensures answers == old(answers)[id := answer]
      ensures id in answers && answers[id] == answer
      ensures answers.Keys == old(answers).Keys + {id}
      ensures forall k :: k in old(answers) && k != id ==> answers[k] == old(answers)[k]
    {
      answers := answers[id := answer];
    }

    /** An edit in a question card's radio button or text area. The inputs are
        disabled once the exam is submitted, so a submitted exam's answers cannot be
        changed through a card; before that the edit reaches `SetAnswer`. */
    method CardInput(q: Question, answer: string)
      requires Valid()
      modifies this`answers
      ensures Valid()
      ensures submitted ==> answers == old(answers)
      ensures !submitted ==> answers == old(answers)[q.id := answer]
    {
      if !submitted {
        SetAnswer(q.id, answer);
      }
    }

    /** `handleSubmit`: sets the flag; submitting again leaves it set. */
    method Submit()
      requires Valid()
      modifies this`submitted
      ensures Valid()
      ensures submitted
    {
      submitted := true;
    }

    /** `mcqCount`: the multiple-choice count of the loaded exam, 0 without one. */
    function McqTotal(): (r: nat)
      reads this
      ensures chapter.Some? ==> r <= |chapter.value|
      ensures chapter.None? ==> r == 0
    {
      match chapter
      case None => 0
      case Some(qs) => McqCount(qs)
    }

    /** `score`: 0 before submission or without an exam; afterwards the matching
        multiple-choice questions, never more than their count. */
    function Score(): (r: nat)
      reads this
      ensures !submitted || chapter.None? ==> r == 0
      ensures r <= McqTotal()
    {
      if !submitted || chapter.None? then 0 else ScoreOf(chapter.value, answers)
    }
  }

  /** After submission the score shown equals the number of multiple-choice cards
      that show "Correct!". */
  lemma SubmittedScoreCountsCorrectCards(s: ExamSession)
    requires s.Valid() && s.submitted && s.chapter.Some?
    ensures forall q :: q in ByType(s.chapter.value, Mcq) ==> q.id in s.answers
    ensures s.Score() == |CorrectCards(ByType(s.chapter.value, Mcq), s.answers)|
  {
    ScoreIsCorrectMcqCards(s.chapter.value, s.answers);
  }

  /** The three multiple-choice questions of the worked example. */
  function Paris(): Question { Question("q1", Mcq, "Capital of France?", Some(["Paris", "Rome"]), "Paris") }
  function Mars(): Question { Question("q2", Mcq, "Red planet?", Some(["Mars", "Jupiter"]), "Mars") }
  function FortyTwo(): Question { Question("q3", Mcq, "The answer?", Some(["42", "7"]), "42") }

  lemma ThreeQuestionsAllMcq()
    ensures ByType([Paris(), Mars(), FortyTwo()], Mcq) == [Paris(), Mars(), FortyTwo()]
  {
    var p, m, f := Paris(), Mars(), FortyTwo();
    assert [p, m, f][1..] == [m, f] && [m, f][1..] == [f] && [f][1..] == [];
  }

  /** Answers "paris", "Jupiter" and "42" to "Paris", "Mars" and "42" score 2 of 3:
      case is ignored, a wrong option is not. */
  lemma ThreeQuestionScore(answers: UserAnswer)
    requires "q1" in answers && answers["q1"] == "paris"
    requires "q2" in answers && answers["q2"] == "Jupiter"
    requires "q3" in answers && answers["q3"] == "42"
    ensures ScoreOf([Paris(), Mars(), FortyTwo()], answers) == 2
    ensures McqCount([Paris(), Mars(), FortyTwo()]) == 3
  {
    var p, m, f := Paris(), Mars(), FortyTwo();
    assert ToLower("Paris") == "paris" == ToLower("paris");
    assert ToLower("Mars")[0] == 'm' && ToLower("Jupiter")[0] == 'j';
    assert ToLower("42") == "42";
    assert [p, m, f][..2] == [p, m] && [p, m][..1] == [p] && [p][..0] == [];
    assert Tally([p], answers) == 1;
    assert Tally([p, m], answers) == 1;
    assert Tally([p, m, f], answers) == 2;
    ThreeQuestionsAllMcq();
  }

  /** A fresh page loads the example chapter, receives those answers and is submitted;
      an edit after submission changes nothing. */
  method ThreeQuestionExam()
  {
    var p, m, f := Paris(), Mars(), FortyTwo();
    var s := new ExamSession();
    s.Load(Some([p, m, f]), [p, m, f]);
    s.CardInput(p, "paris");
    s.CardInput(m, "Jupiter");
    s.CardInput(f, "42");
    s.Submit();
    s.CardInput(m, "Mars");
    ThreeQuestionScore(s.answers);
    assert s.McqTotal() == 3 && s.Score() == 2;
  }
}
