/** The records of types.ts that the exam page works on. */
module Types {

  datatype Option<+T> = None | Some(value: T)

  /** The three kinds of question; the enumeration is closed (types.ts:11-15). */
  datatype QuestionType = Mcq | ShortAnswer | LongAnswer

  /** One question of a chapter's bank (types.ts:17-23). `options` is present for
      multiple-choice questions; `correctAnswer` is the option text for those and a
      model answer for the free-text kinds. */
  datatype Question = Question(
    id: string,
    kind: QuestionType,
    text: string,
    options: Option<seq<string>>,
    correctAnswer: string)

  /** The answer record: question id to the text the user has entered (types.ts:54-56). */
  type UserAnswer = map<string, string>

  /** The set of ids of a list of questions. */
  ghost function IdSet(qs: seq<Question>): set<string>
  {
    set q | q in qs :: q.id
  }

  /** No two positions of `qs` carry the same question id. */
  ghost predicate DistinctIds(qs: seq<Question>)
  {
    forall i, j :: 0 <= i < j < |qs| ==> qs[i].id != qs[j].id
  }
}
