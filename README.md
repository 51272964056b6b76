# Exam session of the study companion, in Dafny

This project models the practice-exam page of a client-side study companion
(`pages/ExamPage.tsx`, with the records of `types.ts`). The page does three things:

- **Selection.** The page shuffles a chapter's question bank. It keeps the first 25
  questions when there are at least 25, and all of them otherwise.
- **Session state.** The page holds the loaded exam and an answer record keyed by
  question id. The record starts with one empty answer per question. It also holds a
  one-way `isSubmitted` flag. Answers change one entry at a time through
  `handleAnswerChange`. `handleSubmit` sets the flag.
- **Scoring.** After submission, the score counts the multiple-choice questions whose
  stored answer equals the correct answer once both are lower-cased. The denominator
  is the number of multiple-choice questions. Each card shows "Correct!" by the same
  comparison. For display, the questions are grouped by kind.

Modules, one per file:

- `Types` (`types.dfy`): `QuestionType`, `Question` and `UserAnswer`, plus the id helpers
  `IdSet` and `DistinctIds`.
- `TextCase` (`text_case.dfy`): lower-casing as the comparison uses it.
- `ExamSelection` (`exam_selection.dfy`): the selection step, taken as a pure function of
  the shuffled bank.
- `Scoring` (`scoring.dfy`): the score's filter and fold, `mcqCount`, the cards'
  `isCorrect`, and `questionsByType`.
- `Session` (`exam_session.dfy`): the page state as the class `ExamSession`. Its fields
  are `chapter`, `answers` and `submitted`. Its methods are the effect's final step
  (`Load`), `handleAnswerChange` (`SetAnswer`), a card's input (`CardInput`) and
  `handleSubmit` (`Submit`). The initial answer record is built by the loop
  `InitialAnswers`.

The model follows the code in these places, where a stricter session would do more.

- `SetAnswer` stores the answer whatever the state. It does not check the submitted
  flag. It does not check that the id belongs to the exam, and an unknown id is added
  as a new key. A stricter session would ignore an edit after submission or for an id
  outside the exam; this page applies both.
- The only protection after submission is the `disabled` attribute on the card inputs.
  `CardInput` models that guard separately: a card edit reaches `SetAnswer` only
  while the exam is not submitted.
- Loading a chapter replaces the exam and the answer record. It leaves the submitted
  flag as it is, because the data effect never resets it.
- When the bank has distinct ids, so does the exam. The code does not check the bank,
  so `SelectionKeepsDistinctIds` requires it.

## Model

| member | source | states |
|---|---|---|
| `TextCase.ToLower` | pages/ExamPage.tsx:131 | lower-casing keeps the length and maps each character through `LowerChar` |
| `TextCase.LowerChar` | pages/ExamPage.tsx:8 | the result is never an upper-case ASCII letter; an upper-case letter maps to the matching lower-case letter; every other character is kept |
| `TextCase.ToLowerIdempotent` | pages/ExamPage.tsx:131 | lower-casing an already lower-cased string changes nothing |
| `TextCase.EmptyMatchesOnlyEmpty` | pages/ExamPage.tsx:131 | an empty answer matches, ignoring case, exactly when the correct answer is empty |
| `ExamSelection.SelectExam` | pages/ExamPage.tsx:90-92 | the exam is a prefix of the shuffled bank; its length is the limit when the bank has at least that many questions, and the bank's length otherwise; it is never padded |
| `ExamSelection.BuildExam` | pages/ExamPage.tsx:87-92 | with the hard-coded limit 25: exactly 25 questions from a bank of 25 or more, all of them otherwise |
| `ExamSelection.SelectionDrawnFromBank` | pages/ExamPage.tsx:87-92 | if the shuffle is a permutation of the bank, the exam's multiset is contained in the bank's and every exam question is in the bank |
| `ExamSelection.SmallBankUsedWhole` | pages/ExamPage.tsx:90-92 | a bank smaller than the limit yields a permutation of the whole bank |
| `ExamSelection.LargeBankTruncated` | pages/ExamPage.tsx:90-91 | a bank of at least the limit yields exactly the limit's number of questions |
| `ExamSelection.PermutationKeepsDistinct` | pages/ExamPage.tsx:87 | a permutation of a bank with distinct ids has distinct ids |
| `ExamSelection.SelectionKeepsDistinctIds` | pages/ExamPage.tsx:87-92 | an exam drawn from a bank with distinct ids has no duplicate id |
| `Scoring.ByType` | pages/ExamPage.tsx:161 | a group holds only questions of its kind, each taken from the exam |
| `Scoring.McqCount` | pages/ExamPage.tsx:135 | the multiple-choice count never exceeds the exam's length |
| `Scoring.Matches` | pages/ExamPage.tsx:131 | a question whose id has no stored answer never matches; a stored answer equal to the correct answer always matches |
| `Scoring.Tally` | pages/ExamPage.tsx:130-132 | the fold adds at most one per question, so it never exceeds the number of questions it folds over |
| `Scoring.ScoreOf` | pages/ExamPage.tsx:128-132 | the score of a submitted exam is at most its multiple-choice count |
| `Scoring.IsCorrect` | pages/ExamPage.tsx:8 | a card is correct only after submission; the exact correct answer is correct on a card of any kind, free-text cards included |
| `Scoring.IsCorrectIgnoresCase` | pages/ExamPage.tsx:8 | a card's verdict depends on the answer only up to letter case: an answer differing from the correct one only in case is correct, two answers equal ignoring case get the same verdict, and lower-casing the answer first changes nothing |
| `Scoring.CorrectCards` | pages/ExamPage.tsx:8 | the cards listed are cards of the input whose `isCorrect` holds for their stored answer |
| `Scoring.CorrectCardsCount` | pages/ExamPage.tsx:8 | each card occurs in the list as often as in the input when it shows "Correct!" and not at all otherwise, so the list's length counts the correct cards, repeats included |
| `Scoring.CorrectCardsComplete` | pages/ExamPage.tsx:8 | every card whose `isCorrect` holds is listed, and the list keeps the cards' order |
| `Scoring.TallyCountsCorrectCards` | pages/ExamPage.tsx:130-132 | when every card has an answer entry, the score's left fold equals the number of cards showing "Correct!" (counted from the head) |
| `Scoring.ScoreIsCorrectMcqCards` | pages/ExamPage.tsx:126-135 | when every exam question has an answer entry, the score equals the number of multiple-choice cards showing "Correct!", which is at most the multiple-choice count |
| `Scoring.TallyIgnoresOtherIds` | pages/ExamPage.tsx:130-131 | changing the answer under an id that no folded question carries does not change the fold |
| `Scoring.FreeTextAnswerNeverScores` | pages/ExamPage.tsx:129 | in an exam with distinct ids, any answer typed into a short- or long-answer question leaves the score unchanged |
| `Scoring.ByTypePartitions` | pages/ExamPage.tsx:161 | the three groups partition the exam: their multisets add up to the exam's, and their lengths to its length |
| `Scoring.McqCountExcludesFreeText` | pages/ExamPage.tsx:135 | the multiple-choice count is the exam's length minus the short- and long-answer groups |
| `Scoring.EachQuestionInOneGroup` | pages/ExamPage.tsx:179-199 | an exam question is in the group of its own kind and in no other group |
| `Scoring.ByTypeKeepsOrder` | pages/ExamPage.tsx:161 | each group is a subsequence of the exam, so it keeps the shuffled order |
| `Session.InitialAnswers` | pages/ExamPage.tsx:101-104 | the initial answer record has exactly the exam's ids as keys, and every value is the empty string |
| `Session.ExamSession.constructor` | pages/ExamPage.tsx:64-68 | the page starts with no chapter, an empty answer record and the flag cleared |
| `Session.ExamSession.Load` | pages/ExamPage.tsx:85-105 | a found chapter installs the 25-question selection and a blank answer record keyed by its ids, drawn from the bank; a missing chapter changes nothing; the flag is untouched |
| `Session.ExamSession.SetAnswer` | pages/ExamPage.tsx:117-119 | the record becomes the old record with `id` set to the answer; the key is inserted if absent; every other key and value is unchanged; there is no submitted check |
| `Session.ExamSession.CardInput` | pages/ExamPage.tsx:22-43 | a card edit after submission leaves the record unchanged; before submission it sets the card's entry |
| `Session.ExamSession.Submit` | pages/ExamPage.tsx:121-122 | the flag is set, and submitting again leaves it set |
| `Session.ExamSession.McqTotal` | pages/ExamPage.tsx:135 | 0 without a chapter, otherwise at most the exam's length |
| `Session.ExamSession.Score` | pages/ExamPage.tsx:126-133 | 0 before submission or without a chapter; never more than the multiple-choice count |
| `Session.SubmittedScoreCountsCorrectCards` | pages/ExamPage.tsx:126-135 | after submission, every multiple-choice card has an answer entry, and the score shown equals the number of multiple-choice cards showing "Correct!" |
| `Session.ThreeQuestionScore` | pages/ExamPage.tsx:128-135 | answers "paris", "Jupiter", "42" to "Paris", "Mars", "42" score 2 out of 3 |

`Session.ThreeQuestionExam` plays that example through a fresh session. It loads the
chapter, answers through the cards, submits, and then tries a late edit, which is
ignored. It ends with a score of 2 out of 3.

## Left out

- Fetching `/data/subjects.json` and the subject file, and the loading and error
  handling around them. These are network I/O inside an asynchronous effect. The model
  starts from their result: `Load` receives the found chapter's bank, or None. None
  stands for the three cases that leave the state as it was: the chapter is not found
  (pages/ExamPage.tsx:85), the subject is not found (line 79 throws), or a fetch fails
  (the error is caught at lines 107-108).
- The chapter's other fields (name, description, study links) and the subject name.
  They are only displayed.
- `Math.random` in the shuffle. The shuffled copy is an input. It is related to the bank
  only by being a permutation of it, so fairness and uniformity are not modelled.
- `TextCase.ToLower`: models ASCII lower-casing only. The runtime's `toLowerCase`
  applies full Unicode case mapping, which depends on the runtime's tables and can
  change a string's length (U+0130 lower-cases to two code units); the model does not
  capture that.
- The answer record is a plain JavaScript object, and the model treats it as a map. Question
  ids are assumed not to be names inherited from `Object.prototype`, such as `__proto__`.
  For such an id the assignment at pages/ExamPage.tsx:102 stores nothing, and reading the
  entry at lines 8 and 131 fails.
- `window.scrollTo` on submit, and all rendering, styling and messages. This includes
  which radio button is checked.
- The other pages and components: the question box backed by the external answering
  service, the subject, home and analysis pages, routing, header, footer and icons.
  They hold no exam logic.
