# RED-S risk questionnaire: a Dafny model of the questionnaire engine

The application is a single-page screening questionnaire for Relative Energy
Deficiency in Sport (RED-S). An athlete chooses a biological sex. That choice
binds one of two fixed 15-question catalogs. The athlete answers the questions
one at a time: the first asks for training hours per week, and the rest are
multiple choice. The answers become a score from 0 to 100, and the score falls
into one of four risk bands. Everything the engine does sits in `src/App.tsx`.
This project models that engine and proves its properties:

- `wrappers.dfy`, module `Wrappers`: the `Option` type. It stands for an
  unbound sex, an absent answer, an entry that does not parse, and
  `Math.max` of no values (-Infinity).
- `catalog.dfy`, module `Catalog`: the question type, the two catalogs with
  their ids, categories, option labels and point values, and the selection of
  the bound catalog. The shape of both catalogs is proved by evaluating small
  recursive checks on the constants. Each check is proved sound once.
- `scoring.dfy`, modules `Scoring` and `ScoringProperties`: the score as a
  pure function of the bound catalog and the answer store.
  - The fold over the answer entries takes them in an arbitrary order.
    Lemmas prove that the order does not matter. They also prove that the
    fold equals a fold over the catalog once every stored id is a catalog id.
  - `Math.max`, `Math.round` and `Math.min` are written out over the
    integers.
  - The bounds, monotonicity and end points of the score are proved, as are
    the maxima of the two shipped catalogs (38 and 39).
- `risk.dfy`, module `Risk`: the four-band threshold chain on the score with
  each band's colour classes, label and advice text. It is proved against a
  table of bands.
- `flow.dfy`, module `Flow`: the screen flow as a class `App` with the four
  state fields of the component.
  - There is one method per handler that changes them.
  - A session invariant holds across every handler. It says which catalog is
    bound, that the index is in range, that the store holds only valid
    answers, and which questions are already answered.
  - On the results screen every question is answered, and the score lies
    between 0 and 100.

Two facts about the flow that the model makes explicit:

- There is no way back from the quiz to sex selection. "Previous" is
  disabled on the first question (`src/App.tsx:729`), and the only way out of
  the quiz is to finish it. The only way back to welcome from there is
  "Retake Assessment" on the results screen (`src/App.tsx:778`).
- Choosing a sex does not set the index (`src/App.tsx:599`, `src/App.tsx:611`).
  The index is always 0 there anyway, and the store is always empty.
  `Flow.App.ChooseSex` proves this.

## Model

| member | source | states |
|---|---|---|
| Catalog.FEMALE_QUESTIONS | src/App.tsx:43-185 | The female catalog: ids, categories, kinds and option labels and values. It has no contract of its own and is pinned down by `Catalog.FemaleShape` and `ScoringProperties.FemaleMaxPossible`. |
| Catalog.MALE_QUESTIONS | src/App.tsx:187-327 | The male catalog. It has no contract of its own and is pinned down by `Catalog.MaleShape` and `ScoringProperties.MaleMaxPossible`. |
| Catalog.QuestionsFor | src/App.tsx:440 | The catalog selection. It has no contract of its own and is pinned down by `Catalog.SelectionIsByFemale`. |
| Catalog.SelectionIsByFemale | src/App.tsx:440 | The female catalog is bound exactly when the sex is `female`; the male catalog for `male` and for no selection. |
| Catalog.FemaleShape | src/App.tsx:43-185 | The female catalog has 15 questions with distinct ids. The first asks for hours. Every other one is a choice with at least one option, and every option value is non-negative. |
| Catalog.MaleShape | src/App.tsx:187-327 | The same shape for the male catalog. |
| Catalog.SelectedShape | src/App.tsx:440 | Whatever the selection, including none, the catalog in play has that shape. |
| Scoring.Bucket | src/App.tsx:459-463 | An hours answer scores between 0 and 3 points. |
| Scoring.BucketCountsThresholds | src/App.tsx:459-463 | An hours answer scores one point for each of the thresholds 10, 15 and 20 it reaches. |
| Scoring.BucketMonotone | src/App.tsx:459-463 | More hours never score fewer points, and a negative entry scores 0. |
| Scoring.Find | src/App.tsx:458 | `questions.find` by id. It has no contract of its own and is pinned down by `Scoring.FindSpec` and `Scoring.FindUnique`. |
| Scoring.FindSpec | src/App.tsx:458 | The lookup by id fails exactly when no question has that id. Otherwise it returns the first question with that id. |
| Scoring.FindUnique | src/App.tsx:458 | With distinct ids, looking up a question's id returns that question. |
| Scoring.Contribution | src/App.tsx:458-466 | What one answer entry adds: bucketed for the hours question, the raw value otherwise, including for an id not in the catalog. It has no contract of its own and is pinned down by `Scoring.EntryTotalUpdate` and `Scoring.EntryTotalIsCatalogTotal`. |
| Scoring.EntryTotal | src/App.tsx:457-467 | The fold over the answer entries. It has no contract of its own and is pinned down by `Scoring.EntryTotalRemove` and `Scoring.EntryTotalIsCatalogTotal`. |
| Scoring.CatalogTotal | src/App.tsx:457-467 | A second fold, over the catalog, used as a reference for the entry fold. It has no contract of its own and is pinned down by `Scoring.EntryTotalIsCatalogTotal` and `ScoringProperties.CatalogTotalBounds`. |
| Scoring.EntryTotalRemove | src/App.tsx:457-467 | The sum over the answer entries is the same whichever entry is taken first, so the entry order does not matter. |
| Scoring.EntryTotalUpdate | src/App.tsx:457-467 | Overwriting one stored answer replaces exactly that answer's contribution to the total. |
| Scoring.EntryTotalIsCatalogTotal | src/App.tsx:457-467 | When every stored id is a catalog id, the sum over the entries equals the sum over the catalog of each answered question's points. |
| Scoring.MaxValue | src/App.tsx:470 | `Math.max` over a choice's option values. It has no contract of its own and is pinned down by `Scoring.MaxValueSpec`. |
| Scoring.MaxPoints | src/App.tsx:469-470 | 3 for the hours question, the best option otherwise. It has no contract of its own and is pinned down by `ScoringProperties.PointsWithinMax`. |
| Scoring.MaxPossible | src/App.tsx:468-471 | The sum of the per-question maxima. It has no contract of its own and is pinned down by `Scoring.MaxPossibleFinite` and `ScoringProperties.FemaleMaxPossible`/`MaleMaxPossible`. |
| Scoring.MaxValueSpec | src/App.tsx:470 | The maximum of a choice's option values is -Infinity exactly when there are no options. Otherwise it bounds every option value and is one of them. |
| Scoring.MaxPossibleFinite | src/App.tsx:468-471 | The maximum possible total is finite exactly when every choice question has at least one option. |
| Scoring.RoundPercent | src/App.tsx:473 | The result is `total / max * 100` rounded half up, stated as two bounds. |
| Scoring.RoundPercentMonotone | src/App.tsx:473 | A larger total never rounds to a smaller percentage. |
| Scoring.RoundPercentRange | src/App.tsx:473 | A total between 0 and the maximum gives a percentage between 0 and 100. A total of 0 gives 0, and the maximum gives 100. |
| Scoring.Score | src/App.tsx:456-474 | The score is at most 100, and it is 0 when the maximum possible total is not positive. |
| Scoring.EmptyAnswersScoreZero | src/App.tsx:456-474 | An empty answer store scores 0 for any catalog. |
| Scoring.ScoreMonotone | src/App.tsx:456-474 | Raising one stored value while the others stay fixed never lowers the score. |
| ScoringProperties.PointsWithinMax | src/App.tsx:459-471 | An admissible answer scores between 0 and its question's maximum. |
| ScoringProperties.CatalogTotalBounds | src/App.tsx:457-471 | With admissible answers, the catalog total lies between 0 and the maximum possible total. |
| ScoringProperties.ScoreInRange | src/App.tsx:456-474 | Valid stored answers score between 0 and 100. When the maximum is positive, the cap at 100 never applies, and the score is the rounded percentage of the catalog total. |
| ScoringProperties.FullMarksScoreHundred | src/App.tsx:456-474 | Answering every question with its maximum scores exactly 100. For the hours question, the maximum means 20 hours or more. |
| ScoringProperties.FemaleMaxPossible | src/App.tsx:468-471 | The female catalog's maximum possible total is 39. |
| ScoringProperties.ContraceptionAddsNothing | src/App.tsx:149-157 | Question f12 has maximum 0, so it adds nothing to the female maximum. |
| ScoringProperties.MaleMaxPossible | src/App.tsx:468-471 | The male catalog's maximum possible total is 38. |
| ScoringProperties.SelectedMaxPossible | src/App.tsx:440 | The bound catalog's maximum is 39 for `female` and 38 otherwise. |
| ScoringProperties.NoHalfwayScores | src/App.tsx:473 | With a maximum of 38 or 39, no total gives an exact half percentage, so rounding half up never has to break a tie. |
| ScoringProperties.HoursOnlyScore | src/App.tsx:456-474 | 20 or more hours with every other answer worth 0 scores the rounded percentage of 3 points. |
| ScoringProperties.MaleHoursOnlyScenario | src/App.tsx:456-474 | On the male catalog, 20 hours with every choice at its zero-point option scores 8. |
| ScoringProperties.FemaleFullMarksScenario | src/App.tsx:456-474 | On the female catalog, every question answered at its maximum scores 100. |
| Risk.LevelOf | src/App.tsx:477-480 | The 30/60/85 threshold chain. It has no contract of its own and is pinned down by `Risk.ClassifyIsBand` and `Risk.ClassifyMonotone`. |
| Risk.Classify | src/App.tsx:476-481 | The whole `riskInfo` record: level, colour classes, label and advice of the band `LevelOf` picks. It has no contract of its own; its level is pinned down by `Risk.ClassifyIsBand`. |
| Risk.ClassifyIsBand | src/App.tsx:476-481 | The classifier gives a band exactly when the score lies in that band's range. The ranges are up to 30, 31 to 60, 61 to 85, and above 85. |
| Risk.BandsPartition | src/App.tsx:476-481 | Every score lies in exactly one band. |
| Risk.ClassifyMonotone | src/App.tsx:476-481 | A higher score is never put in a less severe band. |
| Risk.LabelsDistinct | src/App.tsx:477-480 | Different bands show different labels. |
| Flow.Advance | src/App.tsx:448-452 | Where an answer leads. It has no contract of its own and is pinned down by `Flow.AdvanceInRange`. |
| Flow.JumpEnabled | src/App.tsx:353 | The enable rule of a progress-bar segment. It has no contract of its own and is pinned down by `Flow.JumpOnlyBackward`. |
| Flow.SessionInvariant | src/App.tsx:434-488 | The session invariant kept by every handler. It has no contract of its own; `Flow.AnswerKeepsInvariant` and every `Flow.App` method state that it is kept. |
| Flow.AdvanceInRange | src/App.tsx:447-453 | After an answer the index stays in range. It moves on by exactly one, and only the last question leads to the results, with the index left in place. |
| Flow.JumpOnlyBackward | src/App.tsx:353 | A progress-bar segment is enabled exactly for the current question and earlier ones. |
| Flow.StoreAnswer | src/App.tsx:444-445 | Storing an admissible answer for a question keeps the store valid. It keeps every answered question answered and answers that question. |
| Flow.AnswerKeepsInvariant | src/App.tsx:442-454 | Answering the current question keeps the session invariant on whichever screen it leads to. |
| Flow.CompleteQuizScore | src/App.tsx:456-474 | When every question of a shipped catalog is answered, the stored ids are exactly the catalog's ids. The score lies between 0 and 100 and is the rounded percentage of the catalog total. |
| Flow.NoAnswersLowRisk | src/App.tsx:456-481 | An empty answer store is classified Low Risk. |
| Flow.FullMarksVeryHighRisk | src/App.tsx:456-481 | Full marks are classified Very High Risk. |
| Flow.App.Valid | src/App.tsx:434-440 | The session invariant for the catalog bound to the state's sex. It has no contract of its own; every `Flow.App` method requires and ensures it. |
| Flow.App.constructor | src/App.tsx:434-437 | A new session starts on the welcome screen with no sex bound, index 0 and no answers, and it satisfies the invariant. |
| Flow.App.StartAssessment | src/App.tsx:542 | Welcome leads to sex selection, and nothing else changes. |
| Flow.App.BackToStart | src/App.tsx:625 | Sex selection leads back to welcome, and nothing else changes. |
| Flow.App.ChooseSex | src/App.tsx:599-611 | Choosing a sex binds it and opens the quiz. The index and store are left as they are, and they are always 0 and empty here. |
| Flow.App.HandleAnswer | src/App.tsx:442-454 | Stores the value under the current question's id and changes no other entry. It then moves to the next question, or to the results after the last one. The invariant is kept. |
| Flow.App.SelectOption | src/App.tsx:710 | Clicking an option answers the current question with that option's value. |
| Flow.App.EditHours | src/App.tsx:677-683 | Typing a value that parses stores it for the current question without moving on. Anything else changes nothing. |
| Flow.App.EnterHours | src/App.tsx:684-689 | Enter with a value that parses answers the question. Otherwise nothing changes. |
| Flow.App.ContinueHours | src/App.tsx:694-698 | Continue moves on only when the question already has a stored answer, and it leaves the store as it is. |
| Flow.App.Previous | src/App.tsx:728-730 | On the first question nothing changes. Otherwise the index goes back by one. |
| Flow.App.JumpTo | src/App.tsx:642-647 | A click on segment `idx` moves there when `idx` is at or before the current question. Otherwise nothing changes. |
| Flow.App.Reset | src/App.tsx:483-488 | From the results screen, the only place the handler is wired to, back to welcome with no sex bound, index 0 and no answers. |
| Flow.App.ResultsAreComplete | src/App.tsx:442-454 | On the results screen the stored ids are exactly the bound catalog's ids, and the score lies between 0 and 100. |

## Left out

- Rendering, styling, animation, icons, the "How it works" modal and its flag, the header menu and the footer: these are presentation only.
- The question prompt texts: each question keeps its id, category, kind and options with their labels and values. No behaviour depends on the prompt text.
- The 300 ms delay before moving on after an answer, and the race it allows when two answers are given within it: the model moves on immediately.
- The string parsing of the hours field (`parseInt`): the handlers take the result as an `Option<int>`, where `None` means "not a number".
- The "Export Results" button: it has no handler.
- The highlight of the selected option and the value shown in the hours field: these are display only.
- The "Recommended Actions" list: it is fixed text on the results screen.
- A choice question whose `options` field is missing altogether, which the maximum treats as a single option worth 0: the question type always has an option list, possibly empty. Neither catalog has such a question.
- Floating-point arithmetic in the score: the score is computed over the exact rationals and rounded half up. `ScoringProperties.NoHalfwayScores` shows that the shipped maxima never reach a tie.
- Flow.App.HandleAnswer, SelectOption, EnterHours and ContinueHours: the handlers are only reachable during the quiz, so they require the quiz screen, and answers must be admissible for the current question. This is what their call sites in the component guarantee.
- Scoring.Score: it is a ghost function, because its fold picks the answer entries in an unspecified order.
