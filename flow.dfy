/**
 * The screen flow of the questionnaire: welcome, biological-sex selection,
 * the quiz and the results, with the handlers that move between them and
 * edit the answer store.
 */
module Flow {
  import opened Wrappers
  import opened Catalog
  import opened Scoring
  import opened ScoringProperties
  import opened Risk

  /** The four screens. */
  datatype Step = Welcome | SexSelect | Quiz | Results

  /** Where answering question `i` of `n` leads: the next question, or the results after the last one. */
  function Advance(i: int, n: int): (Step, int)
  {
    if i < n - 1 then (Quiz, i + 1) else (Results, i)
  }

  /** Answering keeps the index in range, moves on by exactly one, and ends the quiz only at the last question. */
  lemma AdvanceInRange(i: int, n: int)
    requires 0 <= i < n
    ensures 0 <= Advance(i, n).1 < n
    ensures Advance(i, n).0 == Results <==> i == n - 1
    ensures Advance(i, n).0 == Quiz ==> Advance(i, n).1 == i + 1
    ensures Advance(i, n).0 == Results ==> Advance(i, n).1 == i
  {
  }

  /** The progress bar's rule: segment `idx` is clickable when it is below `current`, the 1-based question number. */
  function JumpEnabled(idx: int, current: int): bool
  {
    !(idx >= current)
  }

  /** With `current` one more than the index, a jump is possible exactly to the current or an earlier question. */
  lemma JumpOnlyBackward(idx: int, index: int)
    ensures JumpEnabled(idx, index + 1) <==> idx <= index
  {
  }

  /** The first `n` questions all have a stored answer. */
  predicate AnsweredUpTo(qs: seq<Question>, answers: map<string, int>, n: int)
  {
    forall i :: 0 <= i < n && i < |qs| ==> qs[i].id in answers
  }

  /** Storing an admissible answer for question `i` keeps the store valid and answers question `i`. */
  lemma StoreAnswer(qs: seq<Question>, answers: map<string, int>, i: int, v: int)
    requires UniqueIds(qs) && StoredAnswersValid(qs, answers) && 0 <= i < |qs| && Admissible(qs[i], v)
    ensures StoredAnswersValid(qs, answers[qs[i].id := v])
    ensures forall n :: AnsweredUpTo(qs, answers, n) ==> AnsweredUpTo(qs, answers[qs[i].id := v], n)
    ensures AnsweredUpTo(qs, answers, i) ==> AnsweredUpTo(qs, answers[qs[i].id := v], i + 1)
  {
    var updated := answers[qs[i].id := v];
    FindUnique(qs, i);
    forall k | k in updated ensures Find(qs, k).Some? {
    }
    forall j | 0 <= j < |qs| && qs[j].id in updated ensures Admissible(qs[j], updated[qs[j].id]) {
      if j != i {
        assert qs[j].id != qs[i].id;
      }
    }
  }

  /** A stored answer of a complete quiz scores between 0 and 100, as the rounded share of the catalog maximum. */
  lemma CompleteQuizScore(qs: seq<Question>, answers: map<string, int>)
    requires ShippedShape(qs) && StoredAnswersValid(qs, answers) && AnsweredUpTo(qs, answers, |qs|)
    requires MaxPossible(qs) == Some(38) || MaxPossible(qs) == Some(39)
    ensures answers.Keys == set i | 0 <= i < |qs| :: qs[i].id
    ensures 0 <= Score(qs, answers) <= 100
    ensures Score(qs, answers) == RoundPercent(CatalogTotal(qs, answers), MaxPossible(qs).value)
  {
    forall k | k in answers ensures k in set i | 0 <= i < |qs| :: qs[i].id {
      FindSpec(qs, k);
    }
    ScoreInRange(qs, answers);
  }

  /**
   * Before the quiz nothing is bound or stored; during the quiz the index is
   * a question of the bound catalog, the store holds valid answers for that
   * catalog, and every question before the current one is answered; on the
   * results screen the index is at the last question and every question is
   * answered.
   */
  predicate SessionInvariant(qs: seq<Question>, step: Step, gender: Option<Gender>, index: int, answers: map<string, int>)
  {
    && 0 <= index < |qs|
    && (step == Welcome || step == SexSelect ==> gender == None && index == 0 && answers == map[])
    && (step == Quiz || step == Results ==> gender.Some?)
    && (step == Results ==> index == |qs| - 1)
    && StoredAnswersValid(qs, answers)
    && AnsweredUpTo(qs, answers, if step == Results then |qs| else index)
  }

  /** Answering the current question of a quiz in progress keeps the invariant, wherever the answer leads. */
  lemma AnswerKeepsInvariant(qs: seq<Question>, gender: Option<Gender>, index: int, answers: map<string, int>, v: int)
    requires UniqueIds(qs) && SessionInvariant(qs, Quiz, gender, index, answers) && Admissible(qs[index], v)
    ensures SessionInvariant(qs, Advance(index, |qs|).0, gender, Advance(index, |qs|).1, answers[qs[index].id := v])
  {
    StoreAnswer(qs, answers, index, v);
  }

  /** An empty answer store is classified Low Risk, whatever the catalog. */
  lemma NoAnswersLowRisk(qs: seq<Question>)
    ensures Classify(Score(qs, map[])).level == Green
  {
    EmptyAnswersScoreZero(qs);
  }

  /** Full marks on a catalog with a positive maximum are classified Very High Risk. */
  lemma FullMarksVeryHighRisk(qs: seq<Question>, answers: map<string, int>)
    requires UniqueIds(qs) && KeysInCatalog(qs, answers) && Positive(MaxPossible(qs))
    requires forall i :: 0 <= i < |qs| ==>
               qs[i].id in answers && Some(Points(qs[i], answers[qs[i].id])) == MaxPoints(qs[i])
    ensures Classify(Score(qs, answers)).level == Red
  {
    FullMarksScoreHundred(qs, answers);
  }

  /** The questionnaire's state: the screen, the bound sex, the current question and the answer store. */
  class App {
    var step: Step
    var gender: Option<Gender>
    var index: int
    var answers: map<string, int>

    /** The session invariant, for the bound catalog. */
    ghost predicate Valid()
      reads this
    {
      SessionInvariant(QuestionsFor(gender), step, gender, index, answers)
    }

    /** The score of the stored answers against the bound catalog. */
    ghost function CurrentScore(): int
      reads this
    {
      Score(QuestionsFor(gender), answers)
    }

    constructor()
      ensures Valid()
      ensures step == Welcome && gender == None && index == 0 && answers == map[]
    {
      step := Welcome;
      gender := None;
      index := 0;
      answers := map[];
      assert |QuestionsFor(None)| == CATALOG_LENGTH by { SelectedShape(None); }
    }

    /** "Start Assessment" on the welcome screen. */
    method StartAssessment()
      requires Valid() && step == Welcome
      modifies this
      ensures Valid()
      ensures step == SexSelect && gender == old(gender) && index == old(index) && answers == old(answers)
    {
      step := SexSelect;
    }

    /** "Back to start" on the sex-selection screen. */
    method BackToStart()
      requires Valid() && step == SexSelect
      modifies this
      ensures Valid()
      ensures step == Welcome && gender == old(gender) && index == old(index) && answers == old(answers)
    {
      step := Welcome;
    }

    /**
     * Choosing a sex binds the catalog and opens the quiz. Index and store are
     * left as they are, and they are always the first question and empty here.
     */
    method ChooseSex(g: Gender)
      requires Valid() && step == SexSelect
      modifies this
      ensures Valid()
      ensures step == Quiz && gender == Some(g) && index == old(index) && answers == old(answers)
      ensures index == 0 && answers == map[]
    {
      gender := Some(g);
      step := Quiz;
      assert |QuestionsFor(gender)| == CATALOG_LENGTH by { SelectedShape(gender); }
    }

    /**
     * Stores `v` for the current question, then moves to the next question,
     * or to the results after the last one.
     */
    method HandleAnswer(v: int)
      requires Valid() && step == Quiz && Admissible(QuestionsFor(gender)[index], v)
      modifies this
      ensures Valid()
      ensures gender == old(gender)
      ensures answers == old(answers)[QuestionsFor(gender)[old(index)].id := v]
      ensures (step, index) == Advance(old(index), |QuestionsFor(gender)|)
    {
      var qs := QuestionsFor(gender);
      assert UniqueIds(qs) by { SelectedShape(gender); }
      AnswerKeepsInvariant(qs, gender, index, answers, v);
      answers := answers[qs[index].id := v];
      if index < |qs| - 1 {
        index := index + 1;
      } else {
        step := Results;
      }
      assert SessionInvariant(qs, step, gender, index, answers);
      assert QuestionsFor(gender) == qs;
    }

    /** Clicking option `k` of the current choice question answers it with that option's value. */
    method SelectOption(k: int)
      requires Valid() && step == Quiz && QuestionsFor(gender)[index].kind.Choice?
      requires 0 <= k < |QuestionsFor(gender)[index].kind.options|
      modifies this
      ensures Valid()
      ensures gender == old(gender)
      ensures answers == old(answers)[QuestionsFor(gender)[old(index)].id := QuestionsFor(gender)[old(index)].kind.options[k].value]
      ensures (step, index) == Advance(old(index), |QuestionsFor(gender)|)
    {
      var option := QuestionsFor(gender)[index].kind.options[k];
      assert option in QuestionsFor(gender)[index].kind.options;
      HandleAnswer(option.value);
    }

    /** Typing into the hours field: a value that parses is stored for the current question, without moving on. */
    method EditHours(parsed: Option<int>)
      requires Valid() && step == Quiz && QuestionsFor(gender)[index].kind.Number?
      modifies this
      ensures Valid()
      ensures step == old(step) && gender == old(gender) && index == old(index)
      ensures answers == if parsed.Some? then old(answers)[QuestionsFor(gender)[index].id := parsed.value] else old(answers)
    {
      if parsed.Some? {
        var qs := QuestionsFor(gender);
        assert UniqueIds(qs) by { SelectedShape(gender); }
        StoreAnswer(qs, answers, index, parsed.value);
        answers := answers[qs[index].id := parsed.value];
      }
    }

    /** Enter in the hours field: a value that parses answers the question; anything else does nothing. */
    method EnterHours(parsed: Option<int>)
      requires Valid() && step == Quiz && QuestionsFor(gender)[index].kind.Number?
      modifies this
      ensures Valid()
      ensures gender == old(gender)
      ensures parsed.None? ==> step == old(step) && index == old(index) && answers == old(answers)
      ensures parsed.Some? ==> answers == old(answers)[QuestionsFor(gender)[old(index)].id := parsed.value]
      ensures parsed.Some? ==> (step, index) == Advance(old(index), |QuestionsFor(gender)|)
    {
      if parsed.Some? {
        HandleAnswer(parsed.value);
      }
    }

    /** "Continue" under the hours field moves on only when the question already has a stored answer. */
    method ContinueHours()
      requires Valid() && step == Quiz && QuestionsFor(gender)[index].kind.Number?
      modifies this
      ensures Valid()
      ensures gender == old(gender) && answers == old(answers)
      ensures QuestionsFor(gender)[old(index)].id !in answers ==> step == old(step) && index == old(index)
      ensures QuestionsFor(gender)[old(index)].id in answers ==> (step, index) == Advance(old(index), |QuestionsFor(gender)|)
    {
      var id := QuestionsFor(gender)[index].id;
      if id in answers {
        HandleAnswer(answers[id]);
        assert answers == old(answers);
      }
    }

    /** "Previous": disabled on the first question, otherwise one question back. */
    method Previous()
      requires Valid() && step == Quiz
      modifies this
      ensures Valid()
      ensures step == old(step) && gender == old(gender) && answers == old(answers)
      ensures index == if old(index) == 0 then 0 else old(index) - 1
    {
      if index != 0 {
        index := index - 1;
      }
    }

    /** A click on progress-bar segment `idx`: moves there only when the segment is enabled. */
    method JumpTo(idx: int)
      requires Valid() && step == Quiz && 0 <= idx < |QuestionsFor(gender)|
      modifies this
      ensures Valid()
      ensures step == old(step) && gender == old(gender) && answers == old(answers)
      ensures index == if idx <= old(index) then idx else old(index)
    {
      if JumpEnabled(idx, index + 1) {
        index := idx;
      }
    }

    /** "Retake Assessment" on the results screen: back to welcome with nothing bound or stored. */
    method Reset()
      requires Valid() && step == Results
      modifies this
      ensures Valid()
      ensures step == Welcome && gender == None && index == 0 && answers == map[]
    {
      step := Welcome;
      gender := None;
      index := 0;
      answers := map[];
      assert |QuestionsFor(None)| == CATALOG_LENGTH by { SelectedShape(None); }
    }

    /**
     * On the results screen every question of the bound catalog is answered,
     * nothing else is stored, and the score lies between 0 and 100.
     */
    lemma ResultsAreComplete()
      requires Valid() && step == Results
      ensures answers.Keys == set i | 0 <= i < |QuestionsFor(gender)| :: QuestionsFor(gender)[i].id
      ensures 0 <= CurrentScore() <= 100
    {
      var qs := QuestionsFor(gender);
      assert ShippedShape(qs) by { SelectedShape(gender); }
      assert MaxPossible(qs) == Some(38) || MaxPossible(qs) == Some(39) by { SelectedMaxPossible(gender); }
      CompleteQuizScore(qs, answers);
    }
  }
}
