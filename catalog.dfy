/**
 * The two static question catalogs of the RED-S questionnaire and the
 * selection of one of them by biological sex.
 */
module Catalog {
  import opened Wrappers

  /** One selectable answer of a choice question and the points it scores. */
  datatype AnswerOption = AnswerOption(text: string, value: int)

  /** A question is either a free numeric entry (hours per week) or a choice. */
  datatype Kind = Number | Choice(options: seq<AnswerOption>)

  datatype Question = Question(id: string, category: string, kind: Kind)

  datatype Gender = Male | Female

  /** The number of questions in each shipped catalog. */
  const CATALOG_LENGTH := 15

  const FEMALE_QUESTIONS: seq<Question> := [
    Question("f1", "Training Load", Number),
    Question("f2", "Injury History",
      Choice([AnswerOption("No", 0), AnswerOption("Yes", 2)])),
    Question("f3", "Injury History",
      Choice([AnswerOption("No", 0), AnswerOption("Yes", 4)])),
    Question("f4", "Gastrointestinal",
      Choice([AnswerOption("Rarely", 0), AnswerOption("Sometimes", 1), AnswerOption("Often", 2)])),
    Question("f5", "Gastrointestinal",
      Choice([AnswerOption("Rarely", 0), AnswerOption("Sometimes", 1), AnswerOption("Often", 2)])),
    Question("f6", "Gastrointestinal",
      Choice([AnswerOption("Multiple times per day", 0), AnswerOption("Once per day", 0),
              AnswerOption("Less than once per day", 2)])),
    Question("f7", "Menstrual Function",
      Choice([AnswerOption("Yes, most of the time", 0),
              AnswerOption("No, I often skip or have irregular cycles", 4)])),
    Question("f8", "Menstrual Function",
      Choice([AnswerOption("12+", 0), AnswerOption("9–11", 1), AnswerOption("6–8", 2),
              AnswerOption("3–5", 3), AnswerOption("0–2", 4)])),
    Question("f9", "Menstrual Function",
      Choice([AnswerOption("No", 0), AnswerOption("Yes", 4)])),
    Question("f10", "Menstrual Function",
      Choice([AnswerOption("7+", 0), AnswerOption("5–6", 0), AnswerOption("3–4", 0),
              AnswerOption("1–2 days", 2)])),
    Question("f11", "Menstrual Function",
      Choice([AnswerOption("≤14", 0), AnswerOption("15 or older", 2),
              AnswerOption("Don’t remember", 0)])),
    Question("f12", "Menstrual Function",
      Choice([AnswerOption("Yes", 0), AnswerOption("No", 0)])),
    Question("f13", "Energy Availability",
      Choice([AnswerOption("No", 0), AnswerOption("Yes", 3)])),
    Question("f14", "Energy Availability",
      Choice([AnswerOption("No", 0), AnswerOption("Yes", 3)])),
    Question("f15", "Energy Availability",
      Choice([AnswerOption("No", 0), AnswerOption("Yes", 2)]))
  ]

  const MALE_QUESTIONS: seq<Question> := [
    Question("m1", "Training Load", Number),
    Question("m2", "Energy Availability",
      Choice([AnswerOption("No", 0), AnswerOption("Yes", 3)])),
    Question("m3", "Energy Availability",
      Choice([AnswerOption("No", 0), AnswerOption("Yes", 2)])),
    Question("m4", "Energy Availability",
      Choice([AnswerOption("Rarely", 0), AnswerOption("Sometimes", 1), AnswerOption("Yes, often", 2)])),
    Question("m5", "Recovery",
      Choice([AnswerOption("Rarely", 0), AnswerOption("Sometimes", 1), AnswerOption("Often", 2),
              AnswerOption("Yes, almost always", 3)])),
    Question("m6", "Immune System",
      Choice([AnswerOption("No", 0), AnswerOption("Yes", 1)])),
    Question("m7", "Hormonal Health",
      Choice([AnswerOption("High", 0), AnswerOption("Moderate", 0), AnswerOption("Low", 3),
              AnswerOption("None", 4)])),
    Question("m8", "Hormonal Health",
      Choice([AnswerOption("No", 0), AnswerOption("Yes", 3)])),
    Question("m9", "Hormonal Health",
      Choice([AnswerOption("Normal frequency", 0), AnswerOption("Less often", 2),
              AnswerOption("None", 4)])),
    Question("m10", "Metabolism",
      Choice([AnswerOption("No", 0), AnswerOption("Yes", 1)])),
    Question("m11", "Bone Health",
      Choice([AnswerOption("No", 0), AnswerOption("Yes", 4)])),
    Question("m12", "Energy Availability",
      Choice([AnswerOption("No", 0), AnswerOption("Yes", 3)])),
    Question("m13", "Energy Availability",
      Choice([AnswerOption("No", 0), AnswerOption("Yes", 1)])),
    Question("m14", "Psychological",
      Choice([AnswerOption("Rarely", 0), AnswerOption("Sometimes", 1), AnswerOption("Often", 2)])),
    Question("m15", "Performance",
      Choice([AnswerOption("No", 0), AnswerOption("Yes", 2)]))
  ]

  /** Catalog selection: `female` gives the female list, anything else (male or unbound) the male list. */
  function QuestionsFor(gender: Option<Gender>): seq<Question>
  {
    if gender == Some(Female) then FEMALE_QUESTIONS else MALE_QUESTIONS
  }

  /** The female list is bound exactly for `female`; the male list for `male` and for no selection at all. */
  lemma SelectionIsByFemale(gender: Option<Gender>)
    ensures QuestionsFor(gender) == FEMALE_QUESTIONS <==> gender == Some(Female)
    ensures QuestionsFor(gender) == MALE_QUESTIONS <==> gender != Some(Female)
  {
    assert FEMALE_QUESTIONS[0] != MALE_QUESTIONS[0];
  }

  /** No two questions of a catalog share an id. */
  predicate UniqueIds(qs: seq<Question>)
  {
    forall i, j :: 0 <= i < j < |qs| ==> qs[i].id != qs[j].id
  }

  /** Every option of a choice question scores a non-negative number of points. */
  predicate NonNegativeOptions(q: Question)
  {
    q.kind.Choice? ==> forall o :: o in q.kind.options ==> o.value >= 0
  }

  /**
   * The shape both shipped catalogs have: fifteen questions with unique ids,
   * the first an hours-per-week entry, every other a choice with at least one
   * option and only non-negative point values.
   */
  predicate ShippedShape(qs: seq<Question>)
  {
    && |qs| == CATALOG_LENGTH
    && UniqueIds(qs)
    && qs[0].kind.Number?
    && (forall i :: 1 <= i < |qs| ==> qs[i].kind.Choice? && |qs[i].kind.options| > 0)
    && (forall i :: 0 <= i < |qs| ==> NonNegativeOptions(qs[i]))
  }

  // The catalogs are constants: their shape is established by evaluating the
  // recursive checks below on them, and each check is proved sound once.

  /**
   * A number that tells the shipped ids apart: their length and last
   * character. Equal ids have equal keys, so distinct keys mean distinct ids.
   */
  function IdKey(id: string): int
  {
    if id == [] then 0 else |id| * 256 + id[|id| - 1] as int
  }

  /** From index `i` on, each question's id key is below the next one's. */
  predicate KeysIncreasingFrom(qs: seq<Question>, i: nat)
    decreases |qs| - i
  {
    i + 1 >= |qs| || (IdKey(qs[i].id) < IdKey(qs[i + 1].id) && KeysIncreasingFrom(qs, i + 1))
  }

  /** The option values from index `i` on are non-negative. */
  predicate ValuesNonNegativeFrom(opts: seq<AnswerOption>, i: nat)
    decreases |opts| - i
  {
    i >= |opts| || (opts[i].value >= 0 && ValuesNonNegativeFrom(opts, i + 1))
  }

  /** From index `i` on, every question is a choice with at least one option, all non-negative. */
  predicate ChoicesFrom(qs: seq<Question>, i: nat)
    decreases |qs| - i
  {
    || i >= |qs|
    || (&& qs[i].kind.Choice? && |qs[i].kind.options| > 0
        && ValuesNonNegativeFrom(qs[i].kind.options, 0)
        && ChoicesFrom(qs, i + 1))
  }

  lemma {:induction false} KeysIncreasingSound(qs: seq<Question>, i: nat)
    requires KeysIncreasingFrom(qs, i)
    ensures forall a, b :: i <= a < b < |qs| ==> IdKey(qs[a].id) < IdKey(qs[b].id)
    decreases |qs| - i
  {
    if i + 1 < |qs| {
      KeysIncreasingSound(qs, i + 1);
    }
  }

  lemma {:induction false} ValuesNonNegativeFromSound(opts: seq<AnswerOption>, i: nat)
    requires ValuesNonNegativeFrom(opts, i)
    ensures forall j :: i <= j < |opts| ==> opts[j].value >= 0
    decreases |opts| - i
  {
    if i < |opts| {
      ValuesNonNegativeFromSound(opts, i + 1);
    }
  }

  lemma {:induction false} ChoicesFromSound(qs: seq<Question>, i: nat)
    requires ChoicesFrom(qs, i)
    ensures forall j :: i <= j < |qs| ==> qs[j].kind.Choice? && |qs[j].kind.options| > 0
    ensures forall j :: i <= j < |qs| ==> NonNegativeOptions(qs[j])
    decreases |qs| - i
  {
    if i < |qs| {
      ChoicesFromSound(qs, i + 1);
      ValuesNonNegativeFromSound(qs[i].kind.options, 0);
    }
  }

  /** A catalog passing the checks has the shipped shape. */
  lemma ChecksGiveShape(qs: seq<Question>)
    requires |qs| == CATALOG_LENGTH && qs[0].kind.Number?
    requires KeysIncreasingFrom(qs, 0) && ChoicesFrom(qs, 1)
    ensures ShippedShape(qs)
  {
    KeysIncreasingSound(qs, 0);
    ChoicesFromSound(qs, 1);
  }

  lemma FemaleIdsIncreasing()
    ensures KeysIncreasingFrom(FEMALE_QUESTIONS, 0)
  {
    assert KeysIncreasingFrom(FEMALE_QUESTIONS, 12);
    assert KeysIncreasingFrom(FEMALE_QUESTIONS, 9);
    assert KeysIncreasingFrom(FEMALE_QUESTIONS, 6);
    assert KeysIncreasingFrom(FEMALE_QUESTIONS, 3);
  }

  lemma FemaleChoices()
    ensures ChoicesFrom(FEMALE_QUESTIONS, 1)
  {
    assert ChoicesFrom(FEMALE_QUESTIONS, 12);
    assert ChoicesFrom(FEMALE_QUESTIONS, 9);
    assert ChoicesFrom(FEMALE_QUESTIONS, 6);
    assert ChoicesFrom(FEMALE_QUESTIONS, 3);
  }

  lemma FemaleShape()
    ensures ShippedShape(FEMALE_QUESTIONS)
  {
    FemaleIdsIncreasing();
    FemaleChoices();
    ChecksGiveShape(FEMALE_QUESTIONS);
  }

  lemma MaleIdsIncreasing()
    ensures KeysIncreasingFrom(MALE_QUESTIONS, 0)
  {
    assert KeysIncreasingFrom(MALE_QUESTIONS, 12);
    assert KeysIncreasingFrom(MALE_QUESTIONS, 9);
    assert KeysIncreasingFrom(MALE_QUESTIONS, 6);
    assert KeysIncreasingFrom(MALE_QUESTIONS, 3);
  }

  lemma MaleChoices()
    ensures ChoicesFrom(MALE_QUESTIONS, 1)
  {
    assert ChoicesFrom(MALE_QUESTIONS, 12);
    assert ChoicesFrom(MALE_QUESTIONS, 9);
    assert ChoicesFrom(MALE_QUESTIONS, 6);
    assert ChoicesFrom(MALE_QUESTIONS, 3);
  }

  lemma MaleShape()
    ensures ShippedShape(MALE_QUESTIONS)
  {
    MaleIdsIncreasing();
    MaleChoices();
    ChecksGiveShape(MALE_QUESTIONS);
  }

  /** Whichever catalog is bound (or none), the questions in play have the shipped shape. */
  lemma SelectedShape(gender: Option<Gender>)
    ensures ShippedShape(QuestionsFor(gender))
  {
    FemaleShape();
    MaleShape();
  }
}
