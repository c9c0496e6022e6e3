/**
 * The scoring engine: a pure function of the bound catalog and the answer
 * store. Numeric answers are bucketed, choice answers count their raw point
 * value, and the total is normalised against the catalog's maximum.
 */
module Scoring {
  import opened Wrappers
  import opened Catalog

  // ---------------------------------------------------------------------------
  // Numeric answers
  // ---------------------------------------------------------------------------

  /** The points an hours-per-week answer scores: below 10, 10-14, 15-19, 20 and more. */
  function Bucket(hours: int): (b: int)
    ensures 0 <= b <= 3
  {
    if hours < 10 then 0
    else if hours < 15 then 1
    else if hours < 20 then 2
    else 3
  }

  /** The bucket boundaries, lowest first. */
  const HOUR_THRESHOLDS: seq<int> := [10, 15, 20]

  /** How many of the thresholds `ts` an answer of `hours` reaches. */
  function Reached(ts: seq<int>, hours: int): (n: nat)
    ensures n <= |ts|
  {
    if ts == [] then 0
    else (if ts[0] <= hours then 1 else 0) + Reached(ts[1..], hours)
  }

  /** A numeric answer scores one point per threshold it reaches. */
  lemma BucketCountsThresholds(hours: int)
    ensures Bucket(hours) == Reached(HOUR_THRESHOLDS, hours)
  {
    var ts := HOUR_THRESHOLDS;
    assert ts[1..] == [15, 20] && ts[1..][1..] == [20] && ts[1..][1..][1..] == [];
    assert Reached([20], hours) == if 20 <= hours then 1 else 0;
    assert Reached([15, 20], hours) == (if 15 <= hours then 1 else 0) + Reached([20], hours);
  }

  /** More hours never score fewer points; negative entries score nothing. */
  lemma BucketMonotone(h1: int, h2: int)
    requires h1 <= h2
    ensures Bucket(h1) <= Bucket(h2)
    ensures h1 < 0 ==> Bucket(h1) == 0
  {
  }

  // ---------------------------------------------------------------------------
  // Looking up a question by id
  // ---------------------------------------------------------------------------

  /** The first question carrying `id`, as `Array.prototype.find` returns it. */
  function Find(qs: seq<Question>, id: string): Option<Question>
  {
    if qs == [] then None
    else if qs[0].id == id then Some(qs[0])
    else Find(qs[1..], id)
  }

  /** The lookup fails exactly when no question carries the id, and otherwise finds the first one that does. */
  lemma {:induction false} FindSpec(qs: seq<Question>, id: string)
    ensures Find(qs, id).None? <==> forall i :: 0 <= i < |qs| ==> qs[i].id != id
    ensures Find(qs, id).Some? ==>
              exists i :: && 0 <= i < |qs| && qs[i] == Find(qs, id).value && qs[i].id == id
                          && forall j :: 0 <= j < i ==> qs[j].id != id
  {
    if qs != [] && qs[0].id != id {
      FindSpec(qs[1..], id);
      if Find(qs, id).Some? {
        var i :| && 0 <= i < |qs| - 1 && qs[1..][i] == Find(qs, id).value && qs[1..][i].id == id
                 && forall j :: 0 <= j < i ==> qs[1..][j].id != id;
        assert qs[i + 1] == Find(qs, id).value;
        forall j | 0 <= j < i + 1 ensures qs[j].id != id {
          if j > 0 {
            assert qs[j] == qs[1..][j - 1];
          }
        }
      }
    } else if qs != [] {
      assert qs[0] == Find(qs, id).value;
    }
  }

  /** In a catalog with unique ids, looking up a question's id finds that question. */
  lemma {:induction false} FindUnique(qs: seq<Question>, i: int)
    requires UniqueIds(qs) && 0 <= i < |qs|
    ensures Find(qs, qs[i].id) == Some(qs[i])
  {
    if i > 0 {
      assert qs[0].id != qs[i].id;
      FindUnique(qs[1..], i - 1);
    }
  }

  // ---------------------------------------------------------------------------
  // Totals
  // ---------------------------------------------------------------------------

  /** The points a stored value scores for question `q`. */
  function Points(q: Question, v: int): int
  {
    if q.kind.Number? then Bucket(v) else v
  }

  /**
   * What one answer entry adds to the total: a numeric question's answer is
   * bucketed, anything else (a choice question, or an id the catalog does not
   * hold) counts its raw value.
   */
  function Contribution(qs: seq<Question>, id: string, v: int): int
  {
    var question := Find(qs, id);
    if question.Some? && question.value.kind.Number? then Bucket(v) else v
  }

  lemma MapRemoveSize(m: map<string, int>, k: string)
    requires k in m
    ensures |m - {k}| == |m| - 1
  {
    assert (m - {k}).Keys == m.Keys - {k};
    assert |m.Keys - {k}| == |m.Keys| - 1;
  }

  /**
   * The running total over the answer entries. The entries of a record come
   * in insertion order; any order gives the same sum (EntryTotalRemove), so
   * the fold takes them in an arbitrary one.
   */
  ghost function EntryTotal(qs: seq<Question>, answers: map<string, int>): int
    decreases |answers|
  {
    if answers == map[] then 0
    else
      var k :| k in answers;
      MapRemoveSize(answers, k);
      Contribution(qs, k, answers[k]) + EntryTotal(qs, answers - {k})
  }

  /** The entry fold does not depend on the order of the entries: any entry can be taken first. */
  lemma {:induction false} EntryTotalRemove(qs: seq<Question>, answers: map<string, int>, k: string)
    requires k in answers
    ensures EntryTotal(qs, answers)
         == Contribution(qs, k, answers[k]) + EntryTotal(qs, answers - {k})
    decreases |answers|
  {
    var j :| j in answers && EntryTotal(qs, answers)
                == Contribution(qs, j, answers[j]) + EntryTotal(qs, answers - {j});
    if j != k {
      var both := answers - {j} - {k};
      MapRemoveSize(answers, j);
      MapRemoveSize(answers, k);
      EntryTotalRemove(qs, answers - {j}, k);
      EntryTotalRemove(qs, answers - {k}, j);
      assert answers - {j} - {k} == answers - {k} - {j};
    }
  }

  /** Overwriting (or adding) entry `k` replaces exactly its contribution. */
  lemma EntryTotalUpdate(qs: seq<Question>, answers: map<string, int>, k: string, v: int)
    ensures EntryTotal(qs, answers[k := v])
         == Contribution(qs, k, v) + EntryTotal(qs, answers - {k})
  {
    EntryTotalRemove(qs, answers[k := v], k);
    assert answers[k := v] - {k} == answers - {k};
  }

  /** The total as a fold over the catalog: each answered question scores its points. */
  function CatalogTotal(qs: seq<Question>, answers: map<string, int>): int
  {
    if qs == [] then 0
    else
      (if qs[0].id in answers then Points(qs[0], answers[qs[0].id]) else 0)
      + CatalogTotal(qs[1..], answers)
  }

  /** The catalog fold ignores entries whose id the catalog does not hold. */
  lemma {:induction false} CatalogTotalIgnores(qs: seq<Question>, answers: map<string, int>, k: string)
    requires forall i :: 0 <= i < |qs| ==> qs[i].id != k
    ensures CatalogTotal(qs, answers - {k}) == CatalogTotal(qs, answers)
  {
    if qs != [] {
      CatalogTotalIgnores(qs[1..], answers, k);
    }
  }

  /** Every stored id belongs to the catalog. */
  predicate KeysInCatalog(qs: seq<Question>, answers: map<string, int>)
  {
    forall k :: k in answers ==> Find(qs, k).Some?
  }

  lemma {:induction false} SuffixFold(qs: seq<Question>, i: int, answers: map<string, int>)
    requires UniqueIds(qs) && 0 <= i <= |qs|
    requires forall k :: k in answers ==> exists j :: i <= j < |qs| && qs[j].id == k
    ensures EntryTotal(qs, answers) == CatalogTotal(qs[i..], answers)
    decreases |qs| - i
  {
    if i == |qs| {
      assert answers == map[];
    } else {
      var q := qs[i];
      FindUnique(qs, i);
      assert qs[i..][1..] == qs[i + 1..];
      forall j | i + 1 <= j < |qs| ensures qs[j].id != q.id {
        assert qs[i].id != qs[j].id;
      }
      if q.id in answers {
        var rest := answers - {q.id};
        EntryTotalRemove(qs, answers, q.id);
        SuffixFold(qs, i + 1, rest);
        CatalogTotalIgnores(qs[i + 1..], answers, q.id);
      } else {
        SuffixFold(qs, i + 1, answers);
      }
    }
  }

  /**
   * When every stored id belongs to the catalog, the `score` computation's fold over the
   * answer entries equals the fold over the catalog.
   */
  lemma EntryTotalIsCatalogTotal(qs: seq<Question>, answers: map<string, int>)
    requires UniqueIds(qs) && KeysInCatalog(qs, answers)
    ensures EntryTotal(qs, answers) == CatalogTotal(qs, answers)
  {
    forall k | k in answers ensures exists j :: 0 <= j < |qs| && qs[j].id == k {
      FindSpec(qs, k);
    }
    SuffixFold(qs, 0, answers);
    assert qs[0..] == qs;
  }

  // ---------------------------------------------------------------------------
  // Maximum possible total
  // ---------------------------------------------------------------------------

  /** `Math.max` over the option values; `None` stands for -Infinity, the maximum of no values. */
  function MaxValue(opts: seq<AnswerOption>): Option<int>
  {
    MaxValueFrom(opts, 0)
  }

  /** The largest of the option values from index `i` on. */
  function MaxValueFrom(opts: seq<AnswerOption>, i: nat): Option<int>
    decreases |opts| - i
  {
    if i >= |opts| then None
    else
      match MaxValueFrom(opts, i + 1)
      case None => Some(opts[i].value)
      case Some(m) => Some(if opts[i].value >= m then opts[i].value else m)
  }

  lemma {:induction false} MaxValueFromSpec(opts: seq<AnswerOption>, i: nat)
    ensures MaxValueFrom(opts, i).None? <==> i >= |opts|
    ensures MaxValueFrom(opts, i).Some? ==>
              forall j :: i <= j < |opts| ==> opts[j].value <= MaxValueFrom(opts, i).value
    ensures MaxValueFrom(opts, i).Some? ==>
              exists j :: i <= j < |opts| && opts[j].value == MaxValueFrom(opts, i).value
    decreases |opts| - i
  {
    if i < |opts| {
      MaxValueFromSpec(opts, i + 1);
      var rest := MaxValueFrom(opts, i + 1);
      if rest.None? || opts[i].value >= rest.value {
        assert opts[i].value == MaxValueFrom(opts, i).value;
      }
    }
  }

  /**
   * The maximum of the option values is `None` (-Infinity) exactly when there
   * are no options; otherwise it bounds every option value and is one of them.
   */
  lemma MaxValueSpec(opts: seq<AnswerOption>)
    ensures MaxValue(opts).None? <==> opts == []
    ensures MaxValue(opts).Some? ==> forall o :: o in opts ==> o.value <= MaxValue(opts).value
    ensures MaxValue(opts).Some? ==> exists o :: o in opts && o.value == MaxValue(opts).value
  {
    MaxValueFromSpec(opts, 0);
  }

  /** The most a question can score: 3 for a numeric question, its best option otherwise. */
  function MaxPoints(q: Question): Option<int>
  {
    match q.kind
    case Number => Some(3)
    case Choice(opts) => MaxValue(opts)
  }

  /** The sum of every question's maximum; -Infinity (`None`) as soon as one choice has no options. */
  function MaxPossible(qs: seq<Question>): Option<int>
  {
    if qs == [] then Some(0)
    else
      match (MaxPoints(qs[0]), MaxPossible(qs[1..]))
      case (Some(a), Some(b)) => Some(a + b)
      case _ => None
  }

  /** The maximum is finite exactly when every choice question offers at least one option. */
  lemma {:induction false} MaxPossibleFinite(qs: seq<Question>)
    ensures MaxPossible(qs).Some? <==>
              forall i :: 0 <= i < |qs| ==> qs[i].kind.Number? || |qs[i].kind.options| > 0
  {
    if qs != [] {
      MaxPossibleFinite(qs[1..]);
      MaxValueFromSpec(if qs[0].kind.Choice? then qs[0].kind.options else [], 0);
      assert forall i :: 0 <= i < |qs| - 1 ==> qs[1..][i] == qs[i + 1];
    }
  }

  // ---------------------------------------------------------------------------
  // Normalisation
  // ---------------------------------------------------------------------------

  /** `Math.round(total / max * 100)` for a positive maximum, computed exactly. */
  function RoundPercent(total: int, max: int): (r: int)
    requires max > 0
    ensures 2 * max * r <= 200 * total + max < 2 * max * (r + 1)
  {
    (200 * total + max) / (2 * max)
  }

  lemma MulMonotone(a: int, b: int, c: int)
    requires a > 0 && b <= c
    ensures a * b <= a * c
  {
    assert a * c - a * b == a * (c - b);
  }

  /** A larger total never rounds to a smaller percentage. */
  lemma RoundPercentMonotone(t1: int, t2: int, max: int)
    requires max > 0 && t1 <= t2
    ensures RoundPercent(t1, max) <= RoundPercent(t2, max)
  {
    var r1, r2 := RoundPercent(t1, max), RoundPercent(t2, max);
    if r1 > r2 {
      MulMonotone(2 * max, r2 + 1, r1);
      assert false;
    }
  }

  /** The percentage of a total between 0 and the maximum lies between 0 and 100; the maximum itself is 100. */
  lemma RoundPercentRange(total: int, max: int)
    requires max > 0 && 0 <= total <= max
    ensures 0 <= RoundPercent(total, max) <= 100
    ensures total == max ==> RoundPercent(total, max) == 100
    ensures total == 0 ==> RoundPercent(total, max) == 0
  {
    var r := RoundPercent(total, max);
    RoundPercentMonotone(0, total, max);
    RoundPercentMonotone(total, max, max);
    RoundPercentAt(max, 0);
    RoundPercentAt(max, max);
  }

  /** The two end points: no answers give 0 and full marks give 100. */
  lemma RoundPercentAt(max: int, total: int)
    requires max > 0 && (total == 0 || total == max)
    ensures RoundPercent(total, max) == if total == 0 then 0 else 100
  {
    var r := RoundPercent(total, max);
    var expected := if total == 0 then 0 else 100;
    if r < expected {
      MulMonotone(2 * max, r + 1, expected);
      assert false;
    } else if r > expected {
      MulMonotone(2 * max, expected + 1, r);
      assert false;
    }
  }

  function Min(a: int, b: int): int
  {
    if a <= b then a else b
  }

  /** The `maxPossible > 0` test of the `score` computation. */
  predicate Positive(mp: Option<int>)
  {
    mp.Some? && mp.value > 0
  }

  /**
   * The risk score: the entry total as a rounded percentage of the catalog's
   * maximum, capped at 100, and 0 when the maximum is not positive.
   */
  ghost function Score(qs: seq<Question>, answers: map<string, int>): (s: int)
    ensures s <= 100
    ensures !Positive(MaxPossible(qs)) ==> s == 0
  {
    var mp := MaxPossible(qs);
    if Positive(mp) then Min(RoundPercent(EntryTotal(qs, answers), mp.value), 100) else 0
  }

  // ---------------------------------------------------------------------------
  // Properties of the score
  // ---------------------------------------------------------------------------

  /** An empty answer store scores 0. */
  lemma EmptyAnswersScoreZero(qs: seq<Question>)
    ensures Score(qs, map[]) == 0
  {
    var mp := MaxPossible(qs);
    if Positive(mp) {
      RoundPercentRange(0, mp.value);
    }
  }

  lemma ContributionMonotone(qs: seq<Question>, k: string, v1: int, v2: int)
    requires v1 <= v2
    ensures Contribution(qs, k, v1) <= Contribution(qs, k, v2)
  {
    BucketMonotone(v1, v2);
  }

  /** Raising any single stored value, holding the others fixed, never lowers the score. */
  lemma ScoreMonotone(qs: seq<Question>, answers: map<string, int>, k: string, v1: int, v2: int)
    requires v1 <= v2
    ensures Score(qs, answers[k := v1]) <= Score(qs, answers[k := v2])
  {
    EntryTotalUpdate(qs, answers, k, v1);
    EntryTotalUpdate(qs, answers, k, v2);
    ContributionMonotone(qs, k, v1, v2);
    var mp := MaxPossible(qs);
    if Positive(mp) {
      RoundPercentMonotone(EntryTotal(qs, answers[k := v1]), EntryTotal(qs, answers[k := v2]), mp.value);
    }
  }
}

module ScoringProperties {
  import opened Wrappers
  import opened Catalog
  import opened Scoring

  /** A value the answer controls of `q` can produce: any integer for a numeric question, an option's value for a choice. */
  predicate Admissible(q: Question, v: int)
  {
    match q.kind
    case Number => true
    case Choice(opts) => exists o :: o in opts && o.value == v
  }

  /** The answer store holds only catalog ids, and each choice answer is one of that question's option values. */
  predicate StoredAnswersValid(qs: seq<Question>, answers: map<string, int>)
  {
    && KeysInCatalog(qs, answers)
    && forall i :: 0 <= i < |qs| && qs[i].id in answers ==> Admissible(qs[i], answers[qs[i].id])
  }

  predicate AllOptionsNonNegative(qs: seq<Question>)
  {
    forall i :: 0 <= i < |qs| ==> NonNegativeOptions(qs[i])
  }

  /** An admissible answer scores between 0 and the question's maximum. */
  lemma PointsWithinMax(q: Question, v: int)
    requires NonNegativeOptions(q) && Admissible(q, v) && MaxPoints(q).Some?
    ensures 0 <= Points(q, v) <= MaxPoints(q).value
  {
    if q.kind.Choice? {
      MaxValueSpec(q.kind.options);
    }
  }

  lemma {:induction false} CatalogTotalBounds(qs: seq<Question>, answers: map<string, int>)
    requires AllOptionsNonNegative(qs) && MaxPossible(qs).Some?
    requires forall i :: 0 <= i < |qs| && qs[i].id in answers ==> Admissible(qs[i], answers[qs[i].id])
    ensures 0 <= CatalogTotal(qs, answers) <= MaxPossible(qs).value
  {
    if qs != [] {
      if qs[0].id in answers {
        PointsWithinMax(qs[0], answers[qs[0].id]);
      }
      assert forall i :: 0 <= i < |qs| - 1 ==> qs[1..][i] == qs[i + 1];
      CatalogTotalBounds(qs[1..], answers);
    }
  }

  /**
   * In a catalog with unique ids and non-negative option values, valid stored
   * answers always score between 0 and 100, and the cap at 100 never binds:
   * the score is the catalog total's rounded percentage.
   */
  lemma ScoreInRange(qs: seq<Question>, answers: map<string, int>)
    requires UniqueIds(qs) && AllOptionsNonNegative(qs) && StoredAnswersValid(qs, answers)
    ensures 0 <= Score(qs, answers) <= 100
    ensures Positive(MaxPossible(qs)) ==>
              Score(qs, answers) == RoundPercent(CatalogTotal(qs, answers), MaxPossible(qs).value)
  {
    var mp := MaxPossible(qs);
    if Positive(mp) {
      EntryTotalIsCatalogTotal(qs, answers);
      CatalogTotalBounds(qs, answers);
      RoundPercentRange(CatalogTotal(qs, answers), mp.value);
    }
  }

  lemma {:induction false} CatalogTotalFull(qs: seq<Question>, answers: map<string, int>)
    requires MaxPossible(qs).Some?
    requires forall i :: 0 <= i < |qs| ==>
               qs[i].id in answers && Some(Points(qs[i], answers[qs[i].id])) == MaxPoints(qs[i])
    ensures CatalogTotal(qs, answers) == MaxPossible(qs).value
  {
    if qs != [] {
      assert forall i :: 0 <= i < |qs| - 1 ==> qs[1..][i] == qs[i + 1];
      CatalogTotalFull(qs[1..], answers);
    }
  }

  /** Answering every question with its maximum (20 or more hours for the numeric one) scores exactly 100. */
  lemma FullMarksScoreHundred(qs: seq<Question>, answers: map<string, int>)
    requires UniqueIds(qs) && KeysInCatalog(qs, answers) && Positive(MaxPossible(qs))
    requires forall i :: 0 <= i < |qs| ==>
               qs[i].id in answers && Some(Points(qs[i], answers[qs[i].id])) == MaxPoints(qs[i])
    ensures Score(qs, answers) == 100
  {
    EntryTotalIsCatalogTotal(qs, answers);
    CatalogTotalFull(qs, answers);
    RoundPercentAt(MaxPossible(qs).value, MaxPossible(qs).value);
  }

  /** The sum of `xs[i..]`. */
  function SumFrom(xs: seq<int>, i: nat): int
    decreases |xs| - i
  {
    if i >= |xs| then 0 else xs[i] + SumFrom(xs, i + 1)
  }

  /** From index `i` on, question `j` has maximum `maxima[j]`. */
  predicate MaximaFrom(qs: seq<Question>, maxima: seq<int>, i: nat)
    decreases |qs| - i
  {
    || i >= |qs|
    || (i < |maxima| && MaxPoints(qs[i]) == Some(maxima[i]) && MaximaFrom(qs, maxima, i + 1))
  }

  /** The maximum possible total is the sum of the per-question maxima. */
  lemma {:induction false} MaxPossibleIsSum(qs: seq<Question>, maxima: seq<int>, i: nat)
    requires i <= |qs| == |maxima| && MaximaFrom(qs, maxima, i)
    ensures MaxPossible(qs[i..]) == Some(SumFrom(maxima, i))
    decreases |qs| - i
  {
    if i < |qs| {
      MaxPossibleIsSum(qs, maxima, i + 1);
      assert qs[i..][1..] == qs[i + 1..];
    }
  }

  /** The maximum possible total of a whole catalog is the sum of its per-question maxima. */
  lemma MaxPossibleSum(qs: seq<Question>, maxima: seq<int>)
    requires |qs| == |maxima| && MaximaFrom(qs, maxima, 0)
    ensures MaxPossible(qs) == Some(SumFrom(maxima, 0))
  {
    MaxPossibleIsSum(qs, maxima, 0);
    assert qs[0..] == qs;
  }

  const FEMALE_MAXIMA: seq<int> := [3, 2, 4, 2, 2, 2, 4, 4, 4, 2, 2, 0, 3, 3, 2]
  const MALE_MAXIMA: seq<int> := [3, 3, 2, 2, 3, 1, 4, 3, 4, 1, 4, 3, 1, 2, 2]

  lemma FemaleMaxima()
    ensures MaximaFrom(FEMALE_QUESTIONS, FEMALE_MAXIMA, 0)
  {
    assert MaximaFrom(FEMALE_QUESTIONS, FEMALE_MAXIMA, 12);
    assert MaximaFrom(FEMALE_QUESTIONS, FEMALE_MAXIMA, 9);
    assert MaximaFrom(FEMALE_QUESTIONS, FEMALE_MAXIMA, 6);
    assert MaximaFrom(FEMALE_QUESTIONS, FEMALE_MAXIMA, 3);
  }

  lemma MaleMaxima()
    ensures MaximaFrom(MALE_QUESTIONS, MALE_MAXIMA, 0)
  {
    assert MaximaFrom(MALE_QUESTIONS, MALE_MAXIMA, 12);
    assert MaximaFrom(MALE_QUESTIONS, MALE_MAXIMA, 9);
    assert MaximaFrom(MALE_QUESTIONS, MALE_MAXIMA, 6);
    assert MaximaFrom(MALE_QUESTIONS, MALE_MAXIMA, 3);
  }

  lemma FemaleMaximaSum()
    ensures SumFrom(FEMALE_MAXIMA, 0) == 39
  {
  }

  lemma MaleMaximaSum()
    ensures SumFrom(MALE_MAXIMA, 0) == 38
  {
  }

  /** The female catalog's maximum is 39. */
  lemma FemaleMaxPossible()
    ensures MaxPossible(FEMALE_QUESTIONS) == Some(39)
  {
    FemaleMaxima();
    MaxPossibleSum(FEMALE_QUESTIONS, FEMALE_MAXIMA);
    FemaleMaximaSum();
  }

  /** The contraception question f12 contributes nothing to the female maximum: all its options are worth 0. */
  lemma ContraceptionAddsNothing()
    ensures FEMALE_QUESTIONS[11].id == "f12" && MaxPoints(FEMALE_QUESTIONS[11]) == Some(0)
  {
  }

  /** The male catalog's maximum is 38. */
  lemma MaleMaxPossible()
    ensures MaxPossible(MALE_QUESTIONS) == Some(38)
  {
    MaleMaxima();
    MaxPossibleSum(MALE_QUESTIONS, MALE_MAXIMA);
    MaleMaximaSum();
  }

  /** The bound catalog's maximum: 39 for the female list, 38 for the male one. */
  lemma SelectedMaxPossible(gender: Option<Gender>)
    ensures MaxPossible(QuestionsFor(gender)) == if gender == Some(Female) then Some(39) else Some(38)
  {
    if gender == Some(Female) {
      FemaleMaxPossible();
    } else {
      MaleMaxPossible();
    }
  }

  /**
   * For the shipped maxima 38 and 39 the exact percentage is never halfway
   * between two integers, so rounding half up agrees with any rounding of a
   * nearby floating-point value.
   */
  lemma NoHalfwayScores(total: int, max: int)
    requires max == 38 || max == 39
    ensures (200 * total + max) % (2 * max) != 0
  {
  }

  lemma {:induction false} CatalogTotalZero(qs: seq<Question>, answers: map<string, int>)
    requires forall i :: 0 <= i < |qs| && qs[i].id in answers ==> Points(qs[i], answers[qs[i].id]) == 0
    ensures CatalogTotal(qs, answers) == 0
  {
    if qs != [] {
      assert forall i :: 0 <= i < |qs| - 1 ==> qs[1..][i] == qs[i + 1];
      CatalogTotalZero(qs[1..], answers);
    }
  }

  /** With non-negative option values the maximum possible total is non-negative. */
  lemma {:induction false} MaxPossibleNonNegative(qs: seq<Question>)
    requires AllOptionsNonNegative(qs) && MaxPossible(qs).Some?
    ensures MaxPossible(qs).value >= 0
  {
    if qs != [] {
      assert forall i :: 0 <= i < |qs| - 1 ==> qs[1..][i] == qs[i + 1];
      MaxPossibleNonNegative(qs[1..]);
      if qs[0].kind.Choice? {
        MaxValueSpec(qs[0].kind.options);
      }
    }
  }

  /**
   * A catalog whose first question is the numeric one: 20 or more hours and
   * every other stored answer 0 score the rounded percentage of 3 points.
   */
  lemma HoursOnlyScore(qs: seq<Question>, answers: map<string, int>, max: int)
    requires UniqueIds(qs) && AllOptionsNonNegative(qs) && KeysInCatalog(qs, answers)
    requires |qs| > 0 && qs[0].kind.Number? && MaxPossible(qs) == Some(max) && max > 0 && qs[0].id in answers && answers[qs[0].id] >= 20
    requires forall k :: k in answers && k != qs[0].id ==> answers[k] == 0
    ensures Score(qs, answers) == RoundPercent(3, max)
  {
    EntryTotalIsCatalogTotal(qs, answers);
    var rest := qs[1..];
    forall i | 0 <= i < |rest| && rest[i].id in answers
      ensures Points(rest[i], answers[rest[i].id]) == 0
    {
      assert rest[i] == qs[i + 1];
      assert qs[0].id != qs[i + 1].id;
    }
    CatalogTotalZero(rest, answers);
    assert CatalogTotal(qs, answers) == 3;
    assert forall i :: 0 <= i < |rest| ==> rest[i] == qs[i + 1];
    MaxPossibleNonNegative(rest);
    RoundPercentRange(3, max);
  }

  /** Male catalog, 20 hours a week and every choice at its zero-point option: round(3 / 38 * 100) = 8. */
  lemma MaleHoursOnlyScenario(answers: map<string, int>)
    requires KeysInCatalog(MALE_QUESTIONS, answers)
    requires "m1" in answers && answers["m1"] == 20
    requires forall k :: k in answers && k != "m1" ==> answers[k] == 0
    ensures Score(MALE_QUESTIONS, answers) == 8
  {
    MaleFacts();
    HoursOnlyScore(MALE_QUESTIONS, answers, 38);
    ThreeOfThirtyEight();
  }

  lemma ThreeOfThirtyEight()
    ensures RoundPercent(3, 38) == 8
  {
  }

  /** Female catalog with every question answered at its maximum: the score is 100. */
  lemma FemaleFullMarksScenario(answers: map<string, int>)
    requires KeysInCatalog(FEMALE_QUESTIONS, answers)
    requires forall i :: 0 <= i < |FEMALE_QUESTIONS| ==>
               FEMALE_QUESTIONS[i].id in answers
               && Some(Points(FEMALE_QUESTIONS[i], answers[FEMALE_QUESTIONS[i].id])) == MaxPoints(FEMALE_QUESTIONS[i])
    ensures Score(FEMALE_QUESTIONS, answers) == 100
  {
    FemaleShape();
    FemaleMaxPossible();
    FullMarksScoreHundred(FEMALE_QUESTIONS, answers);
  }

  lemma MaleFacts()
    ensures UniqueIds(MALE_QUESTIONS) && AllOptionsNonNegative(MALE_QUESTIONS)
    ensures |MALE_QUESTIONS| > 0 && MALE_QUESTIONS[0].kind.Number? && MALE_QUESTIONS[0].id == "m1"
    ensures MaxPossible(MALE_QUESTIONS) == Some(38)
  {
    MaleShape();
    MaleMaxPossible();
  }
}
