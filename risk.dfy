/**
 * The risk classification shown on the results screen: a four-band
 * threshold chain on the score, each band with its display label,
 * description and colour classes.
 */
module Risk {
  datatype RiskLevel = Green | Yellow | Orange | Red

  /** What the results screen shows for a score: the band, its colour classes, its label and its advice. */
  datatype RiskInfo = RiskInfo(level: RiskLevel, color: string, bg: string, text: string, desc: string)

  /** The band boundaries, inclusive upper ends of Green, Yellow and Orange. */
  const GREEN_MAX := 30
  const YELLOW_MAX := 60
  const ORANGE_MAX := 85

  /** The threshold chain: the first band whose upper end the score does not exceed. */
  function LevelOf(score: int): RiskLevel
  {
    if score <= GREEN_MAX then Green
    else if score <= YELLOW_MAX then Yellow
    else if score <= ORANGE_MAX then Orange
    else Red
  }

  /** What the results screen shows for `score`: every field is the one of its band. */
  function Classify(score: int): RiskInfo
  {
    var level := LevelOf(score);
    RiskInfo(level, Color(level), Background(level), Label(level), Advice(level))
  }

  /** The text colour class of each band; Orange and Red share one. */
  function Color(level: RiskLevel): string
  {
    match level
    case Green => "text-brand-green"
    case Yellow => "text-yellow-600"
    case Orange => "text-brand-red"
    case Red => "text-brand-red"
  }

  /** The background class of each band. */
  function Background(level: RiskLevel): string
  {
    match level
    case Green => "bg-brand-green/10"
    case Yellow => "bg-yellow-50"
    case Orange => "bg-brand-red/5"
    case Red => "bg-brand-red/10"
  }

  /** The label of each band. */
  function Label(level: RiskLevel): string
  {
    match level
    case Green => "Low Risk"
    case Yellow => "Moderate Risk"
    case Orange => "High Risk"
    case Red => "Very High Risk"
  }

  /** The advice shown for each band. */
  function Advice(level: RiskLevel): string
  {
    match level
    case Green => "Proper eating habits and healthy endocrine system. Full sport participation encouraged."
    case Yellow => "Potential low energy availability. Monitoring and dietary adjustment recommended."
    case Orange => "Significant risk of RED-S. Clinical assessment and treatment plan highly recommended."
    case Red => "Critical energy deficiency. Immediate medical intervention and removal from training may be necessary."
  }

  /** How severe a band is, Green lowest. */
  function Severity(level: RiskLevel): nat
  {
    match level
    case Green => 0
    case Yellow => 1
    case Orange => 2
    case Red => 3
  }

  /**
   * The bands as a table of half-open intervals (lower end exclusive, upper
   * end inclusive); Green has no lower end and Red no upper end.
   */
  predicate InBand(level: RiskLevel, score: int)
  {
    match level
    case Green => score <= GREEN_MAX
    case Yellow => GREEN_MAX < score <= YELLOW_MAX
    case Orange => YELLOW_MAX < score <= ORANGE_MAX
    case Red => ORANGE_MAX < score
  }

  /** The classifier picks a band exactly when the score lies in that band of the table. */
  lemma ClassifyIsBand(score: int, level: RiskLevel)
    ensures LevelOf(score) == level <==> InBand(level, score)
  {
  }

  /** The bands partition the integers: every score lies in exactly one band. */
  lemma BandsPartition(score: int)
    ensures exists level :: InBand(level, score)
    ensures forall l1, l2 :: InBand(l1, score) && InBand(l2, score) ==> l1 == l2
  {
    ClassifyIsBand(score, LevelOf(score));
  }

  /** A higher score is never classified as less severe. */
  lemma ClassifyMonotone(s1: int, s2: int)
    requires s1 <= s2
    ensures Severity(LevelOf(s1)) <= Severity(LevelOf(s2))
  {
  }

  /** Different bands carry different labels, so the label shown identifies the band. */
  lemma LabelsDistinct(l1: RiskLevel, l2: RiskLevel)
    requires l1 != l2
    ensures Label(l1) != Label(l2)
  {

  }
}
