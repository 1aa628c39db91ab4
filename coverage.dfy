/** The coverage metric the action computes from a clover report
    (index.js:34-65): four categories, each with its counts and its rate.
    A rate is kept exactly, in hundredths of a percent (9550 is 95.5%). */
module Coverage {

  /** The attributes of the clover report's `project/metrics` node, already
      read as numbers. */
  datatype CloverMetrics = CloverMetrics(
    elements: nat, coveredElements: nat,
    statements: nat, coveredStatements: nat,
    methods: nat, coveredMethods: nat,
    conditionals: nat, coveredConditionals: nat)

  /** One category of the metric; `rate` is in hundredths of a percent. */
  datatype Category = Category(total: nat, covered: nat, rate: nat)

  datatype Kind = Statements | Lines | Methods | Branches

  datatype Metric = Metric(statements: Category, lines: Category, methods: Category, branches: Category)
  {
    function Get(k: Kind): Category
    {
      match k
      case Statements => statements
      case Lines => lines
      case Methods => methods
      case Branches => branches
    }
  }

  /** `covered / total * 100` rounded to two decimals, halves upwards, as
      `toFixed(2)` rounds an exact value; a zero total gives 0. */
  function CalcRate(covered: nat, total: nat): (r: nat)
    ensures total == 0 ==> r == 0
    ensures total > 0 ==> 20000 * covered - total < 2 * total * r <= 20000 * covered + total
  {
    if total == 0 then 0
    else
      var n, d := 20000 * covered + total, 2 * total;
      assert n == d * (n / d) + n % d && 0 <= n % d < d;
      n / d
  }

  /** The rounding rule pins the rate down: no other number of hundredths is
      within half a hundredth of the exact percentage in the same way. */
  lemma CalcRateUnique(covered: nat, total: nat, r: int)
    requires total > 0
    requires 20000 * covered - total < 2 * total * r <= 20000 * covered + total
    ensures r == CalcRate(covered, total)
  {
    var q := CalcRate(covered, total);
    if r < q {
      MultiplyMonotone(2 * total, r + 1, q);
    } else if r > q {
      MultiplyMonotone(2 * total, q + 1, r);
    }
  }

  lemma MultiplyMonotone(k: nat, a: int, b: int)
    requires a <= b
    ensures k * a <= k * b
  {
  }

  /** A rate of consistent counts lies between 0% and 100%. */
  lemma CalcRateBounded(covered: nat, total: nat)
    requires covered <= total
    ensures CalcRate(covered, total) <= 10000
  {
    if total > 0 {
      var r := CalcRate(covered, total);
      MultiplyMonotone(20000, covered, total);
      if r > 10000 {
        MultiplyMonotone(2 * total, 10001, r);
      }
    }
  }

  /** Everything covered is exactly 100%. */
  lemma CalcRateFull(total: nat)
    requires total > 0
    ensures CalcRate(total, total) == 10000
  {
    CalcRateUnique(total, total, 10000);
  }

  /** The metric of a report: each category takes one attribute pair unchanged
      and its rate from that pair (index.js:38-62). */
  function MetricOf(data: CloverMetrics): Metric
  {
    Metric(
      CategoryOf(data.elements, data.coveredElements),
      CategoryOf(data.statements, data.coveredStatements),
      CategoryOf(data.methods, data.coveredMethods),
      CategoryOf(data.conditionals, data.coveredConditionals))
  }

  function CategoryOf(total: nat, covered: nat): Category
  {
    Category(total, covered, CalcRate(covered, total))
  }

  /** The metric is built first with the counts alone and each rate is then
      filled in; the placeholder 0 stands for the field the record has not yet. */
  method ReadMetric(data: CloverMetrics) returns (metric: Metric)
    ensures metric == MetricOf(data)
    ensures metric.statements.total == data.elements && metric.statements.covered == data.coveredElements
    ensures metric.lines.total == data.statements && metric.lines.covered == data.coveredStatements
    ensures metric.methods.total == data.methods && metric.methods.covered == data.coveredMethods
    ensures metric.branches.total == data.conditionals && metric.branches.covered == data.coveredConditionals
    ensures forall k :: metric.Get(k).rate == CalcRate(metric.Get(k).covered, metric.Get(k).total)
  {
    metric := Metric(
      Category(data.elements, data.coveredElements, 0),
      Category(data.statements, data.coveredStatements, 0),
      Category(data.methods, data.coveredMethods, 0),
      Category(data.conditionals, data.coveredConditionals, 0));
    metric := metric.(statements := metric.statements.(rate := CalcRate(metric.statements.covered, metric.statements.total)));
    metric := metric.(lines := metric.lines.(rate := CalcRate(metric.lines.covered, metric.lines.total)));
    metric := metric.(methods := metric.methods.(rate := CalcRate(metric.methods.covered, metric.methods.total)));
    metric := metric.(branches := metric.branches.(rate := CalcRate(metric.branches.covered, metric.branches.total)));
  }

  /** A report whose covered counts never exceed their totals gives rates
      within 0% and 100%. */
  lemma MetricRatesBounded(data: CloverMetrics, k: Kind)
    requires data.coveredElements <= data.elements && data.coveredStatements <= data.statements
    requires data.coveredMethods <= data.methods && data.coveredConditionals <= data.conditionals
    ensures MetricOf(data).Get(k).rate <= 10000
  {
    var c := MetricOf(data).Get(k);
    CalcRateBounded(c.covered, c.total);
  }

  /** A worked example: 90/100 elements, 95/100
      statements, 18/20 methods and 40/50 conditionals give 90%, 95%, 90%
      and 80%. */
  lemma ExampleMetric()
    ensures var m := MetricOf(CloverMetrics(100, 90, 100, 95, 20, 18, 50, 40));
      m.statements.rate == 9000 && m.lines.rate == 9500 && m.methods.rate == 9000 && m.branches.rate == 8000
  {
  }

  lemma ExampleRates()
    ensures CalcRate(0, 0) == 0 && CalcRate(50, 100) == 5000 && CalcRate(1, 3) == 3333 && CalcRate(2, 3) == 6667
  {
  }
}
