/** The regression decision and the commit-status payload (index.js:95-154).
    `GenerateStatus` is the evidently intended behaviour: every category is
    compared with its own baseline, and the failure description lists each
    drop. `GenerateStatusAsWritten` is what the code as it stands does. */
module Status {
  import opened Wrappers
  import opened Coverage
  import opened Decimal
  import Text

  datatype State = Success | Failure
  {
    /** The string sent as the status's `state`. */
    function Name(): string
    {
      match this
      case Success => "success"
      case Failure => "failure"
    }
  }

  /** The status payload: `target_url` and `context` in the source. */
  datatype StatusPayload = StatusPayload(state: State, description: string, targetUrl: string, context: string)

  /** A category whose rate dropped, and by how many hundredths. */
  datatype Decrease = Decrease(kind: Kind, delta: nat)

  const FailurePrefix := "Failure: "

  /** The order in which drops are reported. */
  const ReportOrder: seq<Kind> := [Branches, Lines, Methods, Statements]

  function Position(k: Kind): (i: nat)
    ensures i < |ReportOrder| && ReportOrder[i] == k
  {
    match k
    case Branches => 0
    case Lines => 1
    case Methods => 2
    case Statements => 3
  }

  /** Equality is not a regression: only a strictly lower rate is. */
  predicate Decreased(original: Metric, current: Metric, k: Kind)
  {
    original.Get(k).rate > current.Get(k).rate
  }

  predicate Regressed(original: Metric, current: Metric)
  {
    exists k :: Decreased(original, current, k)
  }

  /** A regression is a category whose rate did not stay level or rise. */
  lemma RegressedIff(originalMetric: Option<Metric>, current: Metric)
    ensures originalMetric.Some? ==>
      (Regressed(originalMetric.value, current) <==> !forall k :: originalMetric.value.Get(k).rate <= current.Get(k).rate)
  {
    if originalMetric.Some? && !forall k :: originalMetric.value.Get(k).rate <= current.Get(k).rate {
      var k :| originalMetric.value.Get(k).rate > current.Get(k).rate;
      assert Decreased(originalMetric.value, current, k);
    }
  }

  /** The drops among `kinds`, in the order of `kinds`. */
  function DecreasesIn(kinds: seq<Kind>, original: Metric, current: Metric): seq<Decrease>
  {
    if kinds == [] then []
    else
      var k := kinds[0];
      var rest := DecreasesIn(kinds[1..], original, current);
      if Decreased(original, current, k)
      then [Decrease(k, original.Get(k).rate - current.Get(k).rate)] + rest
      else rest
  }

  function Decreases(original: Metric, current: Metric): seq<Decrease>
  {
    DecreasesIn(ReportOrder, original, current)
  }

  /** The wording of a category in a decrease line. */
  function Label(k: Kind): string
  {
    match k
    case Branches => "Branches"
    case Lines => "Line"
    case Methods => "Methods"
    case Statements => "Statements"
  }

  /** One line of a failure description, without the line break before it. */
  function DecreaseText(d: Decrease): string
  {
    Label(d.kind) + " Coverage decrease - " + NumberToString(d.delta) + "%"
  }

  /** One line of a failure description, with the line break before it. */
  function DecreaseLine(d: Decrease): string
  {
    "\n" + DecreaseText(d)
  }

  function DecreaseLines(ds: seq<Decrease>): string
  {
    if ds == [] then "" else DecreaseLine(ds[0]) + DecreaseLines(ds[1..])
  }

  /** The success description with the four current rates. The source's
      `\B` before "Branchs" is a template-literal escape for a plain "B", so
      no line break precedes that part. */
  function SuccessDescription(lineRate: string, statementsRate: string, methodsRate: string, branchesRate: string)
    : (description: string)
    ensures '\n' !in lineRate + statementsRate + methodsRate + branchesRate ==>
      Text.Lines(description) == ["Success: ", "Line Coverage - " + lineRate + "%,",
        "Statement Coverage - " + statementsRate + "%,",
        "Methods Coverage - " + methodsRate + "%,Branchs Coverage - " + branchesRate + "%"]
  {
    SuccessLines(lineRate, statementsRate, methodsRate, branchesRate);
    "Success: " + "\n" + ("Line Coverage - " + lineRate + "%,")
    + "\n" + ("Statement Coverage - " + statementsRate + "%,")
    + "\n" + ("Methods Coverage - " + methodsRate + "%,Branchs Coverage - " + branchesRate + "%")
  }

  lemma SuccessLines(lineRate: string, statementsRate: string, methodsRate: string, branchesRate: string)
    ensures var p0, p1, p2, p3 := "Success: ", "Line Coverage - " + lineRate + "%,",
        "Statement Coverage - " + statementsRate + "%,",
        "Methods Coverage - " + methodsRate + "%,Branchs Coverage - " + branchesRate + "%";
      '\n' !in lineRate + statementsRate + methodsRate + branchesRate ==>
        Text.Lines(p0 + "\n" + p1 + "\n" + p2 + "\n" + p3) == [p0, p1, p2, p3]
  {
    var all := lineRate + statementsRate + methodsRate + branchesRate;
    if '\n' !in all {
      assert '\n' !in lineRate && '\n' !in statementsRate && '\n' !in methodsRate && '\n' !in branchesRate by {
        forall c | c in lineRate || c in statementsRate || c in methodsRate || c in branchesRate ensures c in all { }
      }
      assert '\n' !in "Success: " && '\n' !in "Line Coverage - " && '\n' !in "%,";
      assert '\n' !in "Statement Coverage - " && '\n' !in "Methods Coverage - ";
      assert '\n' !in "%,Branchs Coverage - " && '\n' !in "%";
      Text.LinesOfFour("Success: ", "Line Coverage - " + lineRate + "%,",
        "Statement Coverage - " + statementsRate + "%,",
        "Methods Coverage - " + methodsRate + "%,Branchs Coverage - " + branchesRate + "%");
    }
  }

  /** The status the action should report: failure exactly when there is a
      baseline and some category dropped below it. */
  function StatusOf(metric: Metric, targetUrl: string, statusContext: string, originalMetric: Option<Metric>)
    : (status: StatusPayload)
    ensures status.targetUrl == targetUrl && status.context == statusContext
    ensures status.state == Success
      <==> originalMetric.None? || forall k :: originalMetric.value.Get(k).rate <= metric.Get(k).rate
  {
    RegressedIff(originalMetric, metric);
    if originalMetric.Some? && Regressed(originalMetric.value, metric) then
      StatusPayload(Failure, FailurePrefix + DecreaseLines(Decreases(originalMetric.value, metric)), targetUrl, statusContext)
    else
      StatusPayload(Success,
        SuccessDescription(
          NumberToString(metric.lines.rate), NumberToString(metric.statements.rate),
          NumberToString(metric.methods.rate), NumberToString(metric.branches.rate)),
        targetUrl, statusContext)
  }

  lemma {:induction false} DecreasesInAppend(a: seq<Kind>, b: seq<Kind>, original: Metric, current: Metric)
    ensures DecreasesIn(a + b, original, current) == DecreasesIn(a, original, current) + DecreasesIn(b, original, current)
  {
    if a != [] {
      assert (a + b)[1..] == a[1..] + b;
      DecreasesInAppend(a[1..], b, original, current);
    } else {
      assert a + b == b;
    }
  }

  lemma {:induction false} DecreaseLinesAppend(a: seq<Decrease>, b: seq<Decrease>)
    ensures DecreaseLines(a + b) == DecreaseLines(a) + DecreaseLines(b)
  {
    if a != [] {
      assert (a + b)[1..] == a[1..] + b;
      DecreaseLinesAppend(a[1..], b);
    } else {
      assert a + b == b;
    }
  }

  /** What the check of category `k` appends to a failure description. */
  function Piece(original: Metric, current: Metric, k: Kind): string
  {
    if Decreased(original, current, k)
    then DecreaseLine(Decrease(k, original.Get(k).rate - current.Get(k).rate))
    else ""
  }

  function PiecesIn(kinds: seq<Kind>, original: Metric, current: Metric): string
  {
    if kinds == [] then "" else Piece(original, current, kinds[0]) + PiecesIn(kinds[1..], original, current)
  }

  /** Listing the drops and printing each one is checking each category in
      turn and appending its piece. */
  lemma {:induction false} PiecesInLines(kinds: seq<Kind>, original: Metric, current: Metric)
    ensures PiecesIn(kinds, original, current) == DecreaseLines(DecreasesIn(kinds, original, current))
  {
    if kinds != [] {
      var k := kinds[0];
      PiecesInLines(kinds[1..], original, current);
      var rest := DecreasesIn(kinds[1..], original, current);
      if Decreased(original, current, k) {
        var d := Decrease(k, original.Get(k).rate - current.Get(k).rate);
        assert DecreasesIn(kinds, original, current) == [d] + rest;
        assert ([d] + rest)[1..] == rest;
      }
    }
  }

  lemma PiecesInOrder(original: Metric, current: Metric)
    ensures DecreaseLines(Decreases(original, current))
      == Piece(original, current, Branches) + (Piece(original, current, Lines)
         + (Piece(original, current, Methods) + Piece(original, current, Statements)))
  {
    var o, c := original, current;
    PiecesInLines(ReportOrder, o, c);
    assert ReportOrder[1..] == [Lines, Methods, Statements];
    assert [Lines, Methods, Statements][1..] == [Methods, Statements];
    assert [Methods, Statements][1..] == [Statements];
    assert [Statements][1..] == [];
    calc {
      PiecesIn(ReportOrder, o, c);
      Piece(o, c, Branches) + PiecesIn([Lines, Methods, Statements], o, c);
      Piece(o, c, Branches) + (Piece(o, c, Lines) + PiecesIn([Methods, Statements], o, c));
      Piece(o, c, Branches) + (Piece(o, c, Lines) + (Piece(o, c, Methods) + PiecesIn([Statements], o, c)));
      { assert PiecesIn([Statements], o, c) == Piece(o, c, Statements) + ""; assert Piece(o, c, Statements) + "" == Piece(o, c, Statements); }
      Piece(o, c, Branches) + (Piece(o, c, Lines) + (Piece(o, c, Methods) + Piece(o, c, Statements)));
    }
  }

  lemma Associate(a: string, b: string, c: string, d: string, e: string)
    ensures (((a + b) + c) + d) + e == a + (b + (c + (d + e)))
  {
  }

  /** Four descriptions, each the previous with one more category's piece,
      end in the full failure description. */
  lemma FourPieces(original: Metric, current: Metric, d1: string, d2: string, d3: string, d4: string)
    requires d1 == FailurePrefix + Piece(original, current, Branches)
    requires d2 == d1 + Piece(original, current, Lines)
    requires d3 == d2 + Piece(original, current, Methods)
    requires d4 == d3 + Piece(original, current, Statements)
    ensures d4 == FailurePrefix + DecreaseLines(Decreases(original, current))
  {
    PiecesInOrder(original, current);
    Associate(FailurePrefix, Piece(original, current, Branches), Piece(original, current, Lines),
      Piece(original, current, Methods), Piece(original, current, Statements));
  }

  /** One of the source's four checks: when category `k` dropped, append its
      line to the description. */
  method CheckCategory(description: string, original: Metric, metric: Metric, k: Kind) returns (next: string)
    ensures next == description + Piece(original, metric, k)
  {
    next := description;
    if original.Get(k).rate > metric.Get(k).rate {
      next := next + DecreaseLine(Decrease(k, original.Get(k).rate - metric.Get(k).rate));
    } else {
      assert next + "" == next;
    }
  }

  /** The failure description as the source accumulates it: the checks run in
      report order, each adding to what the previous ones wrote. */
  method FailureDescription(original: Metric, metric: Metric) returns (description: string)
    ensures description == FailurePrefix + DecreaseLines(Decreases(original, metric))
  {
    var d1 := CheckCategory(FailurePrefix, original, metric, Branches);
    var d2 := CheckCategory(d1, original, metric, Lines);
    var d3 := CheckCategory(d2, original, metric, Methods);
    description := CheckCategory(d3, original, metric, Statements);
    FourPieces(original, metric, d1, d2, d3, description);
  }

  /** The status as the source computes it: the four comparisons decide, and
      the payload passes the target URL and the context through. */
  method GenerateStatus(metric: Metric, targetUrl: string, statusContext: string, originalMetric: Option<Metric>)
    returns (status: StatusPayload)
    ensures status == StatusOf(metric, targetUrl, statusContext, originalMetric)
  {
    if originalMetric.Some? {
      var original := originalMetric.value;
      if original.branches.rate > metric.branches.rate
        || original.lines.rate > metric.lines.rate
        || original.methods.rate > metric.methods.rate
        || original.statements.rate > metric.statements.rate
      {
        assert Regressed(original, metric) by {
          if original.branches.rate > metric.branches.rate { assert Decreased(original, metric, Branches); }
          else if original.lines.rate > metric.lines.rate { assert Decreased(original, metric, Lines); }
          else if original.methods.rate > metric.methods.rate { assert Decreased(original, metric, Methods); }
          else { assert Decreased(original, metric, Statements); }
        }
        var description := FailureDescription(original, metric);
        return StatusPayload(Failure, description, targetUrl, statusContext);
      }
      assert !Regressed(original, metric) by {
        forall k ensures !Decreased(original, metric, k) {
          match k
          case Branches =>
          case Lines =>
          case Methods =>
          case Statements =>
        }
      }
    }
    status := StatusPayload(Success,
      SuccessDescription(
        NumberToString(metric.lines.rate), NumberToString(metric.statements.rate),
        NumberToString(metric.methods.rate), NumberToString(metric.branches.rate)),
      targetUrl, statusContext);
  }

  // Properties of the decision

  /** Every entry of `ds` is a category among `kinds` that did drop, with the
      size of its drop. */
  ghost predicate ListsDropsAmong(ds: seq<Decrease>, kinds: seq<Kind>, original: Metric, current: Metric)
  {
    forall i :: 0 <= i < |ds| ==>
      && ds[i].kind in kinds
      && Decreased(original, current, ds[i].kind)
      && ds[i].delta == original.Get(ds[i].kind).rate - current.Get(ds[i].kind).rate
  }

  lemma {:induction false} DecreasesInSound(kinds: seq<Kind>, original: Metric, current: Metric)
    ensures ListsDropsAmong(DecreasesIn(kinds, original, current), kinds, original, current)
  {
    if kinds != [] {
      var k, tail := kinds[0], kinds[1..];
      DecreasesInSound(tail, original, current);
      var ds, rest := DecreasesIn(kinds, original, current), DecreasesIn(tail, original, current);
      assert ListsDropsAmong(rest, tail, original, current);
      assert ListsDropsAmong(rest, kinds, original, current) by {
        forall i | 0 <= i < |rest| ensures rest[i].kind in kinds {
          assert rest[i].kind in tail;
          var n :| 0 <= n < |tail| && tail[n] == rest[i].kind;
          assert kinds[n + 1] == rest[i].kind;
        }
      }
      if Decreased(original, current, k) {
        assert ds == [Decrease(k, original.Get(k).rate - current.Get(k).rate)] + rest;
        forall i | 1 <= i < |ds| ensures ds[i] == rest[i - 1] { }
      }
    }
  }

  /** Every category among `kinds` that dropped is listed. */
  lemma {:induction false} DecreasesInComplete(kinds: seq<Kind>, original: Metric, current: Metric, k: Kind)
    requires k in kinds && Decreased(original, current, k)
    ensures exists i :: 0 <= i < |DecreasesIn(kinds, original, current)| && DecreasesIn(kinds, original, current)[i].kind == k
  {
    var ds := DecreasesIn(kinds, original, current);
    var rest := DecreasesIn(kinds[1..], original, current);
    if kinds[0] == k {
      assert ds[0].kind == k;
    } else {
      assert k in kinds[1..] by {
        var n :| 0 <= n < |kinds| && kinds[n] == k;
        assert kinds[1..][n - 1] == k;
      }
      DecreasesInComplete(kinds[1..], original, current, k);
      var i :| 0 <= i < |rest| && rest[i].kind == k;
      if Decreased(original, current, kinds[0]) {
        assert ds[i + 1] == rest[i];
      }
    }
  }

  /** The entries of `ds` follow report order, no category twice. */
  ghost predicate InReportOrder(ds: seq<Decrease>)
  {
    forall i, j :: 0 <= i < j < |ds| ==> Position(ds[i].kind) < Position(ds[j].kind)
  }

  ghost predicate KindsInReportOrder(kinds: seq<Kind>)
  {
    forall i, j :: 0 <= i < j < |kinds| ==> Position(kinds[i]) < Position(kinds[j])
  }

  lemma TailInReportOrder(kinds: seq<Kind>)
    requires kinds != [] && KindsInReportOrder(kinds)
    ensures KindsInReportOrder(kinds[1..])
  {
    var tail := kinds[1..];
    forall i, j | 0 <= i < j < |tail| ensures Position(tail[i]) < Position(tail[j]) {
      assert tail[i] == kinds[i + 1] && tail[j] == kinds[j + 1];
    }
  }

  /** Category `k` comes before every entry of `ds` in report order. */
  ghost predicate Precedes(k: Kind, ds: seq<Decrease>)
  {
    forall i :: 0 <= i < |ds| ==> Position(k) < Position(ds[i].kind)
  }

  /** The first of `kinds` comes before every drop among the others. */
  lemma HeadPrecedesDrops(kinds: seq<Kind>, original: Metric, current: Metric)
    requires kinds != [] && KindsInReportOrder(kinds)
    ensures Precedes(kinds[0], DecreasesIn(kinds[1..], original, current))
  {
    var tail := kinds[1..];
    DecreasesInSound(tail, original, current);
    var rest := DecreasesIn(tail, original, current);
    assert ListsDropsAmong(rest, tail, original, current);
    forall i | 0 <= i < |rest| ensures Position(kinds[0]) < Position(rest[i].kind) {
      assert rest[i].kind in tail;
      var n :| 0 <= n < |tail| && tail[n] == rest[i].kind;
      assert kinds[n + 1] == tail[n];
    }
  }

  /** Drops are listed in the order of `kinds`. */
  lemma {:induction false} DecreasesInOrdered(kinds: seq<Kind>, original: Metric, current: Metric)
    requires KindsInReportOrder(kinds)
    ensures InReportOrder(DecreasesIn(kinds, original, current))
  {
    if kinds != [] {
      var k, tail := kinds[0], kinds[1..];
      TailInReportOrder(kinds);
      DecreasesInOrdered(tail, original, current);
      HeadPrecedesDrops(kinds, original, current);
      var rest := DecreasesIn(tail, original, current);
      assert InReportOrder(rest);
      assert Precedes(k, rest);
      var ds := DecreasesIn(kinds, original, current);
      if Decreased(original, current, k) {
        assert ds == [Decrease(k, original.Get(k).rate - current.Get(k).rate)] + rest;
        forall i, j | 0 <= i < j < |ds| ensures Position(ds[i].kind) < Position(ds[j].kind) {
          assert ds[j] == rest[j - 1];
          if i > 0 {
            assert ds[i] == rest[i - 1];
            assert Position(rest[i - 1].kind) < Position(rest[j - 1].kind);
          } else {
            assert ds[i].kind == k;
            assert Position(k) < Position(rest[j - 1].kind);
          }
        }
      }
    }
  }

  /** The reported drops are exactly the categories whose rate fell, each with
      the size of its fall, in the order branches, lines, methods, statements. */
  lemma DecreasesExact(original: Metric, current: Metric)
    ensures var ds := Decreases(original, current);
      && (forall k :: Decreased(original, current, k) <==> exists i :: 0 <= i < |ds| && ds[i].kind == k)
      && (forall i :: 0 <= i < |ds| ==> ds[i].delta == original.Get(ds[i].kind).rate - current.Get(ds[i].kind).rate > 0)
      && InReportOrder(ds)
      && (|ds| > 0 <==> Regressed(original, current))
  {
    var ds := Decreases(original, current);
    DecreasesInSound(ReportOrder, original, current);
    assert ListsDropsAmong(ds, ReportOrder, original, current);
    DecreasesInOrdered(ReportOrder, original, current);
    forall k | Decreased(original, current, k) ensures exists i :: 0 <= i < |ds| && ds[i].kind == k {
      assert ReportOrder[Position(k)] == k;
      DecreasesInComplete(ReportOrder, original, current, k);
    }
    if |ds| > 0 {
      assert Decreased(original, current, ds[0].kind);
    }
  }

  /** Without a baseline the check always passes; in every case the target URL
      and the context are passed through. */
  lemma NoBaselineSucceeds(metric: Metric, targetUrl: string, statusContext: string, originalMetric: Option<Metric>)
    ensures var s := StatusOf(metric, targetUrl, statusContext, originalMetric);
      && s.targetUrl == targetUrl && s.context == statusContext
      && (originalMetric.None? ==> s.state == Success && s.state.Name() == "success")
  {
  }

  /** With a baseline, the check fails exactly when some category's baseline
      rate is strictly above its current rate. */
  lemma FailsExactlyOnDrop(metric: Metric, targetUrl: string, statusContext: string, original: Metric)
    ensures StatusOf(metric, targetUrl, statusContext, Some(original)).state == Failure
      <==> exists k :: original.Get(k).rate > metric.Get(k).rate
  {
    if exists k :: original.Get(k).rate > metric.Get(k).rate {
      var k :| original.Get(k).rate > metric.Get(k).rate;
      assert Decreased(original, metric, k);
    }
  }

  /** Equal or improved rates never fail the check. */
  lemma NoDropSucceeds(metric: Metric, targetUrl: string, statusContext: string, original: Metric)
    requires forall k :: original.Get(k).rate <= metric.Get(k).rate
    ensures StatusOf(metric, targetUrl, statusContext, Some(original)).state == Success
  {
    FailsExactlyOnDrop(metric, targetUrl, statusContext, original);
  }

  /** The texts of the description lines, without their line breaks. */
  function DecreaseTexts(ds: seq<Decrease>): (texts: seq<string>)
    ensures |texts| == |ds|
    ensures forall i :: 0 <= i < |ds| ==> texts[i] == DecreaseText(ds[i])
  {
    if ds == [] then [] else [DecreaseText(ds[0])] + DecreaseTexts(ds[1..])
  }

  lemma NoLineBreakInDecreaseText(d: Decrease)
    ensures '\n' !in DecreaseText(d)
  {
    // Dafny finds this unaided, but at more than twice the cost.
    var t := DecreaseText(d);
    var n := NumberToString(d.delta);
    assert t == Label(d.kind) + " Coverage decrease - " + n + "%";
    assert '\n' !in n by {
      forall i | 0 <= i < |n| ensures n[i] != '\n' {
      }
    }
  }

  lemma Regroup(head: string, t: string, rest: string)
    ensures head + (("\n" + t) + rest) == head + ['\n'] + (t + rest)
  {
  }

  lemma {:induction false} LinesAfterHead(head: string, ds: seq<Decrease>)
    requires '\n' !in head
    ensures Text.Lines(head + DecreaseLines(ds)) == [head] + DecreaseTexts(ds)
    decreases |ds|
  {
    if ds == [] {
      assert head + DecreaseLines(ds) == head;
      Text.SplitSingle(head, '\n');
    } else {
      var t := DecreaseText(ds[0]);
      var rest := DecreaseLines(ds[1..]);
      NoLineBreakInDecreaseText(ds[0]);
      assert DecreaseLines(ds) == ("\n" + t) + rest;
      Regroup(head, t, rest);
      Text.SplitCons(head, '\n', t + rest);
      LinesAfterHead(t, ds[1..]);
      assert DecreaseTexts(ds) == [t] + DecreaseTexts(ds[1..]);
    }
  }

  /** A failure description is the line "Failure: " followed by one line per
      dropped category, in report order. */
  lemma FailureDescriptionLines(metric: Metric, targetUrl: string, statusContext: string, originalMetric: Option<Metric>)
    ensures var s := StatusOf(metric, targetUrl, statusContext, originalMetric);
      s.state == Failure ==>
        && originalMetric.Some?
        && Text.Lines(s.description) == [FailurePrefix] + DecreaseTexts(Decreases(originalMetric.value, metric))
  {
    if originalMetric.Some? {
      LinesAfterHead(FailurePrefix, Decreases(originalMetric.value, metric));
    }
  }

  /** An example: branches fall from 80% to 70% and nothing else moves; the
      description is "Failure: \nBranches Coverage decrease - 10%", that one
      drop alone. */
  lemma BranchesDropExample(metric: Metric, original: Metric, targetUrl: string, statusContext: string)
    requires original.branches.rate == 8000 && metric.branches.rate == 7000
    requires original.lines.rate == metric.lines.rate && original.methods.rate == metric.methods.rate
    requires original.statements.rate == metric.statements.rate
    ensures StatusOf(metric, targetUrl, statusContext, Some(original))
      == StatusPayload(Failure, "Failure: " + ("\n" + ("Branches" + " Coverage decrease - " + "10" + "%")), targetUrl, statusContext)
  {
    assert Regressed(original, metric) by { assert Decreased(original, metric, Branches); }
    BranchesDropLines(metric, original);
    TenPercent();
  }

  lemma BranchesDropLines(metric: Metric, original: Metric)
    requires original.branches.rate == 8000 && metric.branches.rate == 7000
    requires original.lines.rate == metric.lines.rate && original.methods.rate == metric.methods.rate
    requires original.statements.rate == metric.statements.rate
    ensures DecreaseLines(Decreases(original, metric)) == DecreaseLine(Decrease(Branches, 1000))
  {
    PiecesInOrder(original, metric);
    assert Piece(original, metric, Lines) == "" && Piece(original, metric, Methods) == "";
    assert Piece(original, metric, Statements) == "";
    assert Piece(original, metric, Branches) == DecreaseLine(Decrease(Branches, 1000));
  }

  lemma TenPercent()
    ensures NumberToString(1000) == "10"
  {
  }

  // The code as written (index.js:95-154)

  /** A value the source reads off a category record: a number (in hundredths),
      `undefined` for a property the record does not have, or `NaN`, what
      arithmetic on `undefined` gives. */
  datatype Value = Undefined | NaN | Number(hundredths: int)

  /** The names lines 97-100 and 108-111 destructure from the category
      records. None of them is a property of `{total, covered, rate}`. */
  const DestructuredNames: set<string> := {
    "lineRate", "statementsRate", "methodsRate", "branchesRate",
    "originalLineRate", "originalStatementsRate", "originalMethodsRate", "originalBranchesRate" }

  /** JavaScript's property read on a category record `{total, covered, rate}`,
      for the record's own three names and the eight destructured ones. Names
      a record inherits from `Object.prototype` are outside this model. */
  function Property(c: Category, name: string): (v: Value)
    requires name in {"rate", "total", "covered"} || name in DestructuredNames
    ensures name in DestructuredNames ==> v == Undefined
    ensures name == "rate" ==> v == Number(c.rate)
    ensures name == "total" ==> v == Number(c.total * 100)
    ensures name == "covered" ==> v == Number(c.covered * 100)
  {
    if name == "rate" then Number(c.rate)
    else if name == "total" then Number(c.total * 100)
    else if name == "covered" then Number(c.covered * 100)
    else Undefined
  }

  /** JavaScript's `>`: false as soon as either side is not a number. */
  predicate Greater(a: Value, b: Value)
  {
    a.Number? && b.Number? && a.hundredths > b.hundredths
  }

  /** JavaScript's `-`. */
  function Minus(a: Value, b: Value): Value
  {
    if a.Number? && b.Number? then Number(a.hundredths - b.hundredths) else NaN
  }

  /** How a value prints inside a template literal. */
  function Show(v: Value): string
  {
    match v
    case Undefined => "undefined"
    case NaN => "NaN"
    case Number(h) => NumberToString(h)
  }

  /** Lines 113-139 as written, on the eight values they read: the fourth
      comparison checks the baseline statements rate against the current
      lines rate, and the methods step assigns where it should append.
      `None` stands for the failure branch not being taken. */
  function RegressionAsWritten(lineRate: Value, statementsRate: Value, methodsRate: Value, branchesRate: Value,
    originalLineRate: Value, originalStatementsRate: Value, originalMethodsRate: Value, originalBranchesRate: Value)
    : (description: Option<string>)
    ensures description.Some? ==> (FailurePrefix <= description.value <==> !Greater(originalMethodsRate, methodsRate))
  {
    if Greater(originalBranchesRate, branchesRate) || Greater(originalLineRate, lineRate)
      || Greater(originalMethodsRate, methodsRate) || Greater(originalStatementsRate, lineRate)
    then
      var c1, c2 := Greater(originalBranchesRate, branchesRate), Greater(originalLineRate, lineRate);
      var c3, c4 := Greater(originalMethodsRate, methodsRate), Greater(originalStatementsRate, statementsRate);
      var l1 := LineAsWritten("Branches", Minus(originalBranchesRate, branchesRate));
      var l2 := LineAsWritten("Line", Minus(originalLineRate, lineRate));
      var l3 := LineAsWritten("Methods", Minus(originalMethodsRate, methodsRate));
      var l4 := LineAsWritten("Statements", Minus(originalStatementsRate, statementsRate));
      HeadSurvives(l1, l2, l3, l4, c1, c2, c3, c4);
      var d1 := if c1 then FailurePrefix + l1 else FailurePrefix;
      var d2 := if c2 then d1 + l2 else d1;
      var d3 := if c3 then l3 else d2;
      var d4 := if c4 then d3 + l4 else d3;
      Some(d4)
    else None
  }

  /** One decrease line as the template literals of lines 121-138 write it. */
  function LineAsWritten(name: string, delta: Value): (line: string)
    ensures |line| > 0 && line[0] == '\n'
  {
    "\n" + name + " Coverage decrease - " + Show(delta) + "%"
  }

  /** The four steps of lines 120-139, three appending and the third
      assigning: the head survives exactly when the assigning step is skipped. */
  lemma HeadSurvives(l1: string, l2: string, l3: string, l4: string, c1: bool, c2: bool, c3: bool, c4: bool)
    requires |l3| > 0 && l3[0] == '\n'
    ensures var d1 := if c1 then FailurePrefix + l1 else FailurePrefix;
      var d2 := if c2 then d1 + l2 else d1;
      var d3 := if c3 then l3 else d2;
      var d4 := if c4 then d3 + l4 else d3;
      FailurePrefix <= d4 <==> !c3
  {
    var d1 := if c1 then FailurePrefix + l1 else FailurePrefix;
    var d2 := if c2 then d1 + l2 else d1;
    var d3 := if c3 then l3 else d2;
    var d4 := if c4 then d3 + l4 else d3;
    assert d3 <= d4;
    if c3 {
      assert d4[0] == '\n' && FailurePrefix[0] == 'F';
    } else {
      assert FailurePrefix <= d1 <= d2;
    }
  }

  /** `generateStatus` as written: the destructuring reads `lineRate`,
      `originalLineRate` and the like, which a category record does not have. */
  function GenerateStatusAsWritten(metric: Metric, targetUrl: string, statusContext: string, originalMetric: Option<Metric>)
    : (status: StatusPayload)
    ensures status.targetUrl == targetUrl && status.context == statusContext
  {
    var lineRate := Property(metric.lines, "lineRate");
    var statementsRate := Property(metric.statements, "statementsRate");
    var methodsRate := Property(metric.methods, "methodsRate");
    var branchesRate := Property(metric.branches, "branchesRate");
    var failure :=
      if originalMetric.None? then None
      else
        var original := originalMetric.value;
        RegressionAsWritten(lineRate, statementsRate, methodsRate, branchesRate,
          Property(original.lines, "originalLineRate"), Property(original.statements, "originalStatementsRate"),
          Property(original.methods, "originalMethodsRate"), Property(original.branches, "originalBranchesRate"));
    match failure
    case Some(description) => StatusPayload(Failure, description, targetUrl, statusContext)
    case None => StatusPayload(Success, SuccessDescription(Show(lineRate), Show(statementsRate), Show(methodsRate), Show(branchesRate)),
      targetUrl, statusContext)
  }

  /** As written, every compared value is `undefined`, so the check passes
      whatever the rates, and the description prints no rate at all. */
  lemma AsWrittenNeverFails(metric: Metric, targetUrl: string, statusContext: string, originalMetric: Option<Metric>)
    ensures GenerateStatusAsWritten(metric, targetUrl, statusContext, originalMetric)
      == StatusPayload(Success, SuccessDescription("undefined", "undefined", "undefined", "undefined"), targetUrl, statusContext)
  {
  }

  /** So a real drop goes unreported: branches falling is a failure for the
      intended rule and a success for the code as written. */
  lemma AsWrittenMissesDrop(metric: Metric, original: Metric, targetUrl: string, statusContext: string)
    requires original.branches.rate > metric.branches.rate
    ensures StatusOf(metric, targetUrl, statusContext, Some(original)).state == Failure
    ensures GenerateStatusAsWritten(metric, targetUrl, statusContext, Some(original)).state == Success
  {
    assert original.Get(Branches).rate > metric.Get(Branches).rate;
    var asWritten := GenerateStatusAsWritten(metric, targetUrl, statusContext, Some(original));
    AsWrittenNeverFails(metric, targetUrl, statusContext, Some(original));
    assert asWritten.state == Success;
  }

  /** Lines 113-139 with the destructuring of lines 96-111 reading each
      record's `rate`, leaving the two defects that remain. */
  function RegressionWithRates(metric: Metric, original: Metric): (description: Option<string>)
    ensures description.Some? ==>
      (FailurePrefix <= description.value <==> original.methods.rate <= metric.methods.rate)
  {
    RegressionAsWritten(Property(metric.lines, "rate"), Property(metric.statements, "rate"),
      Property(metric.methods, "rate"), Property(metric.branches, "rate"),
      Property(original.lines, "rate"), Property(original.statements, "rate"),
      Property(original.methods, "rate"), Property(original.branches, "rate"))
  }

  /** Line 117 compares the baseline statements rate with the current lines
      rate: a statements drop hidden by a high lines rate is not caught. */
  lemma CrossComparisonMissesDrop(metric: Metric, original: Metric)
    requires original.statements.rate > metric.statements.rate
    requires original.statements.rate <= metric.lines.rate
    requires original.branches.rate <= metric.branches.rate && original.lines.rate <= metric.lines.rate
    requires original.methods.rate <= metric.methods.rate
    ensures RegressionWithRates(metric, original) == None
    ensures Regressed(original, metric)
  {
    assert Decreased(original, metric, Statements);
  }

  /** And it fails a run in which no category dropped, with a description
      that lists nothing. */
  lemma CrossComparisonFailsWithoutDrop(metric: Metric, original: Metric)
    requires original.statements.rate > metric.lines.rate
    requires forall k :: original.Get(k).rate <= metric.Get(k).rate
    ensures RegressionWithRates(metric, original) == Some(FailurePrefix)
    ensures !Regressed(original, metric)
  {
    assert original.Get(Branches).rate <= metric.Get(Branches).rate;
    assert original.Get(Lines).rate <= metric.Get(Lines).rate;
    assert original.Get(Methods).rate <= metric.Get(Methods).rate;
    assert original.Get(Statements).rate <= metric.Get(Statements).rate;
  }

  /** Line 131 assigns instead of appending: when methods dropped (and
      statements did not), the description is the methods line alone, so the
      "Failure: " head and any branches or lines drop are gone. */
  lemma OverwriteDropsEarlierLines(metric: Metric, original: Metric)
    requires original.methods.rate > metric.methods.rate
    requires original.statements.rate <= metric.statements.rate
    ensures var r := RegressionWithRates(metric, original);
      && r == Some("\n" + "Methods" + " Coverage decrease - " + NumberToString(original.methods.rate - metric.methods.rate) + "%")
      && !(FailurePrefix <= r.value)
  {
    assert Show(Minus(Number(original.methods.rate), Number(metric.methods.rate)))
      == NumberToString(original.methods.rate - metric.methods.rate);
  }

  /** The same run under the intended rule keeps the head and every drop. */
  lemma IntendedKeepsEveryLine(metric: Metric, original: Metric, targetUrl: string, statusContext: string)
    requires original.branches.rate > metric.branches.rate && original.methods.rate > metric.methods.rate
    ensures var s := StatusOf(metric, targetUrl, statusContext, Some(original));
      var ls := Text.Lines(s.description);
      && s.state == Failure
      && |ls| >= 3
      && ls[0] == FailurePrefix
      && ls[1] == DecreaseText(Decrease(Branches, original.branches.rate - metric.branches.rate))
      && DecreaseText(Decrease(Methods, original.methods.rate - metric.methods.rate)) in ls
  {
    var j := BranchesAndMethodsDrops(original, metric);
    var ds := Decreases(original, metric);
    assert Regressed(original, metric) by { assert Decreased(original, metric, Branches); }
    FailureDescriptionLines(metric, targetUrl, statusContext, Some(original));
    var texts := DecreaseTexts(ds);
    assert texts[0] == DecreaseText(ds[0]) && texts[j] == DecreaseText(ds[j]);
    var ls := [FailurePrefix] + texts;
    assert ls[1] == texts[0] && ls[j + 1] == texts[j];
  }

  /** When branches and methods both drop, branches is reported first and
      methods at some later place `j`. */
  lemma BranchesAndMethodsDrops(original: Metric, metric: Metric) returns (j: nat)
    requires original.branches.rate > metric.branches.rate && original.methods.rate > metric.methods.rate
    ensures var ds := Decreases(original, metric);
      && 0 < j < |ds|
      && ds[0] == Decrease(Branches, original.branches.rate - metric.branches.rate)
      && ds[j] == Decrease(Methods, original.methods.rate - metric.methods.rate)
  {
    assert Decreased(original, metric, Branches);
    assert Decreased(original, metric, Methods);
    DecreasesExact(original, metric);
    var ds := Decreases(original, metric);
    var i :| 0 <= i < |ds| && ds[i].kind == Branches;
    j :| 0 <= j < |ds| && ds[j].kind == Methods;
    assert Position(ds[0].kind) <= Position(ds[i].kind) == 0;
    assert ds[0].kind == Branches;
  }
}
