/** The markdown comment the action renders from a metric (index.js:67-93). */
module Comment {
  import opened Wrappers
  import opened Coverage
  import opened Decimal
  import Text

  const MarkerPrefix := "<!-- coverage-monitor-action: "
  const MarkerSuffix := " -->"

  /** The marker line that opens every comment of this action; the configured
      comment context is all that tells two configurations apart. */
  function GenerateCommentHeader(commentContext: string): (header: string)
    ensures ContextOfHeader(header) == Some(commentContext)
  {
    var h := MarkerPrefix + commentContext + MarkerSuffix;
    assert h[..|MarkerPrefix|] == MarkerPrefix;
    assert h[|h| - |MarkerSuffix|..] == MarkerSuffix;
    assert h[|MarkerPrefix|..|h| - |MarkerSuffix|] == commentContext;
    h
  }

  /** The context a marker line names, or `None` for a line that is not a marker. */
  function ContextOfHeader(line: string): Option<string>
  {
    if |line| >= |MarkerPrefix| + |MarkerSuffix|
      && line[..|MarkerPrefix|] == MarkerPrefix && line[|line| - |MarkerSuffix|..] == MarkerSuffix
    then Some(line[|MarkerPrefix|..|line| - |MarkerSuffix|])
    else None
  }

  /** Different contexts give different markers. */
  lemma HeaderInjective(a: string, b: string)
    requires GenerateCommentHeader(a) == GenerateCommentHeader(b)
    ensures a == b
  {
    assert ContextOfHeader(GenerateCommentHeader(a)) == Some(a);
  }

  /** The suffix exactly as index.js:74 spells it: a blank and the four
      characters U+00F0 U+0178 U+017D U+2030, which are the UTF-8 bytes of the
      party-popper emoji U+1F389 read as Windows-1252. */
  const Celebration := " \U{F0}\U{178}\U{17D}\U{2030}"

  /** The heading is celebrated exactly when the lines rate is 100%. */
  function GenerateEmoji(metric: Metric): (emoji: string)
    ensures emoji == Celebration || emoji == ""
    ensures emoji == Celebration <==> metric.lines.rate == 10000
  {
    if metric.lines.rate == 10000 then Celebration else ""
  }

  /** `Math.round` of a rate given in hundredths: the nearest whole percent,
      halves upwards. */
  function RoundRate(h: nat): (n: nat)
    ensures 100 * n <= h + 50 < 100 * n + 100
  {
    (h + 50) / 100
  }

  const BadgePrefix := "https://img.shields.io/" + "static/v1?label=" + "coverage&message="

  /** The badge image for the lines rate. The colour is `metric.level`,
      which nothing ever sets, so it prints as "undefined". */
  function GenerateBadgeUrl(metric: Metric): (url: string)
    ensures |url| > |BadgePrefix| && url[..|BadgePrefix|] == BadgePrefix
    ensures url[|BadgePrefix|..] == NatToString(RoundRate(metric.lines.rate)) + "%&color=undefined"
  {
    var u := BadgePrefix + NatToString(RoundRate(metric.lines.rate)) + "%&color=" + "undefined";
    assert u[..|BadgePrefix|] == BadgePrefix;
    u
  }

  /** A category as a detail cell: `{rate}% ( {covered} / {total} )`. */
  function GenerateInfo(c: Category): (cell: string)
    ensures '\n' !in cell
  {
    RateLacks(c.rate, '\n');
    DigitsLack(NatToString(c.covered), '\n');
    DigitsLack(NatToString(c.total), '\n');
    NumberToString(c.rate) + "% ( " + NatToString(c.covered) + " / " + NatToString(c.total) + " )"
  }

  /** The three numbers a detail cell shows. */
  datatype Info = Info(rate: nat, covered: nat, total: nat)

  /** Reads a detail cell back: six words separated by single blanks. */
  function ParseInfo(s: string): Option<Info>
  {
    var w := Text.Split(s, ' ');
    if |w| == 6 && |w[0]| >= 1 && w[0][|w[0]| - 1] == '%' && w[1] == "(" && w[3] == "/" && w[5] == ")"
      && IsDigits(w[2]) && IsDigits(w[4])
    then
      match ParseHundredths(w[0][..|w[0]| - 1])
      case Some(r) => Some(Info(r, ParseNat(w[2]), ParseNat(w[4])))
      case None => None
    else None
  }

  lemma DigitsLack(s: string, c: char)
    requires IsDigits(s) && !IsDigit(c)
    ensures c !in s
  {
    forall i | 0 <= i < |s| ensures s[i] != c { }
  }

  lemma RateLacks(h: nat, c: char)
    requires !IsDigit(c) && c != '.' && c != '-'
    ensures c !in NumberToString(h)
  {
    var s := NumberToString(h);
    forall i | 0 <= i < |s| ensures s[i] != c { }
  }

  /** The detail cell as its six blank-separated words. */
  lemma InfoWords(c: Category)
    ensures GenerateInfo(c)
      == (NumberToString(c.rate) + "%") + [' '] + ("(" + [' '] + (NatToString(c.covered) + [' ']
         + ("/" + [' '] + (NatToString(c.total) + [' '] + ")"))))
  {
  }

  /** The last two words of a detail cell: the total and the closing parenthesis. */
  lemma SplitTotal(t: string)
    requires ' ' !in t
    ensures Text.Split(t + [' '] + ")", ' ') == [t, ")"]
  {
    Text.SplitCons(t, ' ', ")");
    Text.SplitSingle(")", ' ');
  }

  /** The last four words of a detail cell, from the covered count on. */
  lemma SplitCounts(cv: string, t: string)
    requires ' ' !in cv && ' ' !in t
    ensures Text.Split(cv + [' '] + ("/" + [' '] + (t + [' '] + ")")), ' ') == [cv, "/", t, ")"]
  {
    var t5 := t + [' '] + ")";
    SplitTotal(t);
    Text.SplitCons("/", ' ', t5);
    Text.SplitCons(cv, ' ', "/" + [' '] + t5);
  }

  lemma InfoSplit(c: Category)
    ensures Text.Split(GenerateInfo(c), ' ')
      == [NumberToString(c.rate) + "%", "(", NatToString(c.covered), "/", NatToString(c.total), ")"]
  {
    var r, cv, t := NumberToString(c.rate), NatToString(c.covered), NatToString(c.total);
    RateLacks(c.rate, ' ');
    DigitsLack(cv, ' ');
    DigitsLack(t, ' ');
    var w0 := r + "%";
    assert ' ' !in w0 by {
      forall i | 0 <= i < |w0| ensures w0[i] != ' ' { if i < |r| { assert w0[i] == r[i]; } }
    }
    InfoWords(c);
    var t3 := cv + [' '] + ("/" + [' '] + (t + [' '] + ")"));
    SplitCounts(cv, t);
    Text.SplitCons("(", ' ', t3);
    Text.SplitCons(w0, ' ', "(" + [' '] + t3);
  }

  /** A detail cell loses nothing: its rate, covered and total counts can
      be read back from it. */
  lemma ParseGenerateInfo(c: Category)
    ensures ParseInfo(GenerateInfo(c)) == Some(Info(c.rate, c.covered, c.total))
  {
    var r := NumberToString(c.rate);
    InfoSplit(c);
    var w0 := r + "%";
    assert w0[..|w0| - 1] == r;
    ParseHundredthsToString(c.rate);
    ParseNatToString(c.covered);
    ParseNatToString(c.total);
  }

  /** The rows of the comment body: marker, heading, badge row, table rule
      and two detail rows. The row labelled "Statements:" shows the lines
      category, which the report's `statements` attribute fills. */
  function TableRows(metric: Metric, commentContext: string): (rows: seq<string>)
    ensures |rows| == 6
    ensures ContextOfHeader(rows[0]) == Some(commentContext)
  {
    [ GenerateCommentHeader(commentContext),
      "## " + commentContext + GenerateEmoji(metric),
      "|  Totals | ![Coverage](" + GenerateBadgeUrl(metric) + ") |",
      "| :-- | --: |",
      "| Statements: | " + GenerateInfo(metric.lines) + " |",
      "| Methods: | " + GenerateInfo(metric.methods) + " |" ]
  }

  /** The comment body: every row followed by a line break. Whatever the
      context, it opens with the marker line and a line break. */
  function GenerateTable(metric: Metric, commentContext: string): (table: string)
    ensures var header := GenerateCommentHeader(commentContext);
      |table| > |header| && table[..|header|] == header && table[|header|] == '\n'
  {
    var rows := TableRows(metric, commentContext);
    assert Text.JoinLines(rows) == rows[0] + "\n" + Text.JoinLines(rows[1..]);
    Text.JoinLines(rows)
  }

  lemma NoLineBreakInBadgePrefix()
    ensures '\n' !in BadgePrefix
  {
    assert '\n' !in "https://img.shields.io/" && '\n' !in "static/v1?label=" && '\n' !in "coverage&message=";
  }

  lemma NoLineBreakInBadge(metric: Metric)
    ensures '\n' !in GenerateBadgeUrl(metric)
  {
    var digits := NatToString(RoundRate(metric.lines.rate));
    DigitsLack(digits, '\n');
    NoLineBreakInBadgePrefix();
    assert GenerateBadgeUrl(metric) == BadgePrefix + digits + "%&color=" + "undefined";
  }

  lemma NoLineBreakInHeader(commentContext: string)
    requires '\n' !in commentContext
    ensures '\n' !in GenerateCommentHeader(commentContext)
  {
    assert '\n' !in MarkerPrefix && '\n' !in MarkerSuffix;
  }

  lemma NoLineBreakInHeading(metric: Metric, commentContext: string)
    requires '\n' !in commentContext
    ensures '\n' !in "## " + commentContext + GenerateEmoji(metric)
  {
  }

  lemma NoLineBreakInBadgeRow(metric: Metric)
    ensures '\n' !in "|  Totals | ![Coverage](" + GenerateBadgeUrl(metric) + ") |"
  {
    NoLineBreakInBadge(metric);
    assert '\n' !in "|  Totals | " && '\n' !in "![Coverage](";
    assert "|  Totals | ![Coverage](" == "|  Totals | " + "![Coverage](";
  }

  lemma NoLineBreakInInfoRow(head: string, c: Category)
    requires '\n' !in head
    ensures '\n' !in head + GenerateInfo(c) + " |"
  {
  }

  /** No row of the comment body holds a line break of its own. */
  lemma NoLineBreakInRows(metric: Metric, commentContext: string)
    requires '\n' !in commentContext
    ensures forall row <- TableRows(metric, commentContext) :: '\n' !in row
  {
    NoLineBreakInHeader(commentContext);
    NoLineBreakInHeading(metric, commentContext);
    NoLineBreakInBadgeRow(metric);
    NoLineBreakInInfoRow("| Statements: | ", metric.lines);
    NoLineBreakInInfoRow("| Methods: | ", metric.methods);
  }

  /** With a one-line context, the body reads line by line as: the marker,
      from which the context is read back; the heading, celebrated only at a
      100% lines rate; the badge row; the rule; the two detail rows; and the
      empty piece after the final line break. */
  lemma TableLayout(metric: Metric, commentContext: string)
    requires '\n' !in commentContext
    ensures var lines := Text.Lines(GenerateTable(metric, commentContext));
      && |lines| == 7
      && lines[0] == GenerateCommentHeader(commentContext)
      && ContextOfHeader(lines[0]) == Some(commentContext)
      && lines[1] == "## " + commentContext + (if metric.lines.rate == 10000 then Celebration else "")
      && lines[2] == "|  Totals | ![Coverage](" + GenerateBadgeUrl(metric) + ") |"
      && lines[3] == "| :-- | --: |"
      && lines[4] == "| Statements: | " + GenerateInfo(metric.lines) + " |"
      && lines[5] == "| Methods: | " + GenerateInfo(metric.methods) + " |"
      && lines[6] == ""
  {
    var rows := TableRows(metric, commentContext);
    NoLineBreakInRows(metric, commentContext);
    Text.LinesOfJoinLines(rows);
  }
}
