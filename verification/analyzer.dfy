/** `analyzeCode` of `lib/analyzer.js`: the side-effect-free analyzer. Each
    line is looked at on its own by four detectors, in a fixed order, and
    rewritten; the issues and the rewritten lines are then collected. */
module Analyzer {
  import opened Wrappers
  import opened Text
  import opened Patterns
  import opened Replace
  import opened Issues
  import opened Summary

  /** The argument of `analyzeCode`, reduced to what its type guard inspects. */
  datatype JsValue = JsString(text: string) | JsNumber | JsBoolean | JsNull | JsUndefined | JsObject

  datatype TypeError = TypeError(message: string)

  datatype AnalysisResult = AnalysisResult(
    issues: seq<Issue>,
    fixedCode: string,
    summary: string,
    stats: Stats)

  /** The issues one line yields, and its rewritten form. */
  datatype LineOutcome = LineOutcome(issues: seq<Issue>, fixed: string)

  const LoggingText := "Remove console logging in production code."
  const VarTextHead := "Use block-scoped declarations instead of var for "
  const EqualityText := "Prefer strict equality checks (===) over loose equality."
  const TerminatorText := "Terminate statements with semicolons for consistency."

  function LoggingIssue(n: nat): Issue {
    Issue(Warning, Logging, n, LoggingText, Medium)
  }

  function VarIssue(n: nat, name: string): Issue {
    Issue(Error, BestPractice, n, VarTextHead + name + ".", High)
  }

  function EqualityIssue(n: nat): Issue {
    Issue(Warning, BestPractice, n, EqualityText, Medium)
  }

  function TerminatorIssue(n: nat): Issue {
    Issue(Suggestion, Syntax, n, TerminatorText, Low)
  }

  predicate OnlyLogging(issues: seq<Issue>) {
    forall k :: 0 <= k < |issues| ==> issues[k].category == Logging
  }

  /** `line.replace(varRegex, `let ${variableName}`)` as written, for the
      leftmost match at `i`: the template is expanded as a replacement
      pattern, so a `$1` or `$$` inside the name is expanded too. */
  function ReplaceBindingAsWritten(line: string, i: nat): (w: string)
    requires i <= |line| && MatchesAt(VarBinding, line, i)
    ensures |w| >= i + 4 && w[..i] == line[..i] && w[i..i + 4] == "let "
    ensures |line| - BindingEnd(line, i) <= |w| - (i + 4)
    ensures w[|w| - (|line| - BindingEnd(line, i))..] == line[BindingEnd(line, i)..]
    ensures '\n' !in line ==> '\n' !in w
  {
    var e := BindingEnd(line, i);
    var name := BindingName(line, i);
    var cap := Captures(line[i..e], line[..i], line[e..], name);
    var middle := "let " + Substitute(name, cap);
    ConcatParts(line[..i], middle, line[e..]);
    ConcatMiddlePrefix(line[..i], middle, line[e..], 4);
    assert middle[..4] == "let ";
    if '\n' in line then line[..i] + middle + line[e..]
    else
      SliceAvoids(line, 0, i, '\n');
      SliceAvoids(line, i, e, '\n');
      SliceAvoids(line, e, |line|, '\n');
      SliceAvoids(line, AfterKeyword(line, i), e, '\n');
      assert name == line[AfterKeyword(line, i)..e];
      SubstituteAvoids(name, cap, '\n');
      assert '\n' !in "let ";
      assert '\n' !in middle;
      line[..i] + middle + line[e..]
  }

  /** The `var` rewrite the analyzer means: the keyword and the spaces after
      it become `let `, and the name and the rest of the line are kept as
      they are. */
  function ReplaceBinding(line: string, i: nat): (w: string)
    requires i <= |line| && MatchesAt(VarBinding, line, i)
    ensures |w| >= i + 4 && w[..i] == line[..i] && w[i] == 'l'
    ensures w[i + 4..] == line[AfterKeyword(line, i)..]
    ensures '\n' !in line ==> '\n' !in w
  {
    var w := line[..i] + ("let " + line[AfterKeyword(line, i)..]);
    assert w[i + 4..] == line[AfterKeyword(line, i)..];
    assert w[..i] == line[..i];
    if '\n' in line then w
    else
      SliceAvoids(line, 0, i, '\n');
      SliceAvoids(line, AfterKeyword(line, i), |line|, '\n');
      w
  }

  /** The working line after the `var` detector. */
  function AfterVar(line: string): (w: string)
    ensures '\n' !in line ==> '\n' !in w
  {
    match FindFirst(VarBinding, line, 0)
    case None => line
    case Some(i) => ReplaceBinding(line, i)
  }

  /** The loose-equality detector on the working line: the rewritten line,
      and whether anything was rewritten. */
  function EqualityStep(w: string): (res: (string, bool))
    ensures '\n' !in w ==> '\n' !in res.0
  {
    var strict := Strictify(LineRule, w);
    InWithout(strict.0, '\n', '=');
    InWithout(w, '\n', '=');
    (strict.0, strict.1 > 0)
  }

  /** `line.replace(/\s+$/, '') + ';'`: the working line without its
      trailing white space, then `;`. */
  function Terminate(w: string): (r: string)
    ensures |r| > 0 && r[|r| - 1] == ';'
    ensures |r| - 1 <= |w| && r[..|r| - 1] == w[..|r| - 1]
    ensures forall k :: |r| - 1 <= k < |w| ==> IsSpace(w[k])
    ensures |r| == 1 || !IsSpace(r[|r| - 2])
    ensures '\n' !in w ==> '\n' !in r
  {
    var t := TrimEnd(w);
    if '\n' in w then t + ";"
    else
      SliceAvoids(w, 0, |t|, '\n');
      t + ";"
  }

  /** The name the `var` detector reports, if it fires. */
  function VarName(line: string): Option<string> {
    match FindFirst(VarBinding, line, 0)
    case None => None
    case Some(i) => Some(BindingName(line, i))
  }

  /** The outcome of a line from what each detector found: whether the
      logging detector fired, the name the `var` detector reports, the line
      after the loose-equality rewrite with whether it fired, and whether the
      line lacks a terminator. */
  function Assemble(n: nat, logging: bool, varName: Option<string>, strict: (string, bool), terminate: bool)
    : (out: LineOutcome)
    ensures forall k :: 0 <= k < |out.issues| ==> out.issues[k].line == n
    ensures Ordered(out.issues)
    ensures '\n' !in strict.0 ==> '\n' !in out.fixed
  {
    var found := Findings(
      if logging then Some(LoggingIssue(n)) else None,
      if varName.Some? then Some(VarIssue(n, varName.value)) else None,
      if strict.1 then Some(EqualityIssue(n)) else None,
      if terminate then Some(TerminatorIssue(n)) else None);
    LineOutcome(InDetectorOrder(found, n), if terminate then Terminate(strict.0) else strict.0)
  }

  /** One iteration of the loop of `analyzeCode` for line number `n`: the
      detectors all look at the line as it was read, except the loose-equality
      rewrite, which works on the line after the `var` rewrite. */
  function AnalyzeLine(line: string, n: nat): (out: LineOutcome)
    ensures forall k :: 0 <= k < |out.issues| ==> out.issues[k].line == n
    ensures Ordered(out.issues)
    ensures '\n' !in line ==> '\n' !in out.fixed
  {
    Assemble(n, Occurs(ConsoleLogToken, line), VarName(line), EqualityStep(AfterVar(line)),
      LacksTerminator(Trim(line)))
  }

  /** Each outcome's issues carry its own line number, counting from `first`. */
  predicate LinesFrom(outcomes: seq<LineOutcome>, first: nat) {
    forall i :: 0 <= i < |outcomes| ==>
      forall k :: 0 <= k < |outcomes[i].issues| ==> outcomes[i].issues[k].line == first + i
  }

  /** Each outcome's issues are ordered and carry its own line number. */
  predicate Numbered(outcomes: seq<LineOutcome>, first: nat) {
    && LinesFrom(outcomes, first)
    && forall i :: 0 <= i < |outcomes| ==> Ordered(outcomes[i].issues)
  }

  /** `f` applied to each line with its number, counting from `first`. */
  function MapLines(f: (string, nat) -> LineOutcome, lines: seq<string>, first: nat): (outcomes: seq<LineOutcome>)
    ensures |outcomes| == |lines|
    decreases |lines|
  {
    if |lines| == 0 then [] else [f(lines[0], first)] + MapLines(f, lines[1..], first + 1)
  }

  lemma {:induction false} MapLinesAt(f: (string, nat) -> LineOutcome, lines: seq<string>, first: nat, i: nat)
    requires i < |lines|
    ensures MapLines(f, lines, first)[i] == f(lines[i], first + i)
    decreases i
  {
    if i > 0 {
      MapLinesAt(f, lines[1..], first + 1, i - 1);
      assert lines[1..][i - 1] == lines[i];
    }
  }

  /** What each iteration of the loop of `analyzeCode` finds, line by line,
      numbering the lines from `first`. */
  function Outcomes(lines: seq<string>, first: nat): (outcomes: seq<LineOutcome>)
    ensures |outcomes| == |lines|
  {
    MapLines(AnalyzeLine, lines, first)
  }

  /** Outcome `i` is what line `i` yields on its own, under its number. */
  lemma OutcomesAt(lines: seq<string>, first: nat, i: nat)
    requires i < |lines|
    ensures Outcomes(lines, first)[i] == AnalyzeLine(lines[i], first + i)
  {
    MapLinesAt(AnalyzeLine, lines, first, i);
  }

  /** Every outcome is ordered and numbered by its own line. */
  lemma OutcomesNumbered(lines: seq<string>, first: nat)
    ensures Numbered(Outcomes(lines, first), first)
  {
    var outcomes := Outcomes(lines, first);
    forall i | 0 <= i < |lines|
      ensures Ordered(outcomes[i].issues)
      ensures forall k :: 0 <= k < |outcomes[i].issues| ==> outcomes[i].issues[k].line == first + i
    {
      OutcomesAt(lines, first, i);
    }
  }

  /** Lines without a line feed are rewritten into lines without one. */
  lemma FixedLinesSingle(lines: seq<string>, first: nat)
    requires forall k :: 0 <= k < |lines| ==> '\n' !in lines[k]
    ensures forall k :: 0 <= k < |lines| ==> '\n' !in FixedLines(Outcomes(lines, first))[k]
  {
    forall k | 0 <= k < |lines|
      ensures '\n' !in FixedLines(Outcomes(lines, first))[k]
    {
      OutcomesAt(lines, first, k);
    }
  }

  lemma LinesFromTail(outcomes: seq<LineOutcome>, first: nat)
    requires |outcomes| > 0 && LinesFrom(outcomes, first)
    ensures LinesFrom(outcomes[1..], first + 1)
  {
    forall i | 0 <= i < |outcomes| - 1 ensures outcomes[1..][i] == outcomes[i + 1] { }
  }

  lemma NumberedTail(outcomes: seq<LineOutcome>, first: nat)
    requires |outcomes| > 0 && Numbered(outcomes, first)
    ensures Numbered(outcomes[1..], first + 1)
  {
    LinesFromTail(outcomes, first);
    forall i | 0 <= i < |outcomes| - 1 ensures outcomes[1..][i] == outcomes[i + 1] { }
  }

  /** The issues of each outcome in turn. */
  function Concat(outcomes: seq<LineOutcome>): seq<Issue> {
    if |outcomes| == 0 then [] else outcomes[0].issues + Concat(outcomes[1..])
  }

  lemma {:induction false} ConcatNumbered(outcomes: seq<LineOutcome>, first: nat)
    requires Numbered(outcomes, first)
    ensures forall k :: 0 <= k < |Concat(outcomes)| ==> first <= Concat(outcomes)[k].line < first + |outcomes|
    ensures Ordered(Concat(outcomes))
    decreases |outcomes|
  {
    if |outcomes| > 0 {
      NumberedTail(outcomes, first);
      ConcatNumbered(outcomes[1..], first + 1);
      var head := outcomes[0].issues;
      var tail := Concat(outcomes[1..]);
      OrderedAppend(head, tail);
      forall k | 0 <= k < |head + tail|
        ensures first <= (head + tail)[k].line < first + |outcomes|
      {
        if k >= |head| { assert (head + tail)[k] == tail[k - |head|]; }
      }
    }
  }

  /** The `issues` array the loop fills: the issues of each line in turn. */
  function Collect(outcomes: seq<LineOutcome>, first: nat): (issues: seq<Issue>)
    requires Numbered(outcomes, first)
    ensures forall k :: 0 <= k < |issues| ==> first <= issues[k].line < first + |outcomes|
    ensures Ordered(issues)
  {
    ConcatNumbered(outcomes, first);
    Concat(outcomes)
  }

  /** The `fixedLines` array the loop fills. */
  function FixedLines(outcomes: seq<LineOutcome>): (fixed: seq<string>)
    ensures |fixed| == |outcomes|
    ensures forall i :: 0 <= i < |outcomes| ==> fixed[i] == outcomes[i].fixed
  {
    seq(|outcomes|, i requires 0 <= i < |outcomes| => outcomes[i].fixed)
  }

  /** `analyzeCode(code)` for a string argument. */
  function Analyze(code: string): (r: AnalysisResult)
    ensures |Split(r.fixedCode)| == |Split(code)|
    ensures forall k :: 0 <= k < |r.issues| ==> 1 <= r.issues[k].line <= |Split(code)|
    ensures Ordered(r.issues)
    ensures r.stats.total == |r.issues| == r.stats.errors + r.stats.warnings + r.stats.suggestions
    ensures r.stats.errors == CountOf(Kinds(r.issues), Error)
    ensures r.stats.warnings == CountOf(Kinds(r.issues), Warning)
    ensures r.stats.suggestions == CountOf(Kinds(r.issues), Suggestion)
    ensures r.summary == NoIssues <==> r.issues == []
  {
    var lines := Split(code);
    var outcomes := Outcomes(lines, 1);
    OutcomesNumbered(lines, 1);
    var issues := Collect(outcomes, 1);
    var fixedLines := FixedLines(outcomes);
    FixedLinesSingle(lines, 1);
    SplitJoin(fixedLines);
    var stats := Tally(Kinds(issues));
    AnalysisResult(issues, Join(fixedLines),
      CanonicalSummary(stats.errors, stats.warnings, stats.suggestions), stats)
  }

  /** `analyzeCode(code)`: anything but a string is refused with a
      `TypeError` before a line is looked at. */
  function AnalyzeCode(code: JsValue): (r: Result<AnalysisResult, TypeError>)
    ensures r.Failure? <==> !code.JsString?
    ensures r.Failure? ==> r.error == TypeError("Code must be a string")
    ensures r.Success? ==> r.value == Analyze(code.text)
  {
    if !code.JsString? then Failure(TypeError("Code must be a string"))
    else Success(Analyze(code.text))
  }

  /** Each detector that fires reports exactly once, in detector order, and
      no other issue is reported. */
  lemma AssembleStages(n: nat, logging: bool, varName: Option<string>, strict: (string, bool), terminate: bool)
    ensures Stages(Assemble(n, logging, varName, strict, terminate).issues)
         == Flag(logging, 0) + (Flag(varName.Some?, 1) + (Flag(strict.1, 2) + Flag(terminate, 3)))
  {
    var found := Findings(
      if logging then Some(LoggingIssue(n)) else None,
      if varName.Some? then Some(VarIssue(n, varName.value)) else None,
      if strict.1 then Some(EqualityIssue(n)) else None,
      if terminate then Some(TerminatorIssue(n)) else None);
    InDetectorOrderStages(found, n);
  }

  /** Each issue of a line is the record of the detector that emits it. */
  lemma AssembleRecords(n: nat, logging: bool, varName: Option<string>, strict: (string, bool), terminate: bool)
    ensures forall k :: 0 <= k < |Assemble(n, logging, varName, strict, terminate).issues| ==>
      var issue := Assemble(n, logging, varName, strict, terminate).issues[k];
      && (StageOf(issue) == 0 ==> issue == LoggingIssue(n))
      && (StageOf(issue) == 1 ==> varName.Some? && issue == VarIssue(n, varName.value))
      && (StageOf(issue) == 2 ==> issue == EqualityIssue(n))
      && (StageOf(issue) == 3 ==> issue == TerminatorIssue(n))
      && StageOf(issue) <= 3
  {
    var found := Findings(
      if logging then Some(LoggingIssue(n)) else None,
      if varName.Some? then Some(VarIssue(n, varName.value)) else None,
      if strict.1 then Some(EqualityIssue(n)) else None,
      if terminate then Some(TerminatorIssue(n)) else None);
    InDetectorOrderMembers(found, n);
  }

  /** The records a line yields: the logging, equality and terminator
      records are fixed apart from the line number, and the `var` record
      names the identifier the leftmost declaration binds. */
  lemma LineRecords(line: string, n: nat)
    ensures forall k :: 0 <= k < |AnalyzeLine(line, n).issues| ==>
      var issue := AnalyzeLine(line, n).issues[k];
      && (StageOf(issue) == 0 ==> issue == LoggingIssue(n))
      && (StageOf(issue) == 1 ==> VarName(line).Some? && issue == VarIssue(n, VarName(line).value))
      && (StageOf(issue) == 2 ==> issue == EqualityIssue(n))
      && (StageOf(issue) == 3 ==> issue == TerminatorIssue(n))
      && StageOf(issue) <= 3
  {
    AssembleRecords(n, Occurs(ConsoleLogToken, line), VarName(line), EqualityStep(AfterVar(line)),
      LacksTerminator(Trim(line)));
  }

  /** The four detectors of one line, each against an independent statement
      of when it fires: the logging and `var` patterns anywhere in the line
      as read, loose equality anywhere in the line after the `var` rewrite,
      and the terminator test on the trimmed line as read. */
  lemma LineDetectors(line: string, n: nat)
    ensures Stages(AnalyzeLine(line, n).issues)
         == Flag(exists i :: 0 <= i <= |line| && MatchesAt(ConsoleLogToken, line, i), 0)
          + (Flag(exists i :: 0 <= i <= |line| && MatchesAt(VarBinding, line, i), 1)
          + (Flag(exists q :: 0 <= q < |AfterVar(line)| && LooseEqualityAt(LineRule, AfterVar(line), q).Some?, 2)
          + Flag(LacksTerminator(Trim(line)), 3)))
  {
    OccursIff(ConsoleLogToken, line);
    OccursIff(VarBinding, line);
    assert VarName(line).Some? == Occurs(VarBinding, line);
    AssembleStages(n, Occurs(ConsoleLogToken, line), VarName(line), EqualityStep(AfterVar(line)),
      LacksTerminator(Trim(line)));
  }

  /** The `var` detector reports the name the leftmost match binds. */
  lemma VarNameLeftmost(line: string, i: nat)
    requires i <= |line| && MatchesAt(VarBinding, line, i)
    requires forall j :: 0 <= j < i ==> !MatchesAt(VarBinding, line, j)
    ensures FindFirst(VarBinding, line, 0) == Some(i)
    ensures VarName(line) == Some(BindingName(line, i))
  {
  }

  /** The `var` rewrite puts `let ` in place of the leftmost keyword and
      the spaces after it, keeping the bound name and the rest of the line. */
  lemma VarRewrite(line: string, i: nat)
    requires i <= |line| && MatchesAt(VarBinding, line, i)
    requires forall j :: 0 <= j < i ==> !MatchesAt(VarBinding, line, j)
    ensures AfterVar(line) == line[..i] + "let " + BindingName(line, i) + line[BindingEnd(line, i)..]
  {
    VarNameLeftmost(line, i);
    assert AfterVar(line) == ReplaceBinding(line, i);
    BindingSplit(line, i);
  }

  /** The corrected rewrite, spelled with the bound name. */
  lemma BindingSplit(line: string, i: nat)
    requires i <= |line| && MatchesAt(VarBinding, line, i)
    ensures ReplaceBinding(line, i) == line[..i] + "let " + BindingName(line, i) + line[BindingEnd(line, i)..]
  {
    var k := AfterKeyword(line, i);
    var e := BindingEnd(line, i);
    assert line[k..] == line[k..e] + line[e..];
    Regroup(line[..i], "let ", line[k..e], line[e..]);
  }

  lemma Regroup(a: string, b: string, c: string, d: string)
    ensures a + (b + (c + d)) == a + b + c + d
  {
  }

  /** The code as written agrees with the intended rewrite whenever the
      bound name holds no `$`. */
  lemma AsWrittenWithoutDollar(line: string, i: nat)
    requires i <= |line| && MatchesAt(VarBinding, line, i)
    requires '$' !in BindingName(line, i)
    ensures ReplaceBindingAsWritten(line, i) == ReplaceBinding(line, i)
  {
    var k := AfterKeyword(line, i);
    var e := BindingEnd(line, i);
    AsWrittenShape(line, i);
    assert line[k..] == line[k..e] + line[e..];
    AppendAssoc("let ", line[k..e], line[e..]);
    AppendAssoc(line[..i], "let " + line[k..e], line[e..]);
  }

  /** A name that ends in `$1` after some `$`-free text is doubled in front
      by the code as written: the `$1` in the template is replaced by the
      whole name. With `var a$1 = 2` the line becomes `let aa$1 = 2`. */
  lemma DollarNameRenamed(line: string, i: nat, p: string)
    requires i <= |line| && MatchesAt(VarBinding, line, i)
    requires BindingName(line, i) == p + "$1" && |p| > 0 && '$' !in p
    ensures ReplaceBindingAsWritten(line, i)
         == line[..i] + ("let " + (p + BindingName(line, i))) + line[BindingEnd(line, i)..]
    ensures ReplaceBindingAsWritten(line, i) != ReplaceBinding(line, i)
  {
    var e := BindingEnd(line, i);
    var name := BindingName(line, i);
    AsWrittenShape(line, i);
    DollarTemplate(p, Captures(line[i..e], line[..i], line[e..], name));
    assert |ReplaceBinding(line, i)| == i + 4 + |line| - AfterKeyword(line, i);
  }

  /** The code as written puts `let ` and the expanded name where the match
      was. */
  lemma AsWrittenShape(line: string, i: nat)
    requires i <= |line| && MatchesAt(VarBinding, line, i)
    ensures var e := BindingEnd(line, i);
      ReplaceBindingAsWritten(line, i)
      == line[..i] + ("let " + Substitute(BindingName(line, i), Captures(line[i..e], line[..i], line[e..], BindingName(line, i))))
         + line[e..]
  {
  }

  /** A group `<p>$1` expands, as a template, to `<p>` followed by the
      group. */
  lemma DollarTemplate(p: string, cap: Captures)
    requires cap.group == p + "$1" && '$' !in p
    ensures Substitute(cap.group, cap) == p + cap.group
  {
    SubstituteLiteralPrefix(p, "$1", cap);
    FirstGroup(cap);
  }

  const DollarLine := "var a$1 = 2"

  /** `var a$1 = 2` binds `a$1`, and the match ends before the ` = 2`. */
  lemma DollarLineMatch()
    ensures MatchesAt(VarBinding, DollarLine, 0)
    ensures BindingName(DollarLine, 0) == "a" + "$1"
    ensures BindingEnd(DollarLine, 0) == 7
  {
    var line := DollarLine;
    assert line[..3] == "var";
    assert IsSpace(line[3]) && !IsSpace(line[4]);
    assert SpanEnd(line, 4, Space) == 4;
    assert SpanEnd(line, 3, Space) == 4;
    assert IsIdentPart(line[4]) && IsIdentPart(line[5]) && IsIdentPart(line[6]) && !IsIdentPart(line[7]);
    assert SpanEnd(line, 7, IdentPart) == 7;
    assert SpanEnd(line, 6, IdentPart) == 7;
    assert SpanEnd(line, 5, IdentPart) == 7;
    assert SpanEnd(line, 4, IdentPart) == 7;
    assert line[4..7] == "a$1";
  }

  /** The input that shows it: `var a$1 = 2` comes out of the code as
      written as `let aa$1 = 2`, where `let a$1 = 2` was meant. */
  lemma DollarNameExample()
    ensures ReplaceBindingAsWritten(DollarLine, 0) == "let aa$1 = 2"
    ensures AfterVar(DollarLine) == "let a$1 = 2"
  {
    var line := DollarLine;
    DollarLineMatch();
    var rest := line[7..];
    assert rest == " = 2";
    DollarNameRenamed(line, 0, "a");
    VarRewrite(line, 0);
    assert line[..0] == "";
    DollarSpelling(rest);
  }

  lemma DollarSpelling(rest: string)
    requires rest == " = 2"
    ensures "" + ("let " + ("a" + ("a" + "$1"))) + rest == "let aa$1 = 2"
    ensures "" + "let " + ("a" + "$1") + rest == "let a$1 = 2"
  {
  }

  /** Deleting `=` from two texts that first differ at a character other
      than `=` leaves texts that still differ. */
  lemma WithoutDiffer(a: string, c1: char, x: string, c2: char, y: string)
    requires c1 != c2 && c1 != '=' && c2 != '='
    ensures Without(a + [c1] + x, '=') != Without(a + [c2] + y, '=')
  {
    WithoutAppend(a, [c1] + x, '=');
    WithoutAppend(a, [c2] + y, '=');
    assert ([c1] + x)[1..] == x && ([c2] + y)[1..] == y;
    assert a + [c1] + x == a + ([c1] + x) && a + [c2] + y == a + ([c2] + y);
    var k := |Without(a, '=')|;
    assert Without(a + [c1] + x, '=')[k] == c1;
    assert Without(a + [c2] + y, '=')[k] == c2;
  }

  /** The `var` rewrite always changes the line, even ignoring `=`. */
  lemma ReplaceBindingChanges(line: string, i: nat)
    requires i <= |line| && MatchesAt(VarBinding, line, i)
    ensures Without(ReplaceBinding(line, i), '=') != Without(line, '=')
  {
    var w := ReplaceBinding(line, i);
    SplitAt(w, i);
    SplitAt(line, i);
    assert line[i] == 'v' by { assert line[i..i + 3][0] == line[i]; }
    assert w == line[..i] + ['l'] + w[i + 1..];
    assert line == line[..i] + ['v'] + line[i + 1..];
    WithoutDiffer(line[..i], 'l', w[i + 1..], 'v', line[i + 1..]);
  }

  lemma SplitAt(s: string, i: nat)
    requires i < |s|
    ensures s == s[..i] + [s[i]] + s[i + 1..]
  {
  }

  /** A line that already ends in `;` needs no terminator. */
  lemma TerminatedLine(line: string)
    requires |line| > 0 && line[|line| - 1] == ';'
    ensures !LacksTerminator(Trim(line))
  {
    TrimKeepsLast(line);
  }

  /** Only the logging detector fired exactly when the `var`, equality and
      terminator detectors all stayed quiet. */
  lemma AssembleOnlyLogging(n: nat, logging: bool, varName: Option<string>, strict: (string, bool), terminate: bool)
    ensures OnlyLogging(Assemble(n, logging, varName, strict, terminate).issues)
        <==> varName.None? && !strict.1 && !terminate
  {
    var issues := Assemble(n, logging, varName, strict, terminate).issues;
    AssembleStages(n, logging, varName, strict, terminate);
    OnlyLoggingStages(issues);
    OnlyFirstFlag(logging, varName.Some?, strict.1, terminate);
  }

  /** Only logging issues exactly when every stage is the logging stage. */
  lemma OnlyLoggingStages(issues: seq<Issue>)
    ensures OnlyLogging(issues) <==> forall k :: 0 <= k < |Stages(issues)| ==> Stages(issues)[k] == 0
  {
    assert forall k :: 0 <= k < |issues| ==> (issues[k].category == Logging <==> Stages(issues)[k] == 0);
  }

  /** The detector flags are all the logging stage exactly when no later
      detector fired. */
  lemma OnlyFirstFlag(a: bool, b: bool, c: bool, d: bool)
    ensures var flags := Flag(a, 0) + (Flag(b, 1) + (Flag(c, 2) + Flag(d, 3)));
      (forall k :: 0 <= k < |flags| ==> flags[k] == 0) <==> !b && !c && !d
  {
    var flags := Flag(a, 0) + (Flag(b, 1) + (Flag(c, 2) + Flag(d, 3)));
    var l := |Flag(a, 0)|;
    if b {
      assert flags[l] == 1;
    } else if c {
      assert flags[l] == 2;
    } else if d {
      assert flags[l] == 3;
    }
  }

  /** A line is left as it was exactly when only the logging detector fired
      on it (that detector reports but never rewrites). */
  lemma LineUnchangedIff(line: string, n: nat)
    ensures AnalyzeLine(line, n).fixed == line <==> OnlyLogging(AnalyzeLine(line, n).issues)
  {
    var out := AnalyzeLine(line, n);
    var w1 := AfterVar(line);
    var strict := EqualityStep(w1);
    var terminate := LacksTerminator(Trim(line));
    var varName := VarName(line);
    AssembleOnlyLogging(n, Occurs(ConsoleLogToken, line), varName, strict, terminate);
    if out.fixed == line {
      assert !terminate by {
        if terminate {
          assert out.fixed == Terminate(strict.0);
          TerminatedLine(line);
        }
      }
      assert varName.None? by {
        if varName.Some? {
          var i := FindFirst(VarBinding, line, 0).value;
          ReplaceBindingChanges(line, i);
        }
      }
      assert w1 == line;
    }
  }

  lemma OnlyLoggingAppend(a: seq<Issue>, b: seq<Issue>)
    ensures OnlyLogging(a + b) <==> OnlyLogging(a) && OnlyLogging(b)
  {
    if OnlyLogging(a) && OnlyLogging(b) {
      forall k | 0 <= k < |a + b| ensures (a + b)[k].category == Logging {
        if k >= |a| { assert (a + b)[k] == b[k - |a|]; }
      }
    }
    if OnlyLogging(a + b) {
      forall k | 0 <= k < |a| ensures a[k].category == Logging {
        assert (a + b)[k] == a[k];
      }
      forall k | 0 <= k < |b| ensures b[k].category == Logging {
        assert (a + b)[|a| + k] == b[k];
      }
    }
  }

  /** Only logging issues overall exactly when only logging issues on every line. */
  lemma {:induction false} OnlyLoggingConcat(outcomes: seq<LineOutcome>)
    ensures OnlyLogging(Concat(outcomes)) <==> forall i :: 0 <= i < |outcomes| ==> OnlyLogging(outcomes[i].issues)
    decreases |outcomes|
  {
    if |outcomes| > 0 {
      OnlyLoggingConcat(outcomes[1..]);
      OnlyLoggingAppend(outcomes[0].issues, Concat(outcomes[1..]));
      forall i | 1 <= i < |outcomes| ensures outcomes[1..][i - 1] == outcomes[i] { }
    }
  }

  /** `fixedCode` is the code exactly when every reported issue is a logging
      issue; in particular code with no issues comes back unchanged. */
  lemma FixedCodeUnchangedIff(code: string)
    ensures Analyze(code).fixedCode == code <==> OnlyLogging(Analyze(code).issues)
  {
    var lines := Split(code);
    AnalyzeIssues(code);
    AnalyzeFixedCode(code);
    FixedLinesUnchangedIff(lines);
    JoinSplit(code);
  }

  lemma AnalyzeFixedCode(code: string)
    ensures Analyze(code).fixedCode == Join(FixedLines(Outcomes(Split(code), 1)))
    ensures Analyze(code).fixedCode == code ==> FixedLines(Outcomes(Split(code), 1)) == Split(code)
  {
    var lines := Split(code);
    var fixedLines := FixedLines(Outcomes(lines, 1));
    if Analyze(code).fixedCode == code {
      FixedLinesSingle(lines, 1);
      SplitJoin(fixedLines);
    }
  }

  /** Line `i` of `fixedCode` is line `i` of the code as its own iteration
      rewrote it. */
  lemma FixedLinePerLine(code: string, i: nat)
    requires i < |Split(code)|
    ensures i < |Split(Analyze(code).fixedCode)|
    ensures Split(Analyze(code).fixedCode)[i] == AnalyzeLine(Split(code)[i], i + 1).fixed
  {
    var lines := Split(code);
    var fixedLines := FixedLines(Outcomes(lines, 1));
    AnalyzeFixedCode(code);
    FixedLinesSingle(lines, 1);
    SplitJoin(fixedLines);
    OutcomesAt(lines, 1, i);
    assert 1 + i == i + 1;
  }

  /** Every line comes back as it was exactly when only logging issues are
      reported. */
  lemma FixedLinesUnchangedIff(lines: seq<string>)
    ensures FixedLines(Outcomes(lines, 1)) == lines <==> OnlyLogging(Concat(Outcomes(lines, 1)))
  {
    var outcomes := Outcomes(lines, 1);
    forall i | 0 <= i < |lines|
      ensures outcomes[i].fixed == lines[i] <==> OnlyLogging(outcomes[i].issues)
    {
      OutcomeUnchangedIff(lines, i);
    }
    FixedLinesMatch(outcomes, lines);
  }

  lemma OutcomeUnchangedIff(lines: seq<string>, i: nat)
    requires i < |lines|
    ensures Outcomes(lines, 1)[i].fixed == lines[i] <==> OnlyLogging(Outcomes(lines, 1)[i].issues)
  {
    OutcomesAt(lines, 1, i);
    LineUnchangedIff(lines[i], 1 + i);
  }

  /** Per-line "unchanged iff only logging" lifts to the whole text. */
  lemma FixedLinesMatch(outcomes: seq<LineOutcome>, lines: seq<string>)
    requires |outcomes| == |lines|
    requires forall i :: 0 <= i < |lines| ==> (outcomes[i].fixed == lines[i] <==> OnlyLogging(outcomes[i].issues))
    ensures FixedLines(outcomes) == lines <==> OnlyLogging(Concat(outcomes))
  {
    OnlyLoggingConcat(outcomes);
    if OnlyLogging(Concat(outcomes)) {
      assert FixedLines(outcomes) == lines;
    }
  }

  /** The issues on line `n` of a result. */
  function IssuesOn(issues: seq<Issue>, n: nat): (on: seq<Issue>)
    ensures |on| <= |issues|
    ensures forall k :: 0 <= k < |on| ==> on[k].line == n
  {
    if |issues| == 0 then []
    else (if issues[0].line == n then [issues[0]] else []) + IssuesOn(issues[1..], n)
  }

  lemma {:induction false} IssuesOnAppend(a: seq<Issue>, b: seq<Issue>, n: nat)
    ensures IssuesOn(a + b, n) == IssuesOn(a, n) + IssuesOn(b, n)
    decreases |a|
  {
    if |a| == 0 {
      assert a + b == b;
    } else {
      assert (a + b)[1..] == a[1..] + b;
      IssuesOnAppend(a[1..], b, n);
    }
  }

  lemma {:induction false} IssuesOnSame(a: seq<Issue>, n: nat)
    requires forall k :: 0 <= k < |a| ==> a[k].line == n
    ensures IssuesOn(a, n) == a
    decreases |a|
  {
    if |a| > 0 {
      IssuesOnSame(a[1..], n);
    }
  }

  lemma {:induction false} IssuesOnOther(a: seq<Issue>, n: nat)
    requires forall k :: 0 <= k < |a| ==> a[k].line != n
    ensures IssuesOn(a, n) == []
    decreases |a|
  {
    if |a| > 0 {
      IssuesOnOther(a[1..], n);
    }
  }

  lemma {:induction false} IssuesOnConcat(outcomes: seq<LineOutcome>, first: nat, n: nat)
    requires LinesFrom(outcomes, first)
    requires first <= n < first + |outcomes|
    ensures IssuesOn(Concat(outcomes), n) == outcomes[n - first].issues
    decreases |outcomes|
  {
    LinesFromTail(outcomes, first);
    var tail := Concat(outcomes[1..]);
    IssuesOnAppend(outcomes[0].issues, tail, n);
    if n == first {
      IssuesOnSame(outcomes[0].issues, n);
      if |outcomes| > 1 {
        IssuesOnConcatOther(outcomes[1..], first + 1, n);
      }
    } else {
      IssuesOnOther(outcomes[0].issues, n);
      IssuesOnConcat(outcomes[1..], first + 1, n);
      assert outcomes[1..][n - (first + 1)] == outcomes[n - first];
    }
  }

  /** No issue of lines numbered from `first` on sits on an earlier line. */
  lemma {:induction false} IssuesOnConcatOther(outcomes: seq<LineOutcome>, first: nat, n: nat)
    requires LinesFrom(outcomes, first) && n < first
    ensures IssuesOn(Concat(outcomes), n) == []
    decreases |outcomes|
  {
    if |outcomes| > 0 {
      LinesFromTail(outcomes, first);
      IssuesOnAppend(outcomes[0].issues, Concat(outcomes[1..]), n);
      IssuesOnOther(outcomes[0].issues, n);
      IssuesOnConcatOther(outcomes[1..], first + 1, n);
    }
  }

  lemma AnalyzeIssues(code: string)
    ensures Analyze(code).issues == Concat(Outcomes(Split(code), 1))
  {
  }

  /** The issues reported for line `n` are exactly those line `n` yields on
      its own, whatever the other lines hold. */
  lemma IssuesPerLine(code: string, i: nat)
    requires i < |Split(code)|
    ensures IssuesOn(Analyze(code).issues, i + 1) == AnalyzeLine(Split(code)[i], i + 1).issues
  {
    AnalyzeIssues(code);
    IssuesOnOutcomes(Split(code), i);
  }

  lemma IssuesOnOutcomes(lines: seq<string>, i: nat)
    requires i < |lines|
    ensures IssuesOn(Concat(Outcomes(lines, 1)), i + 1) == AnalyzeLine(lines[i], i + 1).issues
  {
    var outcomes := Outcomes(lines, 1);
    OutcomesNumbered(lines, 1);
    IssuesOnConcat(outcomes, 1, i + 1);
    assert (i + 1) - 1 == i;
    OutcomesAt(lines, 1, i);
    assert 1 + i == i + 1;
  }

  /** The summary reads back as the error, warning and suggestion counts. */
  lemma SummaryReadsBack(code: string)
    ensures ReadCanonicalSummary(Analyze(code).summary)
         == Some((Analyze(code).stats.errors, Analyze(code).stats.warnings, Analyze(code).stats.suggestions))
  {
    var st := Analyze(code).stats;
    CanonicalSummaryRoundTrip(st.errors, st.warnings, st.suggestions);
  }
}
