/** `analyzeCode` of `server.js`, the older analyzer. It reports on each line
    as read, and fixes the whole text in three passes of its own that do not
    consult the report: the `var` keyword, loose equality, then statement
    terminators on the rewritten lines. */
module ServerAnalyzer {
  import opened Wrappers
  import opened Text
  import opened Patterns
  import opened Replace
  import opened Issues
  import opened Summary

  /** One finding: the fields it shares with `lib/analyzer.js`, plus the
      1-based `column`, the short `message` and the trimmed source line. */
  datatype ServerIssue = ServerIssue(issue: Issue, column: int, message: string, code: string)

  datatype ServerResult = ServerResult(
    issues: seq<ServerIssue>,
    fixedCode: string,
    summary: string,
    stats: Stats)

  const LoggingNote := "Remove console.log in production; prefer a logger."
  const VarNoteHead := "Replace 'var' on "
  const VarNoteTail := " to avoid accidental scope leaks."
  const EqualityNote := "Use === to avoid type coercion surprises."
  const TerminatorNote := "Add a semicolon for consistent termination."

  const LoggingMessage := "Console.log statement found"
  const VarMessage := "Use 'const' or 'let' instead of 'var'"
  const EqualityMessage := "Use strict equality (===) instead of loose equality (==)"
  const TerminatorMessage := "Missing semicolon"

  /** `line.includes('console.log')` */
  predicate LoggingFires(line: string) {
    Occurs(Literal("console.log"), line)
  }

  /** `line.match(/\bvar\s+/)` */
  predicate VarFires(line: string) {
    Occurs(VarThenSpace, line)
  }

  /** The name in the `var` description: the `(\w+)` group of the leftmost
      `/\bvar\s+(\w+)/` match, or "variable" when there is none. */
  function VarLabel(line: string): string {
    match FindFirst(VarThenWord, line, 0)
    case None => "variable"
    case Some(i) => WordBindingName(line, i)
  }

  /** `line.includes('==') && !line.includes('===') && !line.includes('!=') && !line.includes('!==')` */
  predicate LooseFires(line: string) {
    && Occurs(Literal("=="), line)
    && !Occurs(Literal("==="), line)
    && !Occurs(Literal("!="), line)
    && !Occurs(Literal("!=="), line)
  }

  /** The statement test on a trimmed line: it holds `let `, `const ` or
      `return `, or begins like an assignment. */
  predicate StatementLike(t: string) {
    || Occurs(Literal("let "), t)
    || Occurs(Literal("const "), t)
    || Occurs(Literal("return "), t)
    || AssignmentHead(t)
  }

  /** The semicolon condition, on the report side and on the fix side alike. */
  predicate NeedsTerminator(line: string) {
    LacksTerminator(Trim(line)) && StatementLike(Trim(line))
  }

  /** What the four detectors of `server.js` find on line `n`. */
  function ServerFindings(line: string, n: nat): (found: Findings)
    ensures Staged(found, n)
  {
    Found(n, LoggingFires(line), VarFires(line), VarLabel(line), LooseFires(line), NeedsTerminator(line))
  }

  /** The records of the detectors that fired on line `n`; `name` is the
      variable the `var` description names. */
  function Found(n: nat, logging: bool, declaring: bool, name: string, loose: bool, terminating: bool): (found: Findings)
    ensures Staged(found, n)
    ensures found.logging.Some? == logging && found.declaration.Some? == declaring
    ensures found.equality.Some? == loose && found.terminator.Some? == terminating
  {
    Findings(
      if logging then Some(Issue(Warning, Logging, n, LoggingNote, Medium)) else None,
      if declaring then Some(Issue(Error, BestPractice, n, VarNoteHead + name + VarNoteTail, High)) else None,
      if loose then Some(Issue(Warning, BestPractice, n, EqualityNote, Medium)) else None,
      if terminating then Some(Issue(Suggestion, Syntax, n, TerminatorNote, Low)) else None)
  }

  /** The `column` each detector reports: where the first `console.log`,
      `var` or `==` substring starts, counting from 1, and for the
      terminator the length of the line. */
  function Column(line: string, stage: nat): int {
    if stage == 0 then IndexOf(line, "console.log") + 1
    else if stage == 1 then IndexOf(line, "var") + 1
    else if stage == 2 then IndexOf(line, "==") + 1
    else |line|
  }

  function Message(stage: nat): string {
    if stage == 0 then LoggingMessage
    else if stage == 1 then VarMessage
    else if stage == 2 then EqualityMessage
    else TerminatorMessage
  }

  /** The records of one line's findings, with the fields only `server.js` reports. */
  function Decorate(line: string, issues: seq<Issue>): (r: seq<ServerIssue>)
    ensures |r| == |issues|
    ensures forall k :: 0 <= k < |issues| ==> r[k].issue == issues[k]
    ensures forall k :: 0 <= k < |issues| ==> r[k].column == Column(line, StageOf(issues[k]))
    ensures forall k :: 0 <= k < |issues| ==> r[k].message == Message(StageOf(issues[k]))
    ensures forall k :: 0 <= k < |issues| ==> r[k].code == Trim(line)
  {
    seq(|issues|, k requires 0 <= k < |issues| =>
      ServerIssue(issues[k], Column(line, StageOf(issues[k])), Message(StageOf(issues[k])), Trim(line)))
  }

  /** The shared part of each record. */
  function Bases(issues: seq<ServerIssue>): (bases: seq<Issue>)
    ensures |bases| == |issues|
    ensures forall k :: 0 <= k < |issues| ==> bases[k] == issues[k].issue
  {
    seq(|issues|, k requires 0 <= k < |issues| => issues[k].issue)
  }

  /** One iteration of the loop of `analyzeCode` for line number `n`. */
  function ServerLine(line: string, n: nat): (issues: seq<ServerIssue>)
    ensures forall k :: 0 <= k < |issues| ==> issues[k].issue.line == n
    ensures Ordered(Bases(issues))
  {
    var bases := InDetectorOrder(ServerFindings(line, n), n);
    var issues := Decorate(line, bases);
    assert Bases(issues) == bases;
    issues
  }

  /** The issues of each line, in line order, counting lines from `first`. */
  predicate Numbered(perLine: seq<seq<ServerIssue>>, first: nat) {
    forall i :: 0 <= i < |perLine| ==>
      && Ordered(Bases(perLine[i]))
      && forall k :: 0 <= k < |perLine[i]| ==> perLine[i][k].issue.line == first + i
  }

  function PerLine(lines: seq<string>, first: nat): (perLine: seq<seq<ServerIssue>>)
    ensures |perLine| == |lines|
    ensures forall i :: 0 <= i < |lines| ==> perLine[i] == ServerLine(lines[i], first + i)
  {
    seq(|lines|, i requires 0 <= i < |lines| => ServerLine(lines[i], first + i))
  }

  /** The issues of line `first + i` all carry that line number. */
  lemma LinesNumbered(lines: seq<string>, first: nat, perLine: seq<seq<ServerIssue>>)
    requires |perLine| == |lines|
    requires forall i :: 0 <= i < |lines| ==> perLine[i] == ServerLine(lines[i], first + i)
    ensures Numbered(perLine, first)
  {
    forall i | 0 <= i < |perLine|
      ensures Ordered(Bases(perLine[i]))
      ensures forall k :: 0 <= k < |perLine[i]| ==> perLine[i][k].issue.line == first + i
    {
      var issues := ServerLine(lines[i], first + i);
      assert perLine[i] == issues;
    }
  }

  lemma NumberedTail(perLine: seq<seq<ServerIssue>>, first: nat)
    requires |perLine| > 0 && Numbered(perLine, first)
    ensures Numbered(perLine[1..], first + 1)
  {
    forall i | 0 <= i < |perLine| - 1 ensures perLine[1..][i] == perLine[i + 1] { }
  }

  lemma BasesAppend(x: seq<ServerIssue>, y: seq<ServerIssue>)
    ensures Bases(x + y) == Bases(x) + Bases(y)
  {
  }

  /** The `issues` array the loop fills. */
  function Gather(perLine: seq<seq<ServerIssue>>, first: nat): (issues: seq<ServerIssue>)
    requires Numbered(perLine, first)
    ensures forall k :: 0 <= k < |issues| ==> first <= issues[k].issue.line < first + |perLine|
    ensures Ordered(Bases(issues))
    decreases |perLine|
  {
    if |perLine| == 0 then []
    else
      NumberedTail(perLine, first);
      var tail := Gather(perLine[1..], first + 1);
      BasesAppend(perLine[0], tail);
      OrderedAppend(Bases(perLine[0]), Bases(tail));
      perLine[0] + tail
  }

  /** The records that carry line number `n`, in their order. */
  function RecordsOn(issues: seq<ServerIssue>, n: nat): (on: seq<ServerIssue>)
    ensures |on| <= |issues|
    ensures forall k :: 0 <= k < |on| ==> on[k].issue.line == n
  {
    if |issues| == 0 then []
    else (if issues[0].issue.line == n then [issues[0]] else []) + RecordsOn(issues[1..], n)
  }

  lemma {:induction false} RecordsOnAppend(a: seq<ServerIssue>, b: seq<ServerIssue>, n: nat)
    ensures RecordsOn(a + b, n) == RecordsOn(a, n) + RecordsOn(b, n)
    decreases |a|
  {
    if |a| == 0 {
      assert a + b == b;
    } else {
      assert (a + b)[1..] == a[1..] + b;
      RecordsOnAppend(a[1..], b, n);
    }
  }

  lemma {:induction false} RecordsOnSame(a: seq<ServerIssue>, n: nat)
    requires forall k :: 0 <= k < |a| ==> a[k].issue.line == n
    ensures RecordsOn(a, n) == a
    decreases |a|
  {
    if |a| > 0 {
      RecordsOnSame(a[1..], n);
    }
  }

  lemma {:induction false} RecordsOnOther(a: seq<ServerIssue>, n: nat)
    requires forall k :: 0 <= k < |a| ==> a[k].issue.line != n
    ensures RecordsOn(a, n) == []
    decreases |a|
  {
    if |a| > 0 {
      RecordsOnOther(a[1..], n);
    }
  }

  /** The records of the first line come first, then the others'. */
  lemma GatherStep(perLine: seq<seq<ServerIssue>>, first: nat)
    requires |perLine| > 0 && Numbered(perLine, first)
    ensures Numbered(perLine[1..], first + 1)
    ensures Gather(perLine, first) == perLine[0] + Gather(perLine[1..], first + 1)
  {
    NumberedTail(perLine, first);
  }

  /** The gathered records numbered `n` are exactly line `n`'s own records. */
  lemma {:induction false} GatherOn(perLine: seq<seq<ServerIssue>>, first: nat, n: nat)
    requires Numbered(perLine, first)
    requires first <= n < first + |perLine|
    ensures RecordsOn(Gather(perLine, first), n) == perLine[n - first]
    decreases |perLine|
  {
    if n == first {
      GatherOnFirst(perLine, first);
    } else {
      GatherOnLater(perLine, first, n);
      GatherOn(perLine[1..], first + 1, n);
      assert perLine[1..][n - (first + 1)] == perLine[n - first];
    }
  }

  /** The records numbered `first` all come from the first line. */
  lemma GatherOnFirst(perLine: seq<seq<ServerIssue>>, first: nat)
    requires |perLine| > 0 && Numbered(perLine, first)
    ensures RecordsOn(Gather(perLine, first), first) == perLine[0]
  {
    GatherStep(perLine, first);
    var tail := Gather(perLine[1..], first + 1);
    RecordsOnAppend(perLine[0], tail, first);
    RecordsOnSame(perLine[0], first);
    RecordsOnOther(tail, first);
    assert perLine[0] + [] == perLine[0];
  }

  /** A later line number finds nothing in the first line's records. */
  lemma GatherOnLater(perLine: seq<seq<ServerIssue>>, first: nat, n: nat)
    requires |perLine| > 0 && Numbered(perLine, first) && first < n
    ensures Numbered(perLine[1..], first + 1)
    ensures RecordsOn(Gather(perLine, first), n) == RecordsOn(Gather(perLine[1..], first + 1), n)
  {
    GatherStep(perLine, first);
    var tail := Gather(perLine[1..], first + 1);
    RecordsOnAppend(perLine[0], tail, n);
    RecordsOnOther(perLine[0], n);
    assert [] + RecordsOn(tail, n) == RecordsOn(tail, n);
  }

  /** `fixedLines[i] = line + ';'` when the rewritten line needs a terminator. */
  function TerminateLine(line: string): (r: string)
    ensures '\n' !in line ==> '\n' !in r
  {
    if NeedsTerminator(line) then line + ";" else line
  }

  function TerminateLines(lines: seq<string>): (r: seq<string>)
    ensures |r| == |lines|
    ensures forall i :: 0 <= i < |lines| ==> r[i] == TerminateLine(lines[i])
  {
    seq(|lines|, i requires 0 <= i < |lines| => TerminateLine(lines[i]))
  }

  /** The text after the keyword and loose-equality passes. */
  function Rewrite(code: string): (r: string)
    ensures Occurrences(r, '\n') == Occurrences(code, '\n')
  {
    var keywords := ReplaceVarWords(code);
    ReplaceVarWordsKeepsLineFeeds(code);
    var strict := Strictify(TextRule, keywords);
    OccurrencesWithout(strict.0, '\n', '=');
    OccurrencesWithout(keywords, '\n', '=');
    strict.0
  }

  /** `fixedCode`: the rewritten text, with a terminator added to each of
      its lines that needs one. Line feeds are never added or removed, so
      the fixed text has the lines of the code, in the same places. */
  function FixText(code: string): (fixed: string)
    ensures |Split(fixed)| == |Split(code)|
    ensures forall i :: 0 <= i < |Split(code)| ==> Split(fixed)[i] == TerminateLine(Split(Rewrite(code))[i])
  {
    var lines := Split(Rewrite(code));
    var terminated := TerminateLines(lines);
    SplitJoin(terminated);
    Join(terminated)
  }

  /** `analyzeCode(code)` of `server.js`; it has no type guard, so only a
      string argument is modelled. */
  function ServerAnalyze(code: string): (r: ServerResult)
    ensures forall k :: 0 <= k < |r.issues| ==> 1 <= r.issues[k].issue.line <= |Split(code)|
    ensures Ordered(Bases(r.issues))
    ensures |Split(r.fixedCode)| == |Split(code)|
    ensures r.stats.total == |r.issues| == r.stats.errors + r.stats.warnings + r.stats.suggestions
    ensures r.stats.errors == CountOf(Kinds(Bases(r.issues)), Error)
    ensures r.stats.warnings == CountOf(Kinds(Bases(r.issues)), Warning)
    ensures r.stats.suggestions == CountOf(Kinds(Bases(r.issues)), Suggestion)
    ensures r.summary == NoIssues <==> r.issues == []
    ensures r.fixedCode == FixText(code)
  {
    var perLine := PerLine(Split(code), 1);
    LinesNumbered(Split(code), 1, perLine);
    var issues := Gather(perLine, 1);
    var stats := Tally(Kinds(Bases(issues)));
    ServerResult(issues, FixText(code), ServerSummary(stats), stats)
  }

  /** The records reported for line `i + 1` are exactly those line `i`
      yields on its own, whatever the other lines hold. */
  lemma ServerIssuesPerLine(code: string, i: nat)
    requires i < |Split(code)|
    ensures RecordsOn(ServerAnalyze(code).issues, i + 1) == ServerLine(Split(code)[i], i + 1)
  {
    ServerAnalyzeIssues(code);
    RecordsOnLines(Split(code), i);
  }

  /** The records of `ServerAnalyze` are the gathered per-line records. */
  lemma ServerAnalyzeIssues(code: string)
    ensures Numbered(PerLine(Split(code), 1), 1)
    ensures ServerAnalyze(code).issues == Gather(PerLine(Split(code), 1), 1)
  {
    LinesNumbered(Split(code), 1, PerLine(Split(code), 1));
  }

  lemma RecordsOnLines(lines: seq<string>, i: nat)
    requires i < |lines|
    ensures Numbered(PerLine(lines, 1), 1)
    ensures RecordsOn(Gather(PerLine(lines, 1), 1), i + 1) == ServerLine(lines[i], i + 1)
  {
    var perLine := PerLine(lines, 1);
    LinesNumbered(lines, 1, perLine);
    GatherOn(perLine, 1, i + 1);
    assert (i + 1) - 1 == i && 1 + i == i + 1;
  }


  /** `Occurs` of a fixed string, as an existential over positions. */
  lemma LiteralOccurs(s: string, t: string)
    ensures Occurs(Literal(t), s) <==> exists i :: 0 <= i <= |s| && LiteralAt(s, i, t)
  {
    OccursIff(Literal(t), s);
    assert forall i :: 0 <= i <= |s| ==> (MatchesAt(Literal(t), s, i) <==> LiteralAt(s, i, t));
  }

  /** The loose-equality detector fires when the line holds `==` but
      neither `===` nor `!=`; its `!==` test adds nothing, since a line
      holding `!==` holds `!=`. */
  lemma LooseFiresIff(line: string)
    ensures LooseFires(line)
       <==> && (exists i :: 0 <= i <= |line| && LiteralAt(line, i, "=="))
            && (forall i :: 0 <= i <= |line| ==> !LiteralAt(line, i, "===") && !LiteralAt(line, i, "!="))
  {
    LiteralOccurs(line, "==");
    LiteralOccurs(line, "===");
    LiteralOccurs(line, "!=");
    LiteralOccurs(line, "!==");
    forall i | 0 <= i <= |line| && LiteralAt(line, i, "!==") ensures LiteralAt(line, i, "!=") {
      assert line[i..i + 2] == line[i..i + 3][..2];
    }
  }

  /** The four detectors of one line, each against an independent statement
      of when it fires. */
  lemma ServerLineDetectors(line: string, n: nat)
    ensures Stages(Bases(ServerLine(line, n)))
         == Flag(exists i :: 0 <= i <= |line| && LiteralAt(line, i, "console.log"), 0)
          + (Flag(exists i :: 0 <= i <= |line| && MatchesAt(VarThenSpace, line, i), 1)
          + (Flag((exists i :: 0 <= i <= |line| && LiteralAt(line, i, "=="))
                  && (forall i :: 0 <= i <= |line| ==> !LiteralAt(line, i, "===") && !LiteralAt(line, i, "!=")), 2)
          + Flag(NeedsTerminator(line), 3)))
  {
    ServerLineStages(line, n);
    LiteralOccurs(line, "console.log");
    OccursIff(VarThenSpace, line);
    LooseFiresIff(line);
  }

  lemma ServerLineStages(line: string, n: nat)
    ensures Stages(Bases(ServerLine(line, n)))
         == Flag(LoggingFires(line), 0) + (Flag(VarFires(line), 1)
          + (Flag(LooseFires(line), 2) + Flag(NeedsTerminator(line), 3)))
  {
    var found := ServerFindings(line, n);
    assert Bases(ServerLine(line, n)) == InDetectorOrder(found, n);
    InDetectorOrderStages(found, n);
  }

  /** The shared fields of each record of a line: type, category, line
      number, description and severity of the detector that emits it. */
  lemma ServerRecords(line: string, n: nat)
    ensures forall k :: 0 <= k < |ServerLine(line, n)| ==>
      var issue := ServerLine(line, n)[k].issue;
      && (StageOf(issue) == 0 ==> issue == Issue(Warning, Logging, n, LoggingNote, Medium))
      && (StageOf(issue) == 1 ==> issue == Issue(Error, BestPractice, n, VarNoteHead + VarLabel(line) + VarNoteTail, High))
      && (StageOf(issue) == 2 ==> issue == Issue(Warning, BestPractice, n, EqualityNote, Medium))
      && (StageOf(issue) == 3 ==> issue == Issue(Suggestion, Syntax, n, TerminatorNote, Low))
      && StageOf(issue) <= 3
  {
    var found := ServerFindings(line, n);
    InDetectorOrderMembers(found, n);
    assert forall k :: 0 <= k < |ServerLine(line, n)| ==> ServerLine(line, n)[k].issue == InDetectorOrder(found, n)[k];
  }

  /** The first occurrence of `t` in `s` starts at `p`. */
  predicate FirstAt(s: string, p: int, t: string) {
    && 0 <= p
    && LiteralAt(s, p, t)
    && forall j :: 0 <= j < p ==> !LiteralAt(s, j, t)
  }

  /** Every record of a line points at what its detector saw: the first
      `console.log`, `var` or `==` of the line (counting columns from 1),
      or for a missing terminator the end of the line; and each carries
      its detector's message and the trimmed line. */
  lemma ServerColumns(line: string, n: nat)
    ensures forall k :: 0 <= k < |ServerLine(line, n)| ==>
      var r := ServerLine(line, n)[k];
      && r.code == Trim(line)
      && (StageOf(r.issue) == 0 ==> FirstAt(line, r.column - 1, "console.log") && r.message == LoggingMessage)
      && (StageOf(r.issue) == 1 ==> FirstAt(line, r.column - 1, "var") && r.message == VarMessage)
      && (StageOf(r.issue) == 2 ==> FirstAt(line, r.column - 1, "==") && r.message == EqualityMessage)
      && (StageOf(r.issue) == 3 ==> r.column == |line| && r.message == TerminatorMessage)
  {
    var found := ServerFindings(line, n);
    if LoggingFires(line) {
      LiteralColumn(line, "console.log");
    }
    if VarFires(line) {
      VarColumn(line);
    }
    if LooseFires(line) {
      LiteralColumn(line, "==");
    }
    DecoratedColumns(line, found, n);
  }

  /** The records of findings whose detectors saw their substrings point at
      those substrings. */
  lemma DecoratedColumns(line: string, found: Findings, n: nat)
    requires Staged(found, n)
    requires found.logging.Some? ==> FirstAt(line, IndexOf(line, "console.log"), "console.log")
    requires found.declaration.Some? ==> FirstAt(line, IndexOf(line, "var"), "var")
    requires found.equality.Some? ==> FirstAt(line, IndexOf(line, "=="), "==")
    ensures forall k :: 0 <= k < |Decorate(line, InDetectorOrder(found, n))| ==>
      var r := Decorate(line, InDetectorOrder(found, n))[k];
      && r.code == Trim(line)
      && (StageOf(r.issue) == 0 ==> FirstAt(line, r.column - 1, "console.log") && r.message == LoggingMessage)
      && (StageOf(r.issue) == 1 ==> FirstAt(line, r.column - 1, "var") && r.message == VarMessage)
      && (StageOf(r.issue) == 2 ==> FirstAt(line, r.column - 1, "==") && r.message == EqualityMessage)
      && (StageOf(r.issue) == 3 ==> r.column == |line| && r.message == TerminatorMessage)
  {
    var issues := InDetectorOrder(found, n);
    InDetectorOrderMembers(found, n);
    DecorateColumns(line, issues);
  }

  /** Each record's column and message are those of its detector. */
  lemma DecorateColumns(line: string, issues: seq<Issue>)
    requires forall k :: 0 <= k < |issues| ==>
      && (StageOf(issues[k]) == 0 ==> FirstAt(line, IndexOf(line, "console.log"), "console.log"))
      && (StageOf(issues[k]) == 1 ==> FirstAt(line, IndexOf(line, "var"), "var"))
      && (StageOf(issues[k]) == 2 ==> FirstAt(line, IndexOf(line, "=="), "=="))
    ensures forall k :: 0 <= k < |Decorate(line, issues)| ==>
      var r := Decorate(line, issues)[k];
      && r.code == Trim(line)
      && (StageOf(r.issue) == 0 ==> FirstAt(line, r.column - 1, "console.log") && r.message == LoggingMessage)
      && (StageOf(r.issue) == 1 ==> FirstAt(line, r.column - 1, "var") && r.message == VarMessage)
      && (StageOf(r.issue) == 2 ==> FirstAt(line, r.column - 1, "==") && r.message == EqualityMessage)
      && (StageOf(r.issue) == 3 ==> r.column == |line| && r.message == TerminatorMessage)
  {
    var d := Decorate(line, issues);
    forall k | 0 <= k < |d|
      ensures d[k].code == Trim(line)
      ensures StageOf(d[k].issue) == 0 ==> FirstAt(line, d[k].column - 1, "console.log") && d[k].message == LoggingMessage
      ensures StageOf(d[k].issue) == 1 ==> FirstAt(line, d[k].column - 1, "var") && d[k].message == VarMessage
      ensures StageOf(d[k].issue) == 2 ==> FirstAt(line, d[k].column - 1, "==") && d[k].message == EqualityMessage
      ensures StageOf(d[k].issue) == 3 ==> d[k].column == |line| && d[k].message == TerminatorMessage
    {
      var stage := StageOf(issues[k]);
      assert d[k].issue == issues[k];
      assert d[k].column == Column(line, stage) && d[k].message == Message(stage);
    }
  }

  /** `line.indexOf(t)` is the first occurrence of `t` once `t` occurs. */
  lemma LiteralColumn(line: string, t: string)
    requires Occurs(Literal(t), line)
    ensures FirstAt(line, IndexOf(line, t), t)
  {
    LiteralOccurs(line, t);
  }

  /** A line the `var` detector fires on holds `var`. */
  lemma VarColumn(line: string)
    requires VarFires(line)
    ensures FirstAt(line, IndexOf(line, "var"), "var")
  {
    var i := FindFirst(VarThenSpace, line, 0).value;
    assert LiteralAt(line, i, "var");
  }

  /** The `var` description names the word after the leftmost
      `var` keyword followed by spaces and a word, or "variable" if there is none. */
  lemma VarLabelLeftmost(line: string)
    ensures (forall i :: 0 <= i <= |line| ==> !MatchesAt(VarThenWord, line, i)) ==> VarLabel(line) == "variable"
    ensures forall i ::
              && 0 <= i <= |line| && MatchesAt(VarThenWord, line, i)
              && (forall j :: 0 <= j < i ==> !MatchesAt(VarThenWord, line, j))
              ==> VarLabel(line) == WordBindingName(line, i)
  {
    var found := FindFirst(VarThenWord, line, 0);
    if found.Some? {
      assert MatchesAt(VarThenWord, line, found.value);
    }
  }

  /** A line that got its terminator needs no second one. */
  lemma TerminateLineIdempotent(line: string)
    ensures TerminateLine(TerminateLine(line)) == TerminateLine(line)
  {
    if NeedsTerminator(line) {
      var t := line + ";";
      TrimKeepsLast(t);
    }
  }

  /** The keyword pass puts an `l` where a keyword's `v` was. */
  lemma KeywordChanges(s: string, i: nat)
    requires i <= |s|
    ensures VarWordAt(s, i) ==> i < |s| && ReplaceVarWords(s)[i] != s[i]
  {
    if VarWordAt(s, i) {
      assert s[i..i + 3][0] == s[i];
    }
  }

  /** The keyword pass leaves a text as it was exactly when it holds no
      whole-word `var`. */
  lemma KeywordPassIff(s: string)
    ensures ReplaceVarWords(s) == s <==> forall i :: 0 <= i <= |s| ==> !VarWordAt(s, i)
  {
    if ReplaceVarWords(s) == s {
      forall i | 0 <= i <= |s| ensures !VarWordAt(s, i) {
        KeywordChanges(s, i);
      }
    }
  }

  /** Lines that are each at least as long as their partners join to a
      text at least as long, and to one of the same length only if every
      line kept its length. */
  lemma {:induction false} JoinLengths(a: seq<string>, b: seq<string>)
    requires |a| == |b|
    requires forall k :: 0 <= k < |a| ==> |a[k]| >= |b[k]|
    ensures |Join(a)| >= |Join(b)|
    ensures |Join(a)| == |Join(b)| ==> forall k :: 0 <= k < |a| ==> |a[k]| == |b[k]|
    decreases |a|
  {
    if |a| > 1 {
      JoinLengths(a[1..], b[1..]);
      forall k | 1 <= k < |a| ensures |a[k]| == |b[k]| || |Join(a)| > |Join(b)| {
        assert a[1..][k - 1] == a[k] && b[1..][k - 1] == b[k];
      }
    }
  }

  /** The terminator pass leaves lines as they were exactly when none of
      them needs a terminator. */
  lemma TerminatePassIff(lines: seq<string>)
    ensures Join(TerminateLines(lines)) == Join(lines) <==> forall i :: 0 <= i < |lines| ==> !NeedsTerminator(lines[i])
  {
    var terminated := TerminateLines(lines);
    JoinLengths(terminated, lines);
    if Join(terminated) == Join(lines) {
      forall i | 0 <= i < |lines| ensures !NeedsTerminator(lines[i]) {
        assert |terminated[i]| == |lines[i]|;
      }
    } else {
      assert terminated != lines;
    }
  }

  /** `fixedCode` is the code exactly when none of the three passes changes
      anything: the keyword pass, the loose-equality pass, and the
      terminator pass on the lines of the code. */
  lemma FixTextPasses(code: string)
    ensures FixText(code) == code
       <==> && ReplaceVarWords(code) == code
            && Strictify(TextRule, code).1 == 0
            && forall i :: 0 <= i < |Split(code)| ==> !NeedsTerminator(Split(code)[i])
  {
    if FixText(code) == code {
      UnchangedFixPasses(code);
    } else if ReplaceVarWords(code) == code && Strictify(TextRule, code).1 == 0 {
      QuietPassesFix(code);
    }
  }

  /** Code that the fix leaves alone passes all three passes unchanged. */
  lemma UnchangedFixPasses(code: string)
    requires FixText(code) == code
    ensures ReplaceVarWords(code) == code && Strictify(TextRule, code).1 == 0
    ensures forall i :: 0 <= i < |Split(code)| ==> !NeedsTerminator(Split(code)[i])
  {
    var keywords := ReplaceVarWords(code);
    var strict := Strictify(TextRule, keywords);
    var lines := Split(strict.0);
    assert code == Join(TerminateLines(lines));
    JoinSplit(strict.0);
    TerminateNoShorter(lines);
    assert strict.1 == 0 && strict.0 == keywords;
    TerminatePassIff(lines);
  }

  /** The terminator pass never shortens the text, and leaves it alone
      when it does not lengthen it. */
  lemma TerminateNoShorter(lines: seq<string>)
    ensures |Join(TerminateLines(lines))| >= |Join(lines)|
    ensures |Join(TerminateLines(lines))| <= |Join(lines)| ==> Join(TerminateLines(lines)) == Join(lines)
  {
    var terminated := TerminateLines(lines);
    JoinLengths(terminated, lines);
    if |Join(terminated)| <= |Join(lines)| {
      forall k | 0 <= k < |lines| ensures !NeedsTerminator(lines[k]) {
        assert |terminated[k]| == |lines[k]|;
      }
      TerminatePassIff(lines);
    }
  }

  /** Code that no pass changes is fixed into itself. */
  lemma QuietPassesFix(code: string)
    requires ReplaceVarWords(code) == code && Strictify(TextRule, code).1 == 0
    ensures FixText(code) == code <==> forall i :: 0 <= i < |Split(code)| ==> !NeedsTerminator(Split(code)[i])
  {
    var strict := Strictify(TextRule, code);
    assert strict.0 == code;
    assert Rewrite(code) == code;
    var lines := Split(code);
    assert FixText(code) == Join(TerminateLines(lines));
    JoinSplit(code);
    TerminatePassIff(lines);
  }

  /** `fixedCode` is the code exactly when the code holds no whole-word
      `var`, no loose equality the text-wide pattern matches, and no line
      that needs a terminator. */
  lemma FixTextUnchangedIff(code: string)
    ensures FixText(code) == code
       <==> && (forall i :: 0 <= i <= |code| ==> !VarWordAt(code, i))
            && (forall q :: 0 <= q < |code| ==> LooseEqualityAt(TextRule, code, q).None?)
            && (forall i :: 0 <= i < |Split(code)| ==> !NeedsTerminator(Split(code)[i]))
  {
    FixTextPasses(code);
    KeywordPassIff(code);
  }

  /** The summary reads back as the stats record. */
  lemma ServerSummaryReadsBack(code: string)
    ensures ReadServerSummary(ServerAnalyze(code).summary) == Some(ServerAnalyze(code).stats)
  {
    ServerSummaryRoundTrip(ServerAnalyze(code).stats);
  }

  /** Code of one line is fixed into its rewritten form, terminated when
      that needs it. */
  lemma FixTextSingleLine(code: string)
    requires '\n' !in code
    ensures FixText(code) == TerminateLine(Rewrite(code))
  {
    var r := Rewrite(code);
    OccurrencesPositive(code, '\n');
    OccurrencesPositive(r, '\n');
    SplitJoin([r]);
    assert Split(r) == [r];
    var fixed := FixText(code);
    JoinSplit(fixed);
    assert |Split(fixed)| == 1;
  }

  /** The line `var result = add(1, 2)` holds no `let ` (its only `l` is
      followed by `t`) and no line feed. */
  lemma SampleNoLet(line: string)
    requires line == "var result = add(1, 2)"
    ensures '\n' !in line
    ensures !Occurs(Literal("let "), line)
  {
    assert line == "var resu" + ['l'] + "t = add(1, 2)";
    LiteralAbsentAround("var resu", 'l', "t = add(1, 2)", "let ");
  }

  /** Nor does it hold `const ` or `return `: it has no `c` and no `n`. */
  lemma SampleNoConstOrReturn(line: string)
    requires line == "var result = add(1, 2)"
    ensures !Occurs(Literal("const "), line)
    ensures !Occurs(Literal("return "), line)
  {
    LiteralAbsent(line, "const ", 0);
    LiteralAbsent(line, "return ", 5);
  }

  /** `var result = add(1, 2)` does not begin like an assignment: the word
      `var` is followed by a space and then `r`, not `=`. */
  lemma SampleNoAssignment(line: string)
    requires line == "var result = add(1, 2)"
    ensures Trim(line) == line
    ensures !AssignmentHead(line)
  {
    TrimUnpadded(line);
    assert InClass(line[0], Word) && InClass(line[1], Word) && InClass(line[2], Word) && !InClass(line[3], Word);
    assert SpanEnd(line, 0, Word) == 3;
    assert InClass(line[3], Space) && !InClass(line[4], Space);
    assert SpanEnd(line, 3, Space) == 4;
  }

  /** Hence the report finds it needs no terminator. */
  lemma SampleReportSkips(line: string)
    requires line == "var result = add(1, 2)"
    ensures !NeedsTerminator(line) && '\n' !in line
  {
    SampleNoLet(line);
    SampleNoConstOrReturn(line);
    SampleNoAssignment(line);
  }

  /** Its rewritten form `let result = add(1, 2)` is statement-like and
      lacks a terminator. */
  lemma SampleFixTerminates(line: string)
    requires line == "let result = add(1, 2)"
    ensures NeedsTerminator(line)
  {
    TrimUnpadded(line);
    OccursIff(Literal("let "), line);
    assert LiteralAt(line, 0, "let ");
  }

  /** The keyword pass turns `var result = add(1, 2)` into
      `let result = add(1, 2)`: the only `v` is the keyword's. */
  lemma SampleKeywordPass(line: string, fixed: string)
    requires line == "var result = add(1, 2)" && fixed == "let result = add(1, 2)"
    ensures ReplaceVarWords(line) == fixed
  {
    var w := " result = add(1, 2)";
    assert line == "var" + w && fixed == "let" + w;
    LeadingKeyword(w);
  }

  /** `let result = add(1, 2)` holds a single `=`, so the equality pass
      leaves it alone. */
  lemma SampleEqualityPass(fixed: string)
    requires fixed == "let result = add(1, 2)"
    ensures Strictify(TextRule, fixed).0 == fixed
  {
    assert fixed == "let result " + "=" + " add(1, 2)";
    StrictifySingleEquals(TextRule, "let result ", " add(1, 2)");
  }

  /** The report and the fix disagree on the line `var result = add(1, 2)`
      of the sample utility file (server.js:166). The report sees `var` and
      no statement keyword, so it records no missing terminator. The fix
      first turns `var` into `let`, and the rewritten line then gets a `;`. */
  lemma TerminatorDivergence(line: string, fixed: string, n: nat)
    requires line == "var result = add(1, 2)" && fixed == "let result = add(1, 2)"
    ensures ServerFindings(line, n).terminator.None?
    ensures FixText(line) == fixed + ";"
  {
    SampleReportSkips(line);
    SampleKeywordPass(line, fixed);
    SampleEqualityPass(fixed);
    assert Rewrite(line) == fixed;
    SampleFixTerminates(fixed);
    FixTextSingleLine(line);
  }
}
