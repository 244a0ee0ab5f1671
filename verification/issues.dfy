/** The issue records both analyzers emit, and the counts derived from them. */
module Issues {
  import opened Wrappers

  /** `type`: the bucket an issue is counted in. */
  datatype IssueType = Error | Warning | Suggestion

  /** `category`: the rule family. */
  datatype Category = Logging | BestPractice | Syntax

  datatype Severity = Low | Medium | High | Critical

  /** One finding of `lib/analyzer.js` (`type` is a keyword here, hence `kind`). */
  datatype Issue = Issue(
    kind: IssueType,
    category: Category,
    line: nat,
    description: string,
    severity: Severity)

  /** `stats` of an analysis result. */
  datatype Stats = Stats(total: nat, errors: nat, warnings: nat, suggestions: nat)

  /** `issues.filter((item) => item.type === k).length` */
  function CountOf(kinds: seq<IssueType>, k: IssueType): nat {
    if |kinds| == 0 then 0 else (if kinds[0] == k then 1 else 0) + CountOf(kinds[1..], k)
  }

  /** Every issue has exactly one of the three types. */
  lemma {:induction false} CountsPartition(kinds: seq<IssueType>)
    ensures CountOf(kinds, Error) + CountOf(kinds, Warning) + CountOf(kinds, Suggestion) == |kinds|
    decreases |kinds|
  {
    if |kinds| > 0 {
      CountsPartition(kinds[1..]);
    }
  }

  /** Counting one type is taking its multiplicity in the multiset of types. */
  lemma {:induction false} CountOfMultiset(kinds: seq<IssueType>, k: IssueType)
    ensures CountOf(kinds, k) == multiset(kinds)[k]
    decreases |kinds|
  {
    if |kinds| > 0 {
      CountOfMultiset(kinds[1..], k);
      assert kinds == [kinds[0]] + kinds[1..];
      assert multiset(kinds) == multiset([kinds[0]]) + multiset(kinds[1..]);
    }
  }

  /** The `stats` record of a list of issue types: each count is how often
      its type occurs. */
  function Tally(kinds: seq<IssueType>): (st: Stats)
    ensures st.total == |kinds| == st.errors + st.warnings + st.suggestions
    ensures st.errors == multiset(kinds)[Error]
    ensures st.warnings == multiset(kinds)[Warning]
    ensures st.suggestions == multiset(kinds)[Suggestion]
    ensures st.total == 0 <==> kinds == []
  {
    CountsPartition(kinds);
    CountOfMultiset(kinds, Error);
    CountOfMultiset(kinds, Warning);
    CountOfMultiset(kinds, Suggestion);
    Stats(|kinds|, CountOf(kinds, Error), CountOf(kinds, Warning), CountOf(kinds, Suggestion))
  }

  /** The `type` of each issue, in order. */
  function Kinds(issues: seq<Issue>): (kinds: seq<IssueType>)
    ensures |kinds| == |issues|
    ensures forall k :: 0 <= k < |issues| ==> kinds[k] == issues[k].kind
  {
    seq(|issues|, k requires 0 <= k < |issues| => issues[k].kind)
  }

  /** The detector that emits an issue of this type and category, in the
      order the detectors run on a line: logging, `var`, loose equality,
      statement terminator. */
  function Stage(kind: IssueType, category: Category): nat {
    if category == Logging then 0
    else match kind
      case Error => 1
      case Warning => 2
      case Suggestion => 3
  }

  /** Issue order: by line, and within a line by detector. */
  predicate Precedes(line1: nat, stage1: nat, line2: nat, stage2: nat) {
    line1 < line2 || (line1 == line2 && stage1 < stage2)
  }

  function StageOf(issue: Issue): nat {
    Stage(issue.kind, issue.category)
  }

  /** The detector stages of a list of issues, in order. */
  function Stages(issues: seq<Issue>): (stages: seq<nat>)
    ensures |stages| == |issues|
    ensures forall k :: 0 <= k < |issues| ==> stages[k] == StageOf(issues[k])
  {
    if |issues| == 0 then [] else [StageOf(issues[0])] + Stages(issues[1..])
  }

  /** `[stage]` when the detector fires, `[]` otherwise. */
  function Flag(fires: bool, stage: nat): seq<nat> {
    if fires then [stage] else []
  }

  /** Issues by line, and within a line by detector. */
  predicate Ordered(issues: seq<Issue>) {
    forall a, b :: 0 <= a < b < |issues| ==>
      Precedes(issues[a].line, StageOf(issues[a]), issues[b].line, StageOf(issues[b]))
  }

  /** Every issue of `x` precedes every issue of `y`. */
  predicate Before(x: seq<Issue>, y: seq<Issue>) {
    forall a, b :: 0 <= a < |x| && 0 <= b < |y| ==>
      Precedes(x[a].line, StageOf(x[a]), y[b].line, StageOf(y[b]))
  }

  lemma OrderedAppend(x: seq<Issue>, y: seq<Issue>)
    requires Ordered(x) && Ordered(y) && Before(x, y)
    ensures Ordered(x + y)
  {
    forall a, b | 0 <= a < b < |x + y|
      ensures Precedes((x + y)[a].line, StageOf((x + y)[a]), (x + y)[b].line, StageOf((x + y)[b]))
    {
      if b < |x| {
      } else if a < |x| {
        assert (x + y)[b] == y[b - |x|];
      } else {
        assert (x + y)[a] == y[a - |x|] && (x + y)[b] == y[b - |x|];
      }
    }
  }

  lemma {:induction false} StagesAppend(x: seq<Issue>, y: seq<Issue>)
    ensures Stages(x + y) == Stages(x) + Stages(y)
    decreases |x|
  {
    if |x| > 0 {
      assert (x + y)[1..] == x[1..] + y;
      StagesAppend(x[1..], y);
    } else {
      assert x + y == y;
    }
  }

  /** What the four detectors of one line found, each at most one issue. */
  datatype Findings = Findings(
    logging: Option<Issue>,
    declaration: Option<Issue>,
    equality: Option<Issue>,
    terminator: Option<Issue>)

  /** Every finding is on line `n` and comes from its own detector. */
  predicate Staged(found: Findings, n: nat) {
    && (found.logging.Some? ==> found.logging.value.line == n && StageOf(found.logging.value) == 0)
    && (found.declaration.Some? ==> found.declaration.value.line == n && StageOf(found.declaration.value) == 1)
    && (found.equality.Some? ==> found.equality.value.line == n && StageOf(found.equality.value) == 2)
    && (found.terminator.Some? ==> found.terminator.value.line == n && StageOf(found.terminator.value) == 3)
  }

  /** The finding of one detector as a list of at most one issue. */
  function Pushed(finding: Option<Issue>): (issues: seq<Issue>)
    ensures |issues| <= 1
    ensures forall k :: 0 <= k < |issues| ==> finding == Some(issues[k])
  {
    if finding.Some? then [finding.value] else []
  }

  /** The findings of one line in the order the detectors push them. */
  function InDetectorOrder(found: Findings, n: nat): (issues: seq<Issue>)
    requires Staged(found, n)
    ensures forall k :: 0 <= k < |issues| ==> issues[k].line == n
    ensures Ordered(issues)
  {
    var tail := Pushed(found.equality) + Pushed(found.terminator);
    OrderedAppend(Pushed(found.equality), Pushed(found.terminator));
    var rest := Pushed(found.declaration) + tail;
    OrderedAppend(Pushed(found.declaration), tail);
    OrderedAppend(Pushed(found.logging), rest);
    Pushed(found.logging) + rest
  }

  /** Each detector that fires contributes exactly one issue, in detector
      order, and nothing else is reported. */
  lemma InDetectorOrderStages(found: Findings, n: nat)
    requires Staged(found, n)
    ensures Stages(InDetectorOrder(found, n))
         == Flag(found.logging.Some?, 0) + (Flag(found.declaration.Some?, 1)
          + (Flag(found.equality.Some?, 2) + Flag(found.terminator.Some?, 3)))
  {
    var tail := Pushed(found.equality) + Pushed(found.terminator);
    var rest := Pushed(found.declaration) + tail;
    StagesAppend(Pushed(found.equality), Pushed(found.terminator));
    StagesAppend(Pushed(found.declaration), tail);
    StagesAppend(Pushed(found.logging), rest);
    StagesPushed(found.logging, 0);
    StagesPushed(found.declaration, 1);
    StagesPushed(found.equality, 2);
    StagesPushed(found.terminator, 3);
  }

  lemma StagesPushed(finding: Option<Issue>, stage: nat)
    requires finding.Some? ==> StageOf(finding.value) == stage
    ensures Stages(Pushed(finding)) == Flag(finding.Some?, stage)
  {
  }

  /** Each reported issue is the finding of the detector its stage names. */
  lemma InDetectorOrderMembers(found: Findings, n: nat)
    requires Staged(found, n)
    ensures forall k :: 0 <= k < |InDetectorOrder(found, n)| ==>
      var issue := InDetectorOrder(found, n)[k];
      && (StageOf(issue) == 0 ==> found.logging == Some(issue))
      && (StageOf(issue) == 1 ==> found.declaration == Some(issue))
      && (StageOf(issue) == 2 ==> found.equality == Some(issue))
      && (StageOf(issue) == 3 ==> found.terminator == Some(issue))
      && StageOf(issue) <= 3
  {
    var issues := InDetectorOrder(found, n);
    forall k | 0 <= k < |issues|
      ensures Some(issues[k]) == found.logging || Some(issues[k]) == found.declaration
           || Some(issues[k]) == found.equality || Some(issues[k]) == found.terminator
    {
    }
  }
}
