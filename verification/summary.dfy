/** The `summary` strings of both analyzers, and readers that recover the
    counts from them. */
module Summary {
  import opened Wrappers
  import opened Text
  import opened Decimal
  import opened Issues

  const NoIssues := "No issues found."

  /** `${n} noun` with the noun in the singular exactly when `n` is 1. */
  function Plural(noun: string, n: nat): string {
    if n == 1 then noun else noun + "s"
  }

  /** `${n} noun(s)` */
  function CountPhrase(n: nat, noun: string): (r: string)
    ensures |r| > 0 && IsDigit(r[0])
  {
    Show(n) + " " + Plural(noun, n)
  }

  /** The summary of `lib/analyzer.js`: "No issues found." or
      "E error(s), W warning(s), S suggestion(s)". */
  function CanonicalSummary(errors: nat, warnings: nat, suggestions: nat): (r: string)
    ensures r == NoIssues <==> errors + warnings + suggestions == 0
  {
    if errors + warnings + suggestions == 0 then NoIssues
    else
      var r := CountPhrase(errors, "error") + (", " + (CountPhrase(warnings, "warning")
        + (", " + CountPhrase(suggestions, "suggestion"))));
      assert r[0] == CountPhrase(errors, "error")[0];
      assert r != NoIssues by { assert IsDigit(r[0]) && !IsDigit(NoIssues[0]); }
      r
  }

  /** The summary of `server.js`: "No issues found." or
      "Found N issue(s) (E errors, W warnings, S suggestions)."; only the
      issue count is put in the singular. */
  function ServerSummary(st: Stats): (r: string)
    ensures r == NoIssues <==> st.total == 0
  {
    if st.total == 0 then NoIssues
    else
      var r := "Found " + (CountPhrase(st.total, "issue") + (" (" + (Show(st.errors) + (" errors, "
        + (Show(st.warnings) + (" warnings, " + (Show(st.suggestions) + " suggestions).")))))));
      assert r[0] == 'F' != NoIssues[0];
      r
  }

  /** Reads `${n} noun(s)` at the start of `s`, refusing a noun whose number
      does not agree with `n`. */
  function ReadCount(s: string, noun: string): Option<(nat, string)> {
    match ParseNat(s)
    case None => None
    case Some((n, rest)) =>
      var word := " " + Plural(noun, n);
      if word <= rest then Some((n, rest[|word|..])) else None
  }

  /** Strips `lit` from the front of `s`. */
  function Expect(lit: string, s: string): Option<string> {
    if lit <= s then Some(s[|lit|..]) else None
  }

  /** Reads `, ${n} noun(s)` at the start of `s`. */
  function ReadNext(s: string, noun: string): Option<(nat, string)> {
    match Expect(", ", s)
    case None => None
    case Some(r) => ReadCount(r, noun)
  }

  /** Recovers the three counts from a summary of `lib/analyzer.js`. */
  function ReadCanonicalSummary(r: string): Option<(nat, nat, nat)> {
    if r == NoIssues then Some((0, 0, 0))
    else
      match ReadCount(r, "error")
      case None => None
      case Some((e, r1)) =>
        match ReadNext(r1, "warning")
        case None => None
        case Some((w, r2)) =>
          match ReadNext(r2, "suggestion")
          case None => None
          case Some((s, r3)) => if r3 == "" then Some((e, w, s)) else None
  }

  /** Recovers the stats record from a summary of `server.js`. */
  function ReadServerSummary(r: string): Option<Stats> {
    if r == NoIssues then Some(Stats(0, 0, 0, 0))
    else
      match Expect("Found ", r)
      case None => None
      case Some(r1) =>
        match ReadCount(r1, "issue")
        case None => None
        case Some((n, r2)) =>
          match Expect(" (", r2)
          case None => None
          case Some(r3) =>
            match ReadServerCounts(r3)
            case None => None
            case Some((e, w, s)) => Some(Stats(n, e, w, s))
  }

  /** Reads "E errors, W warnings, S suggestions)." */
  function ReadServerCounts(r: string): Option<(nat, nat, nat)> {
    match ParseNat(r)
    case None => None
    case Some((e, r1)) =>
      match Expect(" errors, ", r1)
      case None => None
      case Some(r2) =>
        match ParseNat(r2)
        case None => None
        case Some((w, r3)) =>
          match Expect(" warnings, ", r3)
          case None => None
          case Some(r4) =>
            match ParseNat(r4)
            case None => None
            case Some((s, r5)) => if r5 == " suggestions)." then Some((e, w, s)) else None
  }

  lemma ReadCountShow(n: nat, noun: string, rest: string)
    ensures ReadCount(CountPhrase(n, noun) + rest, noun) == Some((n, rest))
  {
    var word := " " + Plural(noun, n);
    var tail := word + rest;
    assert CountPhrase(n, noun) + rest == Show(n) + tail;
    assert tail[0] == ' ';
    ParseShow(n, tail);
    assert word <= tail;
    assert tail[|word|..] == rest;
  }

  lemma ExpectPrefix(lit: string, rest: string)
    ensures Expect(lit, lit + rest) == Some(rest)
  {
    assert (lit + rest)[|lit|..] == rest;
  }

  /** The summary of `lib/analyzer.js` determines the counts, with every noun
      in the right number. */
  lemma ReadNextShow(n: nat, noun: string, rest: string)
    ensures ReadNext(", " + (CountPhrase(n, noun) + rest), noun) == Some((n, rest))
  {
    ExpectPrefix(", ", CountPhrase(n, noun) + rest);
    ReadCountShow(n, noun, rest);
  }

  lemma CanonicalSummaryRoundTrip(errors: nat, warnings: nat, suggestions: nat)
    ensures ReadCanonicalSummary(CanonicalSummary(errors, warnings, suggestions))
         == Some((errors, warnings, suggestions))
  {
    if errors + warnings + suggestions > 0 {
      var p3 := CountPhrase(suggestions, "suggestion");
      var t3 := ", " + (p3 + "");
      var t1 := ", " + (CountPhrase(warnings, "warning") + t3);
      var r := CanonicalSummary(errors, warnings, suggestions);
      assert r == CountPhrase(errors, "error") + t1 by {
        assert p3 + "" == p3;
      }
      ReadCountShow(errors, "error", t1);
      ReadNextShow(warnings, "warning", t3);
      ReadNextShow(suggestions, "suggestion", "");
    }
  }

  lemma ServerCountsRoundTrip(errors: nat, warnings: nat, suggestions: nat)
    ensures ReadServerCounts(Show(errors) + (" errors, " + (Show(warnings) + (" warnings, "
              + (Show(suggestions) + " suggestions)."))))) == Some((errors, warnings, suggestions))
  {
    var t4 := " suggestions).";
    var t3 := " warnings, " + (Show(suggestions) + t4);
    var t2 := " errors, " + (Show(warnings) + t3);
    ParseShow(errors, t2);
    ExpectPrefix(" errors, ", Show(warnings) + t3);
    ParseShow(warnings, t3);
    ExpectPrefix(" warnings, ", Show(suggestions) + t4);
    ParseShow(suggestions, t4);
  }

  /** The summary of `server.js` determines a stats record whose counts
      partition its total. */
  lemma ServerSummaryRoundTrip(st: Stats)
    requires st.total == st.errors + st.warnings + st.suggestions
    ensures ReadServerSummary(ServerSummary(st)) == Some(st)
  {
    if st.total > 0 {
      var t2 := Show(st.errors) + (" errors, " + (Show(st.warnings) + (" warnings, "
        + (Show(st.suggestions) + " suggestions)."))));
      var t1 := " (" + t2;
      var r := ServerSummary(st);
      ExpectPrefix("Found ", CountPhrase(st.total, "issue") + t1);
      ReadCountShow(st.total, "issue", t1);
      ExpectPrefix(" (", t2);
      ServerCountsRoundTrip(st.errors, st.warnings, st.suggestions);
    }
  }
}
