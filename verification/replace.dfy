/** The three `String.prototype.replace` calls whose behaviour the analyzers
    depend on: the replacement-template expansion of a string replacement,
    the global loose-equality rewrite (a left-to-right scan whose matches
    consume their neighbouring characters), and the global `var` keyword
    rewrite of `server.js`. */
module Replace {
  import opened Wrappers
  import opened Text
  import opened Decimal
  import opened Patterns

  /** What a replacement template may refer to: the matched text, the text
      before and after it, and the one capture group of the pattern. */
  datatype Captures = Captures(matched: string, before: string, after: string, group: string)

  /** Every character of `s` comes from `t` or from the captures. */
  predicate DrawnFrom(s: string, t: string, cap: Captures) {
    forall k :: 0 <= k < |s| ==>
      s[k] in t || s[k] in cap.matched || s[k] in cap.before || s[k] in cap.after || s[k] in cap.group
  }

  /** Expansion of a replacement template for a pattern with exactly one
      capture group and no named groups (GetSubstitution, ECMAScript 2023):
      `$$` is `$`; `$&`, `` $` `` and `$'` are the match and its
      surroundings; `$1` and `$01` are the group; a two-digit reference past
      the group count is read as one digit followed by a literal digit; any
      other `$n`, `$nn` and `$<` stays as written. Text up to the first `$`
      is copied, and a template without `$` expands to itself. */
  function Substitute(t: string, cap: Captures): (r: string)
    ensures '$' !in t ==> r == t
    ensures |t| > 0 && t[0] != '$' ==> |r| > 0 && r[0] == t[0]
    decreases |t|
  {
    if |t| == 0 then ""
    else if t[0] != '$' || |t| == 1 then [t[0]] + Substitute(t[1..], cap)
    else
      var width := ReferenceWidth(t);
      Reference(t, cap) + Substitute(t[width..], cap)
  }

  /** Whether `t`, which starts with `$`, opens with a two-digit group reference. */
  predicate TwoDigitReference(t: string)
    requires |t| >= 2
  {
    3 <= |t| && IsDigit(t[1]) && IsDigit(t[2]) && 10 * DigitValue(t[1]) + DigitValue(t[2]) <= 1
  }

  /** How many characters of `t` (which starts with `$`) the reference at its
      front spans: 1 for a `$` that is left as it is. */
  function ReferenceWidth(t: string): (w: nat)
    requires |t| >= 2
    ensures 1 <= w <= 3 && w <= |t|
  {
    var c := t[1];
    if c == '$' || c == '&' || c == '`' || c == '\'' || c == '<' || (IsDigit(c) && !TwoDigitReference(t)) then 2
    else if TwoDigitReference(t) then 3
    else 1
  }

  /** What the reference at the front of `t` expands to. */
  function Reference(t: string, cap: Captures): string
    requires |t| >= 2
  {
    var c := t[1];
    var width := ReferenceWidth(t);
    if c == '$' then "$"
    else if c == '&' then cap.matched
    else if c == '`' then cap.before
    else if c == '\'' then cap.after
    else if IsDigit(c) then
      var index := if TwoDigitReference(t) then 10 * DigitValue(c) + DigitValue(t[2]) else DigitValue(c);
      if index == 1 then cap.group else t[..width]
    else t[..width]
  }

  /** Every character of an expansion comes from the template or the captures. */
  lemma {:induction false} SubstituteDrawnFrom(t: string, cap: Captures)
    ensures DrawnFrom(Substitute(t, cap), t, cap)
    decreases |t|
  {
    if |t| == 0 {
    } else if t[0] != '$' || |t| == 1 {
      var rest := Substitute(t[1..], cap);
      SubstituteDrawnFrom(t[1..], cap);
      forall k | 0 <= k < |rest| && rest[k] in t[1..] ensures rest[k] in t { }
    } else {
      var width := ReferenceWidth(t);
      var piece := Reference(t, cap);
      var rest := Substitute(t[width..], cap);
      SubstituteDrawnFrom(t[width..], cap);
      assert DrawnFrom(piece, t, cap);
      forall k | 0 <= k < |rest| && rest[k] in t[width..] ensures rest[k] in t { }
      assert Substitute(t, cap) == piece + rest;
    }
  }

  /** Text before the first `$` of a template is copied unchanged. */
  lemma {:induction false} SubstituteLiteralPrefix(p: string, t: string, cap: Captures)
    requires '$' !in p
    ensures Substitute(p + t, cap) == p + Substitute(t, cap)
    decreases |p|
  {
    if |p| > 0 {
      var s := p + t;
      assert p[0] in p;
      assert s[0] == p[0] && s[1..] == p[1..] + t;
      assert Substitute(s, cap) == [p[0]] + Substitute(p[1..] + t, cap);
      SubstituteLiteralPrefix(p[1..], t, cap);
      AppendAssoc([p[0]], p[1..], Substitute(t, cap));
      assert p == [p[0]] + p[1..];
    } else {
      assert p + t == t;
    }
  }

  /** `$1` alone expands to the capture group. */
  lemma FirstGroup(cap: Captures)
    ensures Substitute("$1", cap) == cap.group
  {
    var t := "$1";
    assert t[0] == '$' && t[1] == '1' && |t| == 2;
    assert ReferenceWidth(t) == 2;
    assert Reference(t, cap) == cap.group;
    assert t[2..] == "";
    assert Substitute(t, cap) == Reference(t, cap) + Substitute(t[2..], cap);
  }

  /** A character in neither the template nor the captured text is not in
      the expansion either. */
  lemma SubstituteAvoids(t: string, cap: Captures, c: char)
    requires c !in t && c !in cap.matched && c !in cap.before && c !in cap.after && c !in cap.group
    ensures c !in Substitute(t, cap)
  {
    SubstituteDrawnFrom(t, cap);
  }

  /** Which loose-equality pattern is in use. */
  datatype EqualityRule =
    | LineRule   // /(^|[^=!<>])==([^=])/g, applied to one line
    | TextRule   // /([^=!])==([^=])/g, applied to the whole text

  /** The end of a loose-equality match starting at `p`, if there is one.
      `LineRule` tries the `^` alternative before `[^=!<>]`; `TextRule` has
      no `^` alternative, so `==` at offset 0 never matches. */
  function LooseEqualityAt(rule: EqualityRule, s: string, p: nat): (e: Option<nat>)
    ensures e.Some? ==> p + 3 <= e.value <= |s|
    ensures e.Some? ==> s[e.value - 3] == '=' && s[e.value - 2] == '=' && s[e.value - 1] != '='
    ensures e.Some? && e.value - p == 4 ==> s[p] != '=' && s[p] != '!'
    ensures e.Some? && e.value - p == 4 && rule == LineRule ==> s[p] != '<' && s[p] != '>'
    ensures e.Some? && e.value - p == 3 ==> rule == LineRule && p == 0
  {
    match rule
    case LineRule =>
      if p == 0 && 3 <= |s| && s[0] == '=' && s[1] == '=' && s[2] != '=' then Some(3)
      else if p + 4 <= |s| && s[p] != '=' && s[p] != '!' && s[p] != '<' && s[p] != '>'
        && s[p + 1] == '=' && s[p + 2] == '=' && s[p + 3] != '=' then Some(p + 4)
      else None
    case TextRule =>
      if p + 4 <= |s| && s[p] != '=' && s[p] != '!'
        && s[p + 1] == '=' && s[p + 2] == '=' && s[p + 3] != '=' then Some(p + 4)
      else None
  }

  /** Inserting `=` into a text changes nothing once `=` is deleted. */
  lemma WithoutInsert(x: string, c: char, y: string, y2: string)
    requires Without(y2, '=') == Without(y, '=')
    ensures Without(x + "=" + [c] + y2, '=') == Without(x + [c] + y, '=')
  {
    var a := x + "=";
    var b := [c] + y2;
    var b' := [c] + y;
    assert x + "=" + [c] + y2 == a + b;
    assert x + [c] + y == x + b';
    WithoutAppend(a, b, '=');
    WithoutAppend(x, "=", '=');
    assert Without("=", '=') == "" by { assert "="[1..] == ""; }
    assert Without(a, '=') == Without(x, '=');
    assert b[1..] == y2 && b'[1..] == y;
    assert Without(b, '=') == Without(b', '=');
    WithoutAppend(x, b', '=');
  }

  /** The global replace from `p` on: each match, found left to right from
      where the previous one ended, is rewritten by inserting `=` between its
      `==` and its final character; unmatched characters are copied. Returns
      the rewritten rest of `s` and the number of rewrites. */
  function StrictifyFrom(rule: EqualityRule, s: string, p: nat): (res: (string, nat))
    requires p <= |s|
    ensures |res.0| == |s| - p + res.1
    ensures res.1 == 0 ==> res.0 == s[p..]
    decreases |s| - p
  {
    if p == |s| then ("", 0)
    else
      var m := LooseEqualityAt(rule, s, p);
      if m.Some? then
        var e := m.value;
        var rest := StrictifyFrom(rule, s, e);
        (Spliced(s, p, e, rest.0), rest.1 + 1)
      else
        var rest := StrictifyFrom(rule, s, p + 1);
        assert s[p..] == [s[p]] + s[p + 1..];
        ([s[p]] + rest.0, rest.1)
  }

  /** The match `s[p..e]` with `=` inserted before its last character,
      followed by `rest`. */
  function Spliced(s: string, p: nat, e: nat, rest: string): (r: string)
    requires p < e <= |s|
    ensures |r| == e - p + 1 + |rest|
  {
    s[p..e - 1] + "=" + [s[e - 1]] + rest
  }

  /** The rewrite only inserts `=`: deleting every `=` from input and output
      leaves the same text, so all other characters, the neighbours of each
      `==` included, are kept in order. */
  lemma {:induction false} StrictifyKeepsOthers(rule: EqualityRule, s: string, p: nat)
    requires p <= |s|
    ensures Without(StrictifyFrom(rule, s, p).0, '=') == Without(s[p..], '=')
    decreases |s| - p
  {
    if p < |s| {
      var m := LooseEqualityAt(rule, s, p);
      if m.Some? {
        StrictifyKeepsOthers(rule, s, m.value);
        KeepsOthersAtMatch(rule, s, p);
      } else {
        StrictifyKeepsOthers(rule, s, p + 1);
        KeepsOthersAtCopy(rule, s, p);
      }
    }
  }

  lemma KeepsOthersAtMatch(rule: EqualityRule, s: string, p: nat)
    requires p < |s| && LooseEqualityAt(rule, s, p).Some?
    requires var e := LooseEqualityAt(rule, s, p).value;
      Without(StrictifyFrom(rule, s, e).0, '=') == Without(s[e..], '=')
    ensures Without(StrictifyFrom(rule, s, p).0, '=') == Without(s[p..], '=')
  {
    var e := LooseEqualityAt(rule, s, p).value;
    var rest := StrictifyFrom(rule, s, e).0;
    assert StrictifyFrom(rule, s, p).0 == Spliced(s, p, e, rest);
    InsertKeepsOthers(s, p, e, rest);
  }

  /** `WithoutInsert` for the piece of `s` one match spans. */
  lemma InsertKeepsOthers(s: string, p: nat, e: nat, rest: string)
    requires p < e <= |s|
    requires Without(rest, '=') == Without(s[e..], '=')
    ensures Without(Spliced(s, p, e, rest), '=') == Without(s[p..], '=')
  {
    assert s[p..] == s[p..e - 1] + [s[e - 1]] + s[e..];
    WithoutInsert(s[p..e - 1], s[e - 1], s[e..], rest);
  }

  lemma KeepsOthersAtCopy(rule: EqualityRule, s: string, p: nat)
    requires p < |s| && LooseEqualityAt(rule, s, p).None?
    requires Without(StrictifyFrom(rule, s, p + 1).0, '=') == Without(s[p + 1..], '=')
    ensures Without(StrictifyFrom(rule, s, p).0, '=') == Without(s[p..], '=')
  {
    var rest := StrictifyFrom(rule, s, p + 1).0;
    assert StrictifyFrom(rule, s, p).0 == [s[p]] + rest;
    CopyKeepsOthers(s, p, rest);
  }

  /** Copying one character of `s` keeps the `=`-free text in step. */
  lemma CopyKeepsOthers(s: string, p: nat, rest: string)
    requires p < |s|
    requires Without(rest, '=') == Without(s[p + 1..], '=')
    ensures Without([s[p]] + rest, '=') == Without(s[p..], '=')
  {
    assert s[p..] == [s[p]] + s[p + 1..];
    WithoutAppend([s[p]], s[p + 1..], '=');
    WithoutAppend([s[p]], rest, '=');
  }

  /** At least one rewrite happens exactly when the pattern matches somewhere
      (non-consuming search): a match the scan skips over lies inside a match
      it took. */
  lemma {:induction false} StrictifyCountIff(rule: EqualityRule, s: string, p: nat)
    requires p <= |s|
    ensures StrictifyFrom(rule, s, p).1 > 0 <==> exists q :: p <= q < |s| && LooseEqualityAt(rule, s, q).Some?
    decreases |s| - p
  {
    if p < |s| && LooseEqualityAt(rule, s, p).None? {
      StrictifyCountIff(rule, s, p + 1);
    }
  }

  /** `s.replace(rule's regex, …)` over the whole of `s`, with the number of
      rewrites the replacement callback counted. */
  function Strictify(rule: EqualityRule, s: string): (res: (string, nat))
    ensures |res.0| == |s| + res.1
    ensures Without(res.0, '=') == Without(s, '=')
    ensures res.1 > 0 <==> exists q :: 0 <= q < |s| && LooseEqualityAt(rule, s, q).Some?
    ensures res.1 == 0 <==> res.0 == s
  {
    StrictifyKeepsOthers(rule, s, 0);
    StrictifyCountIff(rule, s, 0);
    assert s[0..] == s;
    StrictifyFrom(rule, s, 0)
  }

  /** Each rewrite adds exactly one `=`. */
  lemma StrictifyAddsOneEqualsPerRewrite(rule: EqualityRule, s: string)
    ensures Occurrences(Strictify(rule, s).0, '=') == Occurrences(s, '=') + Strictify(rule, s).1
  {
  }

  /** The scan from `p` skips to the leftmost match at or after `p`, copies
      the text before it and the match with `=` inserted between its `==`
      and its last character, and resumes where the match ends. */
  lemma {:induction false} StrictifyLeftmost(rule: EqualityRule, s: string, p: nat, q: nat)
    requires p <= q < |s| && LooseEqualityAt(rule, s, q).Some?
    requires forall r :: p <= r < q ==> LooseEqualityAt(rule, s, r).None?
    ensures var e := LooseEqualityAt(rule, s, q).value;
      && StrictifyFrom(rule, s, p).0 == Spliced(s, p, e, StrictifyFrom(rule, s, e).0)
      && StrictifyFrom(rule, s, p).1 == StrictifyFrom(rule, s, e).1 + 1
    decreases q - p
  {
    var e := LooseEqualityAt(rule, s, q).value;
    var rest := StrictifyFrom(rule, s, e);
    if p < q {
      StrictifyLeftmost(rule, s, p + 1, q);
      StrictifyCopyStep(rule, s, p);
      CopySplice(s, p, e, rest.0);
    } else {
      StrictifyMatchStep(rule, s, p);
    }
  }

  /** A loose-equality match ending at `e` has `==` just before its last
      character. */
  lemma MatchEndsInEquals(rule: EqualityRule, s: string, q: nat)
    requires LooseEqualityAt(rule, s, q).Some?
    ensures var e := LooseEqualityAt(rule, s, q).value;
      3 <= e <= |s| && s[e - 3..e - 1] == "=="
  {
    var e := LooseEqualityAt(rule, s, q).value;
    var eq := s[e - 3..e - 1];
    assert |eq| == 2 && eq[0] == s[e - 3] && eq[1] == s[e - 2];
  }

  /** Copying `s[p]` in front of a splice that starts at `p + 1`. */
  lemma CopySplice(s: string, p: nat, e: nat, rest: string)
    requires p + 1 < e <= |s|
    ensures [s[p]] + Spliced(s, p + 1, e, rest) == Spliced(s, p, e, rest)
  {
    assert s[p..e - 1] == [s[p]] + s[p + 1..e - 1];
  }

  /** The scan copies a character where no match starts. */
  lemma StrictifyCopyStep(rule: EqualityRule, s: string, p: nat)
    requires p < |s| && LooseEqualityAt(rule, s, p).None?
    ensures StrictifyFrom(rule, s, p).0 == [s[p]] + StrictifyFrom(rule, s, p + 1).0
    ensures StrictifyFrom(rule, s, p).1 == StrictifyFrom(rule, s, p + 1).1
  {
  }

  /** The scan rewrites a match that starts at `p` and resumes at its end. */
  lemma StrictifyMatchStep(rule: EqualityRule, s: string, p: nat)
    requires p < |s| && LooseEqualityAt(rule, s, p).Some?
    ensures var e := LooseEqualityAt(rule, s, p).value;
      && StrictifyFrom(rule, s, p).0 == Spliced(s, p, e, StrictifyFrom(rule, s, e).0)
      && StrictifyFrom(rule, s, p).1 == StrictifyFrom(rule, s, e).1 + 1
  {
  }

  /** Without a match at or after `p`, the scan copies the rest of the text. */
  lemma StrictifyNoMatch(rule: EqualityRule, s: string, p: nat)
    requires p <= |s|
    requires forall r :: p <= r < |s| ==> LooseEqualityAt(rule, s, r).None?
    ensures StrictifyFrom(rule, s, p) == (s[p..], 0)
  {
    StrictifyCountIff(rule, s, p);
  }

  /** With a single match for the scan, at `q` and ending at `e`, the
      rewrite is the text with one `=` inserted before `e - 1`, which is
      right after the matched `==`. */
  lemma StrictifyOnce(rule: EqualityRule, s: string, q: nat)
    requires q < |s| && LooseEqualityAt(rule, s, q).Some?
    requires forall r :: 0 <= r < q ==> LooseEqualityAt(rule, s, r).None?
    requires forall r :: LooseEqualityAt(rule, s, q).value <= r < |s| ==> LooseEqualityAt(rule, s, r).None?
    ensures var e := LooseEqualityAt(rule, s, q).value;
      Strictify(rule, s) == (s[..e - 1] + "=" + s[e - 1..], 1)
  {
    var e := LooseEqualityAt(rule, s, q).value;
    StrictifyLeftmost(rule, s, 0, q);
    MatchEndsInEquals(rule, s, q);
    StrictifyNoMatch(rule, s, e);
    StrictifyStartsAtZero(rule, s);
    SplicedWhole(s, e);
  }

  /** The global rewrite is the scan from the start of the text. */
  lemma StrictifyStartsAtZero(rule: EqualityRule, s: string)
    ensures Strictify(rule, s).0 == StrictifyFrom(rule, s, 0).0
    ensures Strictify(rule, s).1 == StrictifyFrom(rule, s, 0).1
  {
  }

  /** A splice from the start whose rest is the rest of the text inserts
      one `=` before `e - 1`. */
  lemma SplicedWhole(s: string, e: nat)
    requires 1 <= e <= |s|
    ensures Spliced(s, 0, e, s[e..]) == s[..e - 1] + "=" + s[e - 1..]
  {
    assert s[e - 1..] == [s[e - 1]] + s[e..];
    assert s[0..e - 1] == s[..e - 1];
  }

  /** The scan consumes what it matched: in `a==b==c` the second `==`
      starts inside the first match, so only the first is rewritten and the
      line becomes `a===b==c`. */
  lemma StrictifyConsumes(a: char, b: char, c: char)
    requires a != '=' && a != '!' && a != '<' && a != '>' && b != '='
    ensures Strictify(LineRule, [a, '=', '=', b, '=', '=', c]) == ([a, '=', '=', '=', b, '=', '=', c], 1)
  {
    var s := [a, '=', '=', b, '=', '=', c];
    assert LooseEqualityAt(LineRule, s, 0) == Some(4);
    StrictifyOnce(LineRule, s, 0);
    assert s[..3] + "=" + s[3..] == [a, '=', '=', '=', b, '=', '=', c];
  }

  /** `==` at the start of a line is rewritten by the per-line pattern
      (its `^` alternative), and not by the whole-text pattern. */
  lemma StrictifyLineStart(x: char)
    requires x != '='
    ensures Strictify(LineRule, ['=', '=', x]) == (['=', '=', '=', x], 1)
    ensures Strictify(TextRule, ['=', '=', x]) == (['=', '=', x], 0)
  {
    var s := ['=', '=', x];
    assert LooseEqualityAt(LineRule, s, 0) == Some(3);
    StrictifyOnce(LineRule, s, 0);
    assert s[..2] + "=" + s[2..] == ['=', '=', '=', x];
    StrictifyNoMatch(TextRule, s, 0);
    assert Strictify(TextRule, s) == StrictifyFrom(TextRule, s, 0);
  }

  /** A strict `===` is left alone while a loose `==` after it is
      rewritten: `a===b==c` becomes `a===b===c`. */
  lemma StrictifyKeepsStrict(a: char, b: char, c: char)
    requires b != '=' && b != '!' && b != '<' && b != '>' && c != '='
    ensures Strictify(LineRule, [a, '=', '=', '=', b, '=', '=', c])
         == ([a, '=', '=', '=', b, '=', '=', '=', c], 1)
  {
    var s := [a, '=', '=', '=', b, '=', '=', c];
    assert LooseEqualityAt(LineRule, s, 4) == Some(8);
    StrictifyOnce(LineRule, s, 4);
    assert s[..7] + "=" + s[7..] == [a, '=', '=', '=', b, '=', '=', '=', c];
  }

  /** A comparison ` == ` between two `=`-free texts becomes ` === `; so
      `if (a == b) {}` becomes `if (a === b) {}`. */
  lemma StrictifyComparison(rule: EqualityRule, x: string, y: string)
    requires '=' !in x && '=' !in y
    ensures Strictify(rule, x + " == " + y) == (x + " === " + y, 1)
  {
    var s := x + " == " + y;
    var q := |x|;
    assert s[q..q + 4] == " == " && s[q + 4..] == y;
    assert LooseEqualityAt(rule, s, q) == Some(q + 4);
    forall r | 0 <= r < q ensures LooseEqualityAt(rule, s, r).None? {
      assert s[r + 1] != '=' by {
        if r + 1 < q { assert s[r + 1] == x[r + 1]; }
      }
    }
    forall r | q + 4 <= r < |s| ensures LooseEqualityAt(rule, s, r).None? {
      assert s[r] == y[r - q - 4];
    }
    StrictifyOnce(rule, s, q);
    assert s[..q + 3] + "=" + s[q + 3..] == x + " === " + y;
  }

  /** A whole-word `var` keyword at `i`, letter by letter. */
  predicate VarWordAt(s: string, i: nat)
    requires i <= |s|
  {
    && i + 3 <= |s| && s[i] == 'v' && s[i + 1] == 'a' && s[i + 2] == 'r'
    && WordStart(s, i) && WordEnd(s, i + 3)
  }

  /** `VarWordAt` is exactly a match of `/\bvar\b/`. */
  lemma VarWordAtMatches(s: string, i: nat)
    requires i <= |s|
    ensures VarWordAt(s, i) <==> MatchesAt(VarWord, s, i)
  {
    if i + 3 <= |s| {
      var w := s[i..i + 3];
      assert w[0] == s[i] && w[1] == s[i + 1] && w[2] == s[i + 2];
      assert w == "var" <==> (w[0] == 'v' && w[1] == 'a' && w[2] == 'r');
    }
  }

  /** `p` is not inside a whole-word `var`: a scan may resume there. */
  predicate ScanPoint(s: string, p: nat)
    requires p <= |s|
  {
    !(p >= 1 && VarWordAt(s, p - 1)) && !(p >= 2 && VarWordAt(s, p - 2))
  }

  /** `s.replace(/\bvar\b/g, 'let')` from `p` on. Keyword occurrences cannot
      overlap, so the scan meets every one of them. */
  function ReplaceVarWordsFrom(s: string, p: nat): (r: string)
    requires p <= |s| && ScanPoint(s, p)
    ensures |r| == |s| - p
    decreases |s| - p
  {
    if p == |s| then ""
    else if VarWordAt(s, p) then
      KeywordsDoNotOverlap(s, p);
      "let" + ReplaceVarWordsFrom(s, p + 3)
    else
      [s[p]] + ReplaceVarWordsFrom(s, p + 1)
  }

  /** The character the keyword rewrite puts at position `k` of `s`. */
  function Rewritten(s: string, k: nat): char
    requires k < |s|
  {
    if VarWordAt(s, k) then 'l'
    else if k >= 1 && VarWordAt(s, k - 1) then 'e'
    else if k >= 2 && VarWordAt(s, k - 2) then 't'
    else s[k]
  }

  /** A keyword occurrence at `p` rules one out at the next two positions. */
  lemma KeywordsDoNotOverlap(s: string, p: nat)
    requires p <= |s| && VarWordAt(s, p)
    ensures p + 3 <= |s|
    ensures !VarWordAt(s, p + 1) && !VarWordAt(s, p + 2)
  {
  }

  lemma {:induction false} ReplaceVarWordsPointwise(s: string, p: nat)
    requires p <= |s| && ScanPoint(s, p)
    ensures forall k :: p <= k < |s| ==> ReplaceVarWordsFrom(s, p)[k - p] == Rewritten(s, k)
    decreases |s| - p
  {
    if p < |s| {
      if VarWordAt(s, p) {
        KeywordsDoNotOverlap(s, p);
        ReplaceVarWordsPointwise(s, p + 3);
        PointwiseAtKeyword(s, p);
      } else {
        ReplaceVarWordsPointwise(s, p + 1);
        PointwiseAtCopy(s, p);
      }
    }
  }

  /** One step of `ReplaceVarWordsPointwise` over a keyword. */
  lemma PointwiseAtKeyword(s: string, p: nat)
    requires p < |s| && ScanPoint(s, p) && VarWordAt(s, p)
    requires p + 3 <= |s| && ScanPoint(s, p + 3)
    requires forall k :: p + 3 <= k < |s| ==> ReplaceVarWordsFrom(s, p + 3)[k - (p + 3)] == Rewritten(s, k)
    ensures forall k :: p <= k < |s| ==> ReplaceVarWordsFrom(s, p)[k - p] == Rewritten(s, k)
  {
    KeywordsDoNotOverlap(s, p);
    assert Rewritten(s, p) == 'l' && Rewritten(s, p + 1) == 'e' && Rewritten(s, p + 2) == 't';
    ShiftPointwise(s, p, "let", ReplaceVarWordsFrom(s, p + 3));
  }

  /** One step of `ReplaceVarWordsPointwise` over a copied character. */
  lemma PointwiseAtCopy(s: string, p: nat)
    requires p < |s| && ScanPoint(s, p) && !VarWordAt(s, p)
    requires ScanPoint(s, p + 1)
    requires forall k :: p + 1 <= k < |s| ==> ReplaceVarWordsFrom(s, p + 1)[k - (p + 1)] == Rewritten(s, k)
    ensures forall k :: p <= k < |s| ==> ReplaceVarWordsFrom(s, p)[k - p] == Rewritten(s, k)
  {
    assert Rewritten(s, p) == s[p];
    ShiftPointwise(s, p, [s[p]], ReplaceVarWordsFrom(s, p + 1));
  }

  /** A rewritten piece followed by a rewritten rest is a rewritten whole. */
  lemma ShiftPointwise(s: string, p: nat, head: string, rest: string)
    requires p + |head| + |rest| == |s|
    requires forall k :: p <= k < p + |head| ==> head[k - p] == Rewritten(s, k)
    requires forall k :: p + |head| <= k < |s| ==> rest[k - (p + |head|)] == Rewritten(s, k)
    ensures forall k :: p <= k < |s| ==> (head + rest)[k - p] == Rewritten(s, k)
  {
    forall k | p <= k < |s|
      ensures (head + rest)[k - p] == Rewritten(s, k)
    {
      if k >= p + |head| {
        assert (head + rest)[k - p] == rest[k - (p + |head|)];
      }
    }
  }

  /** `s.replace(/\bvar\b/g, 'let')` */
  function ReplaceVarWords(s: string): (r: string)
    ensures |r| == |s|
    ensures forall k :: 0 <= k < |s| ==> r[k] == Rewritten(s, k)
  {
    ReplaceVarWordsPointwise(s, 0);
    ReplaceVarWordsFrom(s, 0)
  }

  /** The rewrite turns a keyword's `v`, `a`, `r` into `l`, `e`, `t` and
      keeps every other character. */
  lemma RewrittenCases(s: string, k: nat)
    requires k < |s|
    ensures || Rewritten(s, k) == s[k]
            || (s[k] == 'v' && Rewritten(s, k) == 'l')
            || (s[k] == 'a' && Rewritten(s, k) == 'e')
            || (s[k] == 'r' && Rewritten(s, k) == 't')
  {
  }

  /** The rewrite keeps every character's word class, and a character that
      reads `v`, `a` or `r` afterwards was there before. */
  lemma RewrittenChar(s: string, k: nat)
    requires k < |s|
    ensures IsWord(Rewritten(s, k)) == IsWord(s[k])
    ensures Rewritten(s, k) in "var" ==> Rewritten(s, k) == s[k]
    ensures Rewritten(s, k) == s[k] || (s[k] in "var" && Rewritten(s, k) in "let")
  {
    RewrittenCases(s, k);
  }

  /** After the global rewrite no whole-word `var` is left: `let` cannot
      be part of a `var`, and the rewrite keeps word boundaries. */
  lemma NoVarWordRemains(s: string)
    ensures forall i :: 0 <= i <= |s| ==> !VarWordAt(ReplaceVarWords(s), i)
  {
    var r := ReplaceVarWords(s);
    forall i | 0 <= i <= |r|
      ensures !VarWordAt(r, i)
    {
      if VarWordAt(s, i) {
        assert r[i] == 'l';
      } else if i + 3 <= |s| && s[i] != 'v' {
        RewrittenChar(s, i);
      } else if i + 3 <= |s| && s[i + 1] != 'a' {
        RewrittenChar(s, i + 1);
      } else if i + 3 <= |s| && s[i + 2] != 'r' {
        RewrittenChar(s, i + 2);
      } else if i + 3 <= |s| && i > 0 && IsWord(s[i - 1]) {
        RewrittenChar(s, i - 1);
      } else if i + 3 < |s| && IsWord(s[i + 3]) {
        RewrittenChar(s, i + 3);
      }
    }
  }

  /** The keyword rewrite neither adds nor removes line feeds. */
  lemma ReplaceVarWordsKeepsLineFeeds(s: string)
    ensures Occurrences(ReplaceVarWords(s), '\n') == Occurrences(s, '\n')
  {
    var r := ReplaceVarWords(s);
    forall k | 0 <= k < |s|
      ensures r[k] == '\n' <==> s[k] == '\n'
    {
      RewrittenChar(s, k);
    }
    OccurrencesPointwise(r, s, '\n');
  }

  /** A text that opens with the keyword `var`, followed by a non-word
      character and no further `v`, has only that keyword rewritten. */
  lemma LeadingKeyword(w: string)
    requires |w| > 0 && !IsWord(w[0]) && 'v' !in w
    ensures ReplaceVarWords("var" + w) == "let" + w
  {
    var s := "var" + w;
    var r := ReplaceVarWords(s);
    assert VarWordAt(s, 0);
    forall j | 1 <= j <= |s| ensures !VarWordAt(s, j) {
      if j >= 3 && j < |s| { assert s[j] == w[j - 3]; }
    }
    forall k | 0 <= k < |s| ensures r[k] == ("let" + w)[k] {
      if k >= 3 { assert s[k] == w[k - 3]; }
    }
  }

  /** A text with a single `=` holds no loose equality, so neither rule
      rewrites it. */
  lemma StrictifySingleEquals(rule: EqualityRule, x: string, z: string)
    requires '=' !in x && '=' !in z
    ensures Strictify(rule, x + "=" + z).0 == x + "=" + z
  {
    var s := x + "=" + z;
    forall m | 0 <= m < |s| - 1 ensures s[m] != '=' || s[m + 1] != '=' {
      if m < |x| {
        assert s[m] == x[m];
      } else {
        assert s[m + 1] == z[m - |x|];
      }
    }
    forall q | 0 <= q < |s| ensures LooseEqualityAt(rule, s, q).None? { }
  }
}
