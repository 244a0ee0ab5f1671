/** The regular expressions and substring tests of both analyzers, written
    as matchers at a position, and the leftmost search `RegExp.prototype.exec`
    and `String.prototype.indexOf` perform. */
module Patterns {
  import opened Wrappers
  import opened Text

  datatype Pattern =
    | Literal(text: string)  // `includes` / `indexOf` of a fixed string
    | ConsoleLogToken        // /\bconsole\.log\b/
    | VarBinding             // /\bvar\s+([a-zA-Z_$][\w$]*)/
    | VarThenSpace           // /\bvar\s+/
    | VarThenWord            // /\bvar\s+(\w+)/
    | VarWord                // /\bvar\b/

  /** `lit` occurs in `s` at `i`. */
  predicate LiteralAt(s: string, i: nat, lit: string) {
    i + |lit| <= |s| && s[i..i + |lit|] == lit
  }

  /** `\b` just before a word character at `i`. */
  predicate WordStart(s: string, i: nat)
    requires i <= |s|
  {
    i == 0 || !IsWord(s[i - 1])
  }

  /** `\b` just after a word character ending at `i`. */
  predicate WordEnd(s: string, i: nat)
    requires i <= |s|
  {
    i == |s| || !IsWord(s[i])
  }

  /** Where the `\s+` after a `var` keyword at `i` stops. */
  function AfterKeyword(s: string, i: nat): (w: nat)
    requires i + 3 <= |s|
    ensures i + 3 <= w <= |s|
  {
    SpanEnd(s, i + 3, Space)
  }

  /** `\bvar\s+` at `i` */
  predicate KeywordThenSpace(s: string, i: nat)
    requires i <= |s|
  {
    WordStart(s, i) && LiteralAt(s, i, "var") && i + 3 < |s| && IsSpace(s[i + 3])
  }

  /** `pat` matches `s` at position `i`. For the `var` patterns the greedy
      `\s+` never gives characters back: a shorter run would leave a space
      where a name character is needed. */
  predicate MatchesAt(pat: Pattern, s: string, i: nat)
    requires i <= |s|
  {
    match pat
    case Literal(t) => LiteralAt(s, i, t)
    case ConsoleLogToken =>
      WordStart(s, i) && LiteralAt(s, i, "console.log") && WordEnd(s, i + 11)
    case VarWord =>
      WordStart(s, i) && LiteralAt(s, i, "var") && WordEnd(s, i + 3)
    case VarThenSpace => KeywordThenSpace(s, i)
    case VarBinding =>
      KeywordThenSpace(s, i) && AfterKeyword(s, i) < |s| && IsIdentStart(s[AfterKeyword(s, i)])
    case VarThenWord =>
      KeywordThenSpace(s, i) && AfterKeyword(s, i) < |s| && IsWord(s[AfterKeyword(s, i)])
  }

  /** The leftmost match of `pat` at or after `from`. */
  function FindFirst(pat: Pattern, s: string, from: nat): (r: Option<nat>)
    ensures r.Some? ==> from <= r.value <= |s| && MatchesAt(pat, s, r.value)
    ensures r.Some? ==> forall j :: from <= j < r.value ==> !MatchesAt(pat, s, j)
    ensures r.None? ==> forall j :: from <= j <= |s| ==> !MatchesAt(pat, s, j)
    decreases |s| - from
  {
    if from > |s| then None
    else if MatchesAt(pat, s, from) then Some(from)
    else FindFirst(pat, s, from + 1)
  }

  /** `pat.test(s)` / `s.includes(t)` */
  predicate Occurs(pat: Pattern, s: string) {
    FindFirst(pat, s, 0).Some?
  }

  /** `Occurs` holds exactly when some position matches. */
  lemma OccursIff(pat: Pattern, s: string)
    ensures Occurs(pat, s) <==> exists i :: 0 <= i <= |s| && MatchesAt(pat, s, i)
  {
    if Occurs(pat, s) {
      var i := FindFirst(pat, s, 0).value;
      assert MatchesAt(pat, s, i);
    }
  }

  /** A fixed string holding a character `s` lacks does not occur in `s`. */
  lemma LiteralAbsent(s: string, t: string, j: nat)
    requires j < |t| && t[j] !in s
    ensures !Occurs(Literal(t), s)
  {
    OccursIff(Literal(t), s);
    forall i | 0 <= i <= |s| ensures !LiteralAt(s, i, t) {
      if i + |t| <= |s| {
        assert s[i..i + |t|][j] == s[i + j];
      }
    }
  }

  /** A fixed string does not occur in `x + [c] + z` when its first
      character is not in `x` and its second is not in `z`. */
  lemma LiteralAbsentAround(x: string, c: char, z: string, t: string)
    requires |t| >= 2 && t[0] !in x && t[1] !in z
    ensures !Occurs(Literal(t), x + [c] + z)
  {
    var s := x + [c] + z;
    OccursIff(Literal(t), s);
    forall i | 0 <= i <= |s| ensures !LiteralAt(s, i, t) {
      if i + |t| <= |s| {
        assert s[i..i + |t|][0] == s[i] && s[i..i + |t|][1] == s[i + 1];
        if i < |x| {
          assert s[i] == x[i];
        } else {
          assert s[i + 1] == z[i - |x|];
        }
      }
    }
  }

  /** `s.indexOf(t)`: the first position of `t`, or -1. */
  function IndexOf(s: string, t: string): (r: int)
    ensures -1 <= r <= |s|
    ensures r == -1 <==> forall j :: 0 <= j <= |s| ==> !LiteralAt(s, j, t)
    ensures r >= 0 ==> LiteralAt(s, r, t) && forall j :: 0 <= j < r ==> !LiteralAt(s, j, t)
  {
    assert forall j :: 0 <= j <= |s| ==> (MatchesAt(Literal(t), s, j) <==> LiteralAt(s, j, t));
    match FindFirst(Literal(t), s, 0)
    case None => -1
    case Some(i) => i
  }

  /** The name a `VarBinding` match at `i` captures, and where the match ends. */
  function BindingEnd(s: string, i: nat): (e: nat)
    requires i <= |s| && MatchesAt(VarBinding, s, i)
    ensures AfterKeyword(s, i) < e <= |s|
    ensures forall k :: AfterKeyword(s, i) <= k < e ==> IsIdentPart(s[k])
    ensures e == |s| || !IsIdentPart(s[e])
  {
    SpanEnd(s, AfterKeyword(s, i), IdentPart)
  }

  function BindingName(s: string, i: nat): (name: string)
    requires i <= |s| && MatchesAt(VarBinding, s, i)
    ensures |name| > 0 && IsIdentStart(name[0])
    ensures forall k :: 0 <= k < |name| ==> IsIdentPart(name[k])
  {
    s[AfterKeyword(s, i)..BindingEnd(s, i)]
  }

  /** The `(\w+)` group of a `VarThenWord` match at `i`. */
  function WordBindingName(s: string, i: nat): (name: string)
    requires i <= |s| && MatchesAt(VarThenWord, s, i)
    ensures |name| > 0 && forall k :: 0 <= k < |name| ==> IsWord(name[k])
  {
    var w := AfterKeyword(s, i);
    s[w..SpanEnd(s, w, Word)]
  }

  /** `/^\w+\s*=/` on a trimmed line: a word, optional spaces, then `=`.
      Backing off the greedy `\w+` only leaves a word character where a
      space or `=` is needed, so the maximal runs decide. */
  predicate AssignmentHead(t: string) {
    var k := SpanEnd(t, 0, Word);
    var m := SpanEnd(t, k, Space);
    0 < k && m < |t| && t[m] == '='
  }

  /** The punctuation and comment conditions both analyzers put on a trimmed
      line before it gets a statement terminator. */
  predicate LacksTerminator(t: string) {
    && |t| > 0
    && t[|t| - 1] != ';' && t[|t| - 1] != '{' && t[|t| - 1] != '}' && t[|t| - 1] != ','
    && !("//" <= t) && !("/*" <= t) && !("*" <= t)
  }
}
