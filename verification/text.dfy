/** Character classes and the JavaScript string primitives the analyzers use:
    `split('\n')`, `join('\n')`, `trim()` and the end-of-line strip `/\s+$/`. */
module Text {

  /** The code points ECMAScript's `\s` matches and `String.prototype.trim`
      strips: WhiteSpace (TAB, VT, FF, ZWNBSP and the Unicode 15 `Zs`
      category) and LineTerminator (LF, CR, LS, PS). */
  predicate IsSpace(c: char) {
    var n := c as int;
    n == 0x09 || n == 0x0A || n == 0x0B || n == 0x0C || n == 0x0D || n == 0x20
    || n == 0xA0 || n == 0x1680 || (0x2000 <= n <= 0x200A)
    || n == 0x2028 || n == 0x2029 || n == 0x202F || n == 0x205F
    || n == 0x3000 || n == 0xFEFF
  }

  predicate IsDigit(c: char) { '0' <= c <= '9' }

  predicate IsLetter(c: char) { 'a' <= c <= 'z' || 'A' <= c <= 'Z' }

  /** `\w` (and the word side of `\b`) of a regular expression without the `u` flag. */
  predicate IsWord(c: char) { IsLetter(c) || IsDigit(c) || c == '_' }

  /** `[a-zA-Z_$]` */
  predicate IsIdentStart(c: char) { IsLetter(c) || c == '_' || c == '$' }

  /** `[\w$]` */
  predicate IsIdentPart(c: char) { IsWord(c) || c == '$' }

  datatype CharClass = Space | Word | IdentPart | Digit

  predicate InClass(c: char, cls: CharClass) {
    match cls
    case Space => IsSpace(c)
    case Word => IsWord(c)
    case IdentPart => IsIdentPart(c)
    case Digit => IsDigit(c)
  }

  /** End of the longest run of `cls` characters that starts at `from`
      (a greedy `cls*` in a regular expression). */
  function SpanEnd(s: string, from: nat, cls: CharClass): (e: nat)
    requires from <= |s|
    ensures from <= e <= |s|
    ensures forall k :: from <= k < e ==> InClass(s[k], cls)
    ensures e == |s| || !InClass(s[e], cls)
    decreases |s| - from
  {
    if from == |s| || !InClass(s[from], cls) then from else SpanEnd(s, from + 1, cls)
  }

  /** Number of occurrences of `c` in `s`. */
  function Occurrences(s: string, c: char): nat {
    if |s| == 0 then 0 else (if s[0] == c then 1 else 0) + Occurrences(s[1..], c)
  }

  /** `s` with every `c` deleted; the other characters keep their order. */
  function Without(s: string, c: char): (r: string)
    ensures c !in r
    ensures |r| + Occurrences(s, c) == |s|
  {
    if |s| == 0 then "" else (if s[0] == c then "" else [s[0]]) + Without(s[1..], c)
  }

  /** Concatenation is associative. */
  lemma AppendAssoc(a: string, b: string, c: string)
    ensures (a + b) + c == a + (b + c)
  {
  }

  /** The three parts of `a + m + b` are where they were put. */
  lemma ConcatParts(a: string, m: string, b: string)
    ensures (a + m + b)[..|a|] == a
    ensures (a + m + b)[|a|..|a| + |m|] == m
    ensures (a + m + b)[|a| + |m|..] == b
  {
  }

  /** A prefix of the middle part of `a + m + b` sits right after `a`. */
  lemma ConcatMiddlePrefix(a: string, m: string, b: string, n: nat)
    requires n <= |m|
    ensures (a + m + b)[|a|..|a| + n] == m[..n]
  {
  }

  /** A character absent from `s` is absent from every slice of it. */
  lemma SliceAvoids(s: string, a: nat, b: nat, c: char)
    requires a <= b <= |s| && c !in s
    ensures c !in s[a..b]
  {
  }

  lemma {:induction false} OccurrencesAppend(a: string, b: string, c: char)
    ensures Occurrences(a + b, c) == Occurrences(a, c) + Occurrences(b, c)
    decreases |a|
  {
    if |a| > 0 {
      assert (a + b)[1..] == a[1..] + b;
      OccurrencesAppend(a[1..], b, c);
    } else {
      assert a + b == b;
    }
  }

  lemma {:induction false} WithoutAppend(a: string, b: string, c: char)
    ensures Without(a + b, c) == Without(a, c) + Without(b, c)
    decreases |a|
  {
    if |a| > 0 {
      assert (a + b)[1..] == a[1..] + b;
      WithoutAppend(a[1..], b, c);
    } else {
      assert a + b == b;
    }
  }

  /** Deleting one character does not change how often another one occurs. */
  lemma {:induction false} OccurrencesWithout(s: string, c: char, d: char)
    requires c != d
    ensures Occurrences(Without(s, d), c) == Occurrences(s, c)
    decreases |s|
  {
    if |s| > 0 {
      OccurrencesWithout(s[1..], c, d);
      var head := if s[0] == d then "" else [s[0]];
      OccurrencesAppend(head, Without(s[1..], d), c);
    }
  }

  /** Deleting one character keeps every other one that was there, and adds none. */
  lemma {:induction false} InWithout(s: string, c: char, d: char)
    requires c != d
    ensures c in Without(s, d) <==> c in s
    decreases |s|
  {
    OccurrencesWithout(s, c, d);
    OccurrencesPositive(s, c);
    OccurrencesPositive(Without(s, d), c);
  }

  /** `c` occurs in `s` exactly when it is counted there. */
  lemma {:induction false} OccurrencesPositive(s: string, c: char)
    ensures c in s <==> Occurrences(s, c) > 0
    decreases |s|
  {
    if |s| > 0 {
      OccurrencesPositive(s[1..], c);
      assert s == [s[0]] + s[1..];
    }
  }

  /** Two strings that agree, position by position, on being `c` hold equally many `c`. */
  lemma {:induction false} OccurrencesPointwise(a: string, b: string, c: char)
    requires |a| == |b|
    requires forall k :: 0 <= k < |a| ==> (a[k] == c <==> b[k] == c)
    ensures Occurrences(a, c) == Occurrences(b, c)
    decreases |a|
  {
    if |a| > 0 {
      OccurrencesPointwise(a[1..], b[1..], c);
    }
  }

  /** `s.split('\n')`: the pieces between line feeds, always at least one. */
  function Split(s: string): (lines: seq<string>)
    ensures |lines| == Occurrences(s, '\n') + 1
    ensures forall k :: 0 <= k < |lines| ==> '\n' !in lines[k]
    decreases |s|
  {
    if |s| == 0 then [""]
    else
      var rest := Split(s[1..]);
      if s[0] == '\n' then [""] + rest
      else [[s[0]] + rest[0]] + rest[1..]
  }

  /** `lines.join('\n')` */
  function Join(lines: seq<string>): string {
    if |lines| == 0 then ""
    else if |lines| == 1 then lines[0]
    else lines[0] + "\n" + Join(lines[1..])
  }

  /** Splitting and joining again gives back the text. */
  lemma {:induction false} JoinSplit(s: string)
    ensures Join(Split(s)) == s
    decreases |s|
  {
    if |s| > 0 {
      var rest := Split(s[1..]);
      JoinSplit(s[1..]);
      if s[0] == '\n' {
        assert ([""] + rest)[1..] == rest;
        assert s == "\n" + s[1..];
      } else if |rest| == 1 {
        assert s == [s[0]] + s[1..];
      } else {
        var lines := [[s[0]] + rest[0]] + rest[1..];
        assert lines[1..] == rest[1..];
        assert Join(rest) == rest[0] + "\n" + Join(rest[1..]);
        assert s == [s[0]] + s[1..];
      }
    }
  }

  /** Splitting a text whose first line is `a`. */
  lemma {:induction false} SplitPrefix(a: string, b: string)
    requires '\n' !in a
    ensures Split(a + b) == [a + Split(b)[0]] + Split(b)[1..]
    decreases |a|
  {
    if |a| > 0 {
      assert (a + b)[1..] == a[1..] + b;
      assert (a + b)[0] == a[0];
      SplitPrefix(a[1..], b);
      var rest := Split(a[1..] + b);
      assert rest[0] == a[1..] + Split(b)[0] && rest[1..] == Split(b)[1..];
      assert a[0] in a;
      assert Split(a + b) == [[a[0]] + rest[0]] + rest[1..];
      assert a == [a[0]] + a[1..];
      assert [a[0]] + rest[0] == a + Split(b)[0];
    } else {
      assert a + b == b;
      assert a + Split(b)[0] == Split(b)[0];
      assert Split(b) == [Split(b)[0]] + Split(b)[1..];
    }
  }

  /** Joining lines that hold no line feed and splitting again gives back the lines. */
  lemma {:induction false} SplitJoin(lines: seq<string>)
    requires |lines| >= 1
    requires forall k :: 0 <= k < |lines| ==> '\n' !in lines[k]
    ensures Split(Join(lines)) == lines
    decreases |lines|
  {
    if |lines| == 1 {
      SplitPrefix(lines[0], "");
      assert lines[0] + "" == lines[0];
    } else {
      SplitJoin(lines[1..]);
      var tail := "\n" + Join(lines[1..]);
      assert Join(lines) == lines[0] + tail;
      SplitPrefix(lines[0], tail);
      assert tail[0] == '\n' && tail[1..] == Join(lines[1..]);
      assert Split(tail) == [""] + lines[1..];
      assert Split(tail)[0] == "" && Split(tail)[1..] == lines[1..];
      assert lines[0] + "" == lines[0];
      assert lines == [lines[0]] + lines[1..];
    }
  }

  /** `s.trimEnd()`, which is also `s.replace(/\s+$/, '')`: the leftmost
      position from which `\s+` reaches the end is the start of the longest
      all-space suffix. */
  function TrimEnd(s: string): (r: string)
    ensures |r| <= |s| && r == s[..|r|]
    ensures forall k :: |r| <= k < |s| ==> IsSpace(s[k])
    ensures r == [] || !IsSpace(r[|r| - 1])
    decreases |s|
  {
    if |s| > 0 && IsSpace(s[|s| - 1]) then TrimEnd(s[..|s| - 1]) else s
  }

  /** The number of white-space characters `s` starts with. */
  function LeadingSpaces(s: string): (n: nat)
    ensures n <= |s|
    ensures forall k :: 0 <= k < n ==> IsSpace(s[k])
    ensures n < |s| ==> !IsSpace(s[n])
    decreases |s|
  {
    if |s| > 0 && IsSpace(s[0]) then 1 + LeadingSpaces(s[1..]) else 0
  }

  /** A slice of `s[1..]` is the slice of `s` one further on, and so is
      everything after it. */
  lemma DropFirstSlice(s: string, n: nat, m: nat)
    requires |s| > 0 && n + m <= |s| - 1
    ensures s[1..][n..n + m] == s[n + 1..n + 1 + m]
    ensures forall k :: n + 1 + m <= k < |s| ==> s[k] == s[1..][k - 1]
  {
  }

  /** `s.trim()`: leading spaces are dropped one at a time, then the
      trailing ones all at once. */
  function Trim(s: string): (r: string)
    ensures r == [] <==> forall k :: 0 <= k < |s| ==> IsSpace(s[k])
    ensures r == [] || (!IsSpace(r[0]) && !IsSpace(r[|r| - 1]))
    decreases |s|
  {
    if |s| > 0 && IsSpace(s[0]) then Trim(s[1..]) else TrimEnd(s)
  }

  /** `trim()` keeps what lies between the leading and the trailing white
      space: the result starts right after the leading white space, and
      only white space follows it. */
  lemma {:induction false} TrimIsSlice(s: string)
    ensures LeadingSpaces(s) + |Trim(s)| <= |s|
    ensures Trim(s) == s[LeadingSpaces(s)..LeadingSpaces(s) + |Trim(s)|]
    ensures forall k :: LeadingSpaces(s) + |Trim(s)| <= k < |s| ==> IsSpace(s[k])
    decreases |s|
  {
    if |s| > 0 && IsSpace(s[0]) {
      var n, r := LeadingSpaces(s[1..]), Trim(s[1..]);
      TrimIsSlice(s[1..]);
      assert LeadingSpaces(s) == n + 1 && Trim(s) == r;
      DropFirstSlice(s, n, |r|);
    } else {
      assert LeadingSpaces(s) == 0;
    }
  }

  /** A line that neither starts nor ends with white space is its own
      trimmed form. */
  lemma TrimUnpadded(s: string)
    requires |s| > 0 && !IsSpace(s[0]) && !IsSpace(s[|s| - 1])
    ensures Trim(s) == s
  {
  }

  /** A line whose last character is not a space keeps it as the last
      character of its trimmed form. */
  lemma TrimKeepsLast(s: string)
    requires |s| > 0 && !IsSpace(s[|s| - 1])
    ensures |Trim(s)| > 0 && Trim(s)[|Trim(s)| - 1] == s[|s| - 1]
  {
    assert TrimEnd(s) == s;
  }
}
