/** String operations of ECMAScript that several components share, with the laws they obey. */
module Text {

  datatype Option<+T> = None | Some(value: T)

  // ---------------------------------------------------------------------------
  // Character classes
  // ---------------------------------------------------------------------------

  /** The characters that end a line for `^`, `$` and `.` in a regular expression. */
  predicate IsLineTerminator(c: char) {
    c == '\n' || c == '\r' || c == '\U{2028}' || c == '\U{2029}'
  }

  /** The characters `String.prototype.trim` removes: white space and line terminators. */
  predicate IsSpace(c: char) {
    || IsLineTerminator(c)
    || c == '\t' || c == '\U{000B}' || c == '\U{000C}' || c == ' '
    || c == '\U{00A0}' || c == '\U{1680}' || '\U{2000}' <= c <= '\U{200A}'
    || c == '\U{202F}' || c == '\U{205F}' || c == '\U{3000}' || c == '\U{FEFF}'
  }

  predicate IsDigit(c: char) { '0' <= c <= '9' }

  lemma DigitIsNotSpace(c: char)
    requires IsDigit(c)
    ensures !IsSpace(c)
  {}

  predicate IsLowerAlnum(c: char) { 'a' <= c <= 'z' || IsDigit(c) }

  predicate IsAlnum(c: char) { 'A' <= c <= 'Z' || IsLowerAlnum(c) }

  /** ASCII lower-casing of one character. */
  function LowerChar(c: char): char {
    if 'A' <= c <= 'Z' then (c as int + 32) as char else c
  }

  /** The classes by code point. */
  lemma ClassesByCode(c: char)
    ensures IsDigit(c) <==> 48 <= c as int <= 57
    ensures IsLowerAlnum(c) <==> IsDigit(c) || 97 <= c as int <= 122
    ensures IsAlnum(c) <==> IsLowerAlnum(c) || 65 <= c as int <= 90
    ensures IsLineTerminator(c) <==> c as int in {10, 13, 8232, 8233}
    ensures IsSpace(c) <==>
              || c as int in {9, 10, 11, 12, 13, 32, 160, 5760, 8232, 8233, 8239, 8287, 12288, 65279}
              || 8192 <= c as int <= 8202
    ensures LowerChar(c) as int == if 65 <= c as int <= 90 then c as int + 32 else c as int
  {}

  function Lower(s: string): (r: string)
    ensures |r| == |s|
    ensures forall i | 0 <= i < |s| :: r[i] == LowerChar(s[i])
  {
    if s == [] then [] else [LowerChar(s[0])] + Lower(s[1..])
  }

  // ---------------------------------------------------------------------------
  // Searching
  // ---------------------------------------------------------------------------

  /** `s.slice(i)`. */
  function Drop<T>(s: seq<T>, i: nat): seq<T> { if i <= |s| then s[i..] else [] }

  predicate StartsWith(s: string, prefix: string) {
    prefix <= s
  }

  /** `s.indexOf(c)`: the first position of `c`, or -1. */
  function IndexOf(s: string, c: char): (i: int)
    ensures -1 <= i < |s|
    ensures i >= 0 ==> s[i] == c && c !in s[..i]
    ensures i < 0 ==> c !in s
  {
    if s == [] then -1
    else if s[0] == c then 0
    else
      var rest := IndexOf(s[1..], c);
      if rest < 0 then -1 else rest + 1
  }

  /** `s.lastIndexOf(c)`: the last position of `c`, or -1. */
  function LastIndexOf(s: string, c: char): (i: int)
    ensures -1 <= i < |s|
    ensures i >= 0 ==> s[i] == c && c !in s[i + 1..]
    ensures i < 0 ==> c !in s
  {
    if s == [] then -1
    else if s[|s| - 1] == c then |s| - 1
    else LastIndexOf(s[..|s| - 1], c)
  }

  lemma {:induction false} IndexOfAt(p: string, c: char, rest: string)
    requires c !in p
    ensures IndexOf(p + [c] + rest, c) == |p|
  {
    if p != "" {
      assert (p + [c] + rest)[1..] == p[1..] + [c] + rest;
      IndexOfAt(p[1..], c, rest);
    }
  }

  lemma {:induction false} LastIndexOfAt(a: string, c: char, b: string)
    requires c !in b && (a == "" || a[|a| - 1] == c)
    ensures LastIndexOf(a + b, c) == |a| - 1
  {
    if b == "" {
      assert a + b == a;
    } else {
      assert (a + b)[..|a + b| - 1] == a + b[..|b| - 1];
      LastIndexOfAt(a, c, b[..|b| - 1]);
    }
  }

  // ---------------------------------------------------------------------------
  // Trimming
  // ---------------------------------------------------------------------------

  predicate Blank(s: string) {
    forall i | 0 <= i < |s| :: IsSpace(s[i])
  }

  /** No white space at either end; the empty string counts. */
  predicate Trimmed(s: string) {
    s == "" || (!IsSpace(s[0]) && !IsSpace(s[|s| - 1]))
  }

  function TrimLeft(s: string): (r: string)
    ensures r != "" ==> !IsSpace(r[0]) && s != "" && r[|r| - 1] == s[|s| - 1]
  {
    if s != "" && IsSpace(s[0]) then TrimLeft(s[1..]) else s
  }

  function TrimRight(s: string): (r: string)
    ensures r != "" ==> !IsSpace(r[|r| - 1]) && s != "" && r[0] == s[0]
  {
    if s != "" && IsSpace(s[|s| - 1]) then TrimRight(s[..|s| - 1]) else s
  }

  /** `s.trim()`. */
  function Trim(s: string): (r: string)
    ensures Trimmed(r)
  {
    TrimRight(TrimLeft(s))
  }

  lemma {:induction false} TrimLeftOfPadded(u: string, x: string)
    requires Blank(u) && (x == "" || !IsSpace(x[0]))
    ensures TrimLeft(u + x) == x
  {
    if u == "" {
      assert u + x == x;
    } else {
      assert (u + x)[1..] == u[1..] + x;
      TrimLeftOfPadded(u[1..], x);
    }
  }

  lemma {:induction false} TrimRightOfPadded(x: string, w: string)
    requires Blank(w) && (x == "" || !IsSpace(x[|x| - 1]))
    ensures TrimRight(x + w) == x
  {
    if w == "" {
      assert x + w == x;
    } else {
      assert (x + w)[..|x + w| - 1] == x + w[..|w| - 1];
      TrimRightOfPadded(x, w[..|w| - 1]);
    }
  }

  /** Trimming removes exactly the blank margins around a trimmed core. */
  lemma TrimOfPadded(u: string, core: string, w: string)
    requires Blank(u) && Blank(w) && Trimmed(core) && core != ""
    ensures Trim(u + core + w) == core
  {
    assert u + core + w == u + (core + w);
    TrimLeftOfPadded(u, core + w);
    TrimRightOfPadded(core, w);
  }

  lemma TrimOfBlank(s: string)
    requires Blank(s)
    ensures Trim(s) == ""
  {
    assert s + "" == s;
    TrimLeftOfPadded(s, "");
  }

  lemma TrimOfTrimmed(s: string)
    requires Trimmed(s)
    ensures Trim(s) == s
  {
    if s == "" {
      TrimOfBlank(s);
    } else {
      assert "" + s + "" == s;
      TrimOfPadded("", s, "");
    }
  }

  /** Every string is its trimmed core between two blank margins. */
  lemma TrimDecomposes(s: string) returns (u: string, w: string)
    ensures Blank(u) && Blank(w) && s == u + Trim(s) + w
  {
    u := LeftMargin(s);
    w := RightMargin(TrimLeft(s));
    ConcatAssociates(u, Trim(s), w);
  }

  lemma BlankConcat(a: string, b: string, c: string)
    ensures Blank(a + b + c) <==> Blank(a) && Blank(b) && Blank(c)
  {
    var s := a + b + c;
    assert forall i | 0 <= i < |a| :: a[i] == s[i];
    assert forall i | 0 <= i < |b| :: b[i] == s[|a| + i];
    assert forall i | 0 <= i < |c| :: c[i] == s[|a| + |b| + i];
  }

  lemma TrimIsBlank(s: string)
    ensures Trim(s) == "" <==> Blank(s)
  {
    if Trim(s) == "" {
      var u, w := TrimDecomposes(s);
      BlankConcat(u, "", w);
    }
    if Blank(s) { TrimOfBlank(s); }
  }

  lemma ConcatAssociates(a: string, b: string, c: string)
    ensures a + (b + c) == a + b + c
  {}

  lemma {:induction false} LeftMargin(s: string) returns (u: string)
    ensures Blank(u) && s == u + TrimLeft(s)
  {
    u := "";
    if s != "" && IsSpace(s[0]) {
      u := LeftMargin(s[1..]);
      u := [s[0]] + u;
    }
  }

  lemma {:induction false} RightMargin(s: string) returns (w: string)
    ensures Blank(w) && s == TrimRight(s) + w
  {
    w := "";
    if s != "" && IsSpace(s[|s| - 1]) {
      w := RightMargin(s[..|s| - 1]);
      w := w + [s[|s| - 1]];
    }
  }

  // ---------------------------------------------------------------------------
  // Splitting and joining
  // ---------------------------------------------------------------------------

  /** `s.split(c)` for a one-character separator. */
  function Split(s: string, c: char): (parts: seq<string>)
    ensures |parts| >= 1
  {
    if s == "" then [""]
    else
      var rest := Split(s[1..], c);
      if s[0] == c then [""] + rest else [[s[0]] + rest[0]] + rest[1..]
  }

  function Join(parts: seq<string>, c: char): string {
    if parts == [] then ""
    else if |parts| == 1 then parts[0]
    else parts[0] + [c] + Join(parts[1..], c)
  }

  lemma {:induction false} SplitWithoutSeparator(s: string, c: char)
    requires c !in s
    ensures Split(s, c) == [s]
  {
    if s != "" {
      SplitWithoutSeparator(s[1..], c);
      assert [s[0]] + s[1..] == s;
    }
  }

  /** Splitting at the first separator. */
  lemma {:induction false} SplitAtSeparator(p: string, c: char, rest: string)
    requires c !in p
    ensures Split(p + [c] + rest, c) == [p] + Split(rest, c)
  {
    var s := p + [c] + rest;
    if p == "" {
      assert s[1..] == rest;
    } else {
      assert s[1..] == p[1..] + [c] + rest;
      SplitAtSeparator(p[1..], c, rest);
      assert [p[0]] + p[1..] == p;
      assert ([p[1..]] + Split(rest, c))[1..] == Split(rest, c);
    }
  }

  /** Two lists of pieces laid end to end, the last piece of the left continuing in the first of the right. */
  function Glue(l: seq<string>, r: seq<string>): (g: seq<string>)
    requires l != [] && r != []
    ensures |g| == |l| + |r| - 1
  {
    if |l| == 1 then [l[0] + r[0]] + r[1..] else [l[0]] + Glue(l[1..], r)
  }

  lemma {:induction false} GlueParts(l: seq<string>, r: seq<string>)
    requires l != [] && r != []
    ensures Glue(l, r)[..|l| - 1] == l[..|l| - 1]
    ensures Glue(l, r)[|l| - 1] == l[|l| - 1] + r[0]
    ensures Glue(l, r)[|l|..] == r[1..]
  {
    if |l| > 1 {
      GlueParts(l[1..], r);
      var g := Glue(l[1..], r);
      assert ([l[0]] + g)[|l|..] == g[|l| - 1..];
      assert ([l[0]] + g)[..|l| - 1] == [l[0]] + g[..|l| - 2];
    }
  }

  lemma GlueOntoOne(x: string, r: seq<string>)
    requires r != []
    ensures Glue([x], r) == [x + r[0]] + r[1..]
  {}

  lemma GlueAtBreak(l: seq<string>, r: seq<string>)
    requires l != []
    ensures Glue(l, [""] + r) == l + r
  {
    hide Glue;
    GlueParts(l, [""] + r);
    var g := Glue(l, [""] + r);
    assert g == g[..|l| - 1] + [g[|l| - 1]] + g[|l|..];
    assert l[|l| - 1] + "" == l[|l| - 1];
    assert l == l[..|l| - 1] + [l[|l| - 1]];
    assert ([""] + r)[1..] == r;
  }

  lemma GlueBeforeEmpties(l: seq<string>)
    requires l != []
    ensures Glue(l, ["", ""]) == l + [""]
  {
    hide Glue;
    GlueParts(l, ["", ""]);
    var g := Glue(l, ["", ""]);
    assert g == g[..|l| - 1] + [g[|l| - 1]] + g[|l|..];
    assert l[|l| - 1] + "" == l[|l| - 1];
  }

  lemma GlueAfterEmpty(init: seq<string>, r: seq<string>)
    requires r != []
    ensures Glue(init + [""], r) == init + r
  {
    hide Glue;
    var l := init + [""];
    GlueParts(l, r);
    var g := Glue(l, r);
    assert g == g[..|l| - 1] + [g[|l| - 1]] + g[|l|..];
    assert "" + r[0] == r[0];
  }

  /** Splitting a concatenation glues the last piece of the left to the first piece of the right. */
  lemma {:induction false} SplitOfConcat(a: string, b: string, c: char)
    ensures Split(a + b, c) == Glue(Split(a, c), Split(b, c))
  {
    if a == "" {
      assert a + b == b;
      assert "" + Split(b, c)[0] == Split(b, c)[0];
    } else {
      assert (a + b)[1..] == a[1..] + b;
      SplitOfConcat(a[1..], b, c);
      SplitStep(a[0], Split(a[1..], c), Split(b, c));
    }
  }

  lemma SplitStep(x: char, t: seq<string>, r: seq<string>)
    requires t != [] && r != []
    ensures Glue([""] + t, r) == [""] + Glue(t, r)
    ensures Glue([[x] + t[0]] + t[1..], r) == [[x] + Glue(t, r)[0]] + Glue(t, r)[1..]
  {
    assert ([""] + t)[1..] == t;
    var s := [[x] + t[0]] + t[1..];
    if |t| == 1 {
      assert [x] + (t[0] + r[0]) == [x] + t[0] + r[0];
    } else {
      assert s[1..] == t[1..];
    }
  }

  /** A final newline opens one more, empty, piece. */
  lemma SplitOfFinalNewline(body: string)
    ensures Split(body + "\n", '\n') == Split(body, '\n') + [""]
  {
    hide Split;
    SplitOfConcat(body, "\n", '\n');
    assert Split("\n", '\n') == ["", ""] by {
      SplitAtSeparator("", '\n', "");
      SplitWithoutSeparator("", '\n');
      assert "" + ['\n'] + "" == "\n";
    }
    GlueBeforeEmpties(Split(body, '\n'));
  }

  lemma SplitPieces(s: string, c: char)
    ensures forall k | 0 <= k < |Split(s, c)| :: c !in Split(s, c)[k]
    ensures Join(Split(s, c), c) == s
  {
    hide *;
    PiecesHaveNoSeparator(s, c);
    JoinOfSplit(s, c);
  }

  lemma {:induction false} PiecesHaveNoSeparator(s: string, c: char)
    ensures forall k | 0 <= k < |Split(s, c)| :: c !in Split(s, c)[k]
  {
    if s != "" {
      PiecesHaveNoSeparator(s[1..], c);
    }
  }

  lemma {:induction false} JoinOfSplit(s: string, c: char)
    ensures Join(Split(s, c), c) == s
  {
    if s != "" {
      JoinOfSplit(s[1..], c);
      var rest := Split(s[1..], c);
      if s[0] == c {
        assert ([""] + rest)[1..] == rest;
        assert Join([""] + rest, c) == "" + [c] + Join(rest, c);
      } else if |rest| > 1 {
        assert Split(s, c)[1..] == rest[1..];
      }
    }
  }

  lemma {:induction false} SplitOfJoin(parts: seq<string>, c: char)
    requires parts != []
    requires forall k | 0 <= k < |parts| :: c !in parts[k]
    ensures Split(Join(parts, c), c) == parts
  {
    if |parts| == 1 {
      SplitWithoutSeparator(parts[0], c);
    } else {
      SplitAtSeparator(parts[0], c, Join(parts[1..], c));
      SplitOfJoin(parts[1..], c);
    }
  }

  // ---------------------------------------------------------------------------
  // Numerals
  // ---------------------------------------------------------------------------

  predicate AllDigits(s: string) {
    forall i | 0 <= i < |s| :: IsDigit(s[i])
  }

  /** The number a string of decimal digits denotes; the empty string denotes 0. */
  function NumberOf(s: string): nat
    requires AllDigits(s)
  {
    if s == "" then 0 else 10 * NumberOf(s[..|s| - 1]) + (s[|s| - 1] as int - '0' as int)
  }

  function Power10(n: nat): nat { if n == 0 then 1 else 10 * Power10(n - 1) }

  /** A leading digit weighs its power of ten; leading zeros weigh nothing. */
  lemma {:induction false} NumberOfFromTheLeft(d: char, s: string)
    requires IsDigit(d) && AllDigits(s)
    ensures AllDigits([d] + s) && NumberOf([d] + s) == (d as int - 48) * Power10(|s|) + NumberOf(s)
  {
    var t := [d] + s;
    if s == "" {
      assert t[..0] == "" && t == [d];
    } else {
      var n := |s| - 1;
      assert t[..n + 1] == [d] + s[..n] && t[n + 1] == s[n];
      NumberOfFromTheLeft(d, s[..n]);
      assert 10 * ((d as int - 48) * Power10(n)) == (d as int - 48) * Power10(n + 1);
    }
  }

  /** The decimal numeral of `n`, as a template literal prints it. */
  function Decimal(n: nat): (s: string)
    ensures s != "" && AllDigits(s)
  {
    var d := [('0' as int + n % 10) as char];
    if n < 10 then d else Decimal(n / 10) + d
  }

  lemma {:induction false} NumberOfDecimal(n: nat)
    ensures NumberOf(Decimal(n)) == n
  {
    var s := Decimal(n);
    if n >= 10 {
      NumberOfDecimal(n / 10);
      assert s[..|s| - 1] == Decimal(n / 10);
    } else {
      assert s[..|s| - 1] == "";
    }
  }

  function DigitPrefix(s: string): (r: string)
    ensures r <= s && AllDigits(r)
    ensures |r| < |s| ==> !IsDigit(s[|r|])
  {
    if s != "" && IsDigit(s[0]) then [s[0]] + DigitPrefix(s[1..]) else ""
  }

  // ---------------------------------------------------------------------------
  // String order
  // ---------------------------------------------------------------------------

  /** `a < b` on strings. */
  predicate Less(a: string, b: string) {
    b != "" && (a == "" || a[0] < b[0] || (a[0] == b[0] && Less(a[1..], b[1..])))
  }

  /** At `k` the first text ends or has the smaller character, and in front of `k` the two are the same. */
  ghost predicate TextBelowAt(a: string, b: string, k: nat) {
    k <= |a| && k < |b| && a[..k] == b[..k] && (k < |a| ==> a[k] < b[k])
  }

  lemma {:induction false} LessExactly(a: string, b: string)
    ensures Less(a, b) <==> exists k: nat :: TextBelowAt(a, b, k)
  {
    if b == "" {
    } else if a == "" || a[0] < b[0] {
      assert TextBelowAt(a, b, 0);
    } else {
      LessExactly(a[1..], b[1..]);
      if a[0] == b[0] {
        if k: nat :| TextBelowAt(a[1..], b[1..], k) {
          assert a[..k + 1] == [a[0]] + a[1..][..k] && b[..k + 1] == [b[0]] + b[1..][..k];
          assert TextBelowAt(a, b, k + 1);
        }
        if k: nat :| TextBelowAt(a, b, k) {
          assert k > 0;
          assert a[1..][..k - 1] == a[..k][1..] && b[1..][..k - 1] == b[..k][1..];
          assert TextBelowAt(a[1..], b[1..], k - 1);
        }
      } else {
        assert forall k: nat | k > 0 && TextBelowAt(a, b, k) :: a[..k][0] == b[..k][0];
      }
    }
  }

  lemma {:induction false} LessIsTotal(a: string, b: string)
    ensures a != b <==> (Less(a, b) || Less(b, a))
    ensures !(Less(a, b) && Less(b, a))
  {
    if a != "" && b != "" {
      LessIsTotal(a[1..], b[1..]);
      assert a == [a[0]] + a[1..] && b == [b[0]] + b[1..];
    }
  }

  lemma {:induction false} LessIsTransitive(a: string, b: string, c: string)
    requires Less(a, b) && Less(b, c)
    ensures Less(a, c)
  {
    if a != "" && a[0] == b[0] == c[0] {
      LessIsTransitive(a[1..], b[1..], c[1..]);
    }
  }
}
