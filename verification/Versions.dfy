/** Version comparison and release channels (`packages/shared/src/index.ts`). */
module Versions {
  import opened Text

  const STABLE_CHANNEL := "stable"

  /** What the comparison reads out of a version string. */
  datatype Parsed = Parsed(nums: seq<int>, pre: string)

  function StripPrefix(s: string, prefix: string): string {
    if StartsWith(s, prefix) then s[|prefix|..] else s
  }

  /** `parseInt(s, 10) || 0`: leading white space, one sign, the longest run of digits; 0 when there is none. */
  function ParseIntOrZero(s: string): int {
    var t := TrimLeft(s);
    if t != "" && t[0] == '-' then -(NumberOf(DigitPrefix(t[1..])) as int)
    else if t != "" && t[0] == '+' then NumberOf(DigitPrefix(t[1..]))
    else NumberOf(DigitPrefix(t))
  }

  /** White space, a sign or none, digits, and anything that does not go on with a digit: the digits count, signed. */
  lemma ParsesLeadingNumber(u: string, sign: string, digits: string, rest: string)
    requires Blank(u) && sign in ["", "+", "-"] && digits != "" && AllDigits(digits)
    requires rest != "" ==> !IsDigit(rest[0])
    ensures ParseIntOrZero(u + sign + digits + rest) ==
            if sign == "-" then -(NumberOf(digits) as int) else NumberOf(digits)
  {
    hide TrimLeft, NumberOf, Blank, IsSpace, DigitPrefix;
    var t := sign + digits + rest;
    assert u + sign + digits + rest == u + t;
    SignedIsNotSpace(sign, digits, rest);
    TrimLeftOfPadded(u, t);
    LongestDigits(digits, rest);
    if sign == "" {
      assert t == digits + rest;
    } else {
      assert t[1..] == digits + rest;
    }
  }

  lemma SignedIsNotSpace(sign: string, digits: string, rest: string)
    requires sign in ["", "+", "-"] && digits != "" && AllDigits(digits)
    ensures var t := sign + digits + rest;
            t != "" && !IsSpace(t[0]) && t[0] == (if sign == "" then digits[0] else sign[0])
  {
    DigitIsNotSpace(digits[0]);
  }

  lemma {:induction false} LongestDigits(digits: string, rest: string)
    requires AllDigits(digits) && (rest != "" ==> !IsDigit(rest[0]))
    ensures DigitPrefix(digits + rest) == digits
  {
    if digits == "" {
      assert "" + rest == rest;
    } else {
      assert (digits + rest)[1..] == digits[1..] + rest;
      LongestDigits(digits[1..], rest);
      assert digits == [digits[0]] + digits[1..];
    }
  }

  function ParseNumbers(segments: seq<string>): (r: seq<int>)
    ensures |r| == |segments| && forall i | 0 <= i < |r| :: r[i] == ParseIntOrZero(segments[i])
  {
    seq(|segments|, i requires 0 <= i < |segments| => ParseIntOrZero(segments[i]))
  }

  function Cleaned(v: string): string {
    StripPrefix(StripPrefix(Trim(v), "cli-v"), "v")
  }

  /** Core before the first hyphen, prerelease up to the second one; the rest is dropped by `split('-', 2)`. */
  function Parse(v: string): Parsed {
    var pieces := Split(Cleaned(v), '-');
    Parsed(ParseNumbers(Split(pieces[0], '.')), if |pieces| > 1 then pieces[1] else "")
  }

  /** A version written without prefix or margins parses at its first hyphen. */
  lemma ParsePlain(core: string, pre: string)
    requires core != "" && IsDigit(core[0]) && Trimmed(core) && '-' !in core
    requires Trimmed(pre) && '-' !in pre
    ensures Parse(core) == Parsed(ParseNumbers(Split(core, '.')), "")
    ensures pre != "" ==> Parse(core + "-" + pre) == Parsed(ParseNumbers(Split(core, '.')), pre)
  {
    hide TrimLeft, TrimRight, Trim, Split, IsSpace;
    TrimOfTrimmed(core);
    SplitWithoutSeparator(core, '-');
    var v := core + "-" + pre;
    assert v[0] == core[0];
    assert pre != "" ==> v[|v| - 1] == pre[|pre| - 1];
    if pre != "" {
      TrimOfTrimmed(v);
      SplitWithoutSeparator(pre, '-');
      assert core + ['-'] + pre == v;
      SplitAtSeparator(core, '-', pre);
    }
  }

  /** `cli-v` goes once from the front, then `v` once; nothing else does. */
  lemma StripsOnce(v: string, rest: string)
    ensures Trim(v) == "cli-vv" + rest ==> Cleaned(v) == rest
    ensures Trim(v) == "cli-v" + rest && !StartsWith(rest, "v") ==> Cleaned(v) == rest
    ensures Trim(v) == "v" + rest ==> Cleaned(v) == rest
    ensures !StartsWith(Trim(v), "cli-v") && !StartsWith(Trim(v), "v") ==> Cleaned(v) == Trim(v)
  {
    hide Trim;
    assert ("cli-vv" + rest)[5..] == "v" + rest;
    assert ("v" + rest)[1..] == rest && ("cli-v" + rest)[5..] == rest;
    assert ("v" + rest)[0] != "cli-v"[0];
  }

  /** The core reaches to the first hyphen of the cleaned text, the prerelease from there to the next one. */
  lemma ReadsCoreAndPrerelease(v: string, core: string, pre: string, dropped: string)
    requires '-' !in core && '-' !in pre
    ensures Cleaned(v) == core ==> Parse(v) == Parsed(ParseNumbers(Split(core, '.')), "")
    ensures Cleaned(v) == core + "-" + pre ==> Parse(v) == Parsed(ParseNumbers(Split(core, '.')), pre)
    ensures Cleaned(v) == core + "-" + pre + "-" + dropped ==> Parse(v) == Parsed(ParseNumbers(Split(core, '.')), pre)
  {
    hide Cleaned, Split;
    SplitWithoutSeparator(core, '-');
    SplitWithoutSeparator(pre, '-');
    SplitAtSeparator(core, '-', pre);
    SplitAtSeparator(pre, '-', dropped);
    SplitAtSeparator(core, '-', pre + ['-'] + dropped);
    assert core + "-" + pre == core + ['-'] + pre;
    assert core + "-" + pre + "-" + dropped == core + ['-'] + (pre + ['-'] + dropped);
  }

  /** A plain version: it starts with a digit and has no margins. */
  predicate StartsPlain(v: string) { v != "" && IsDigit(v[0]) && Trimmed(v) }

  /** Blank margins and a leading `v` or `cli-v` carry no meaning. */
  lemma DecorationIsIgnored(u: string, prefix: string, v: string, w: string)
    requires Blank(u) && Blank(w) && StartsPlain(v)
    requires prefix in ["", "v", "cli-v"]
    ensures Parse(u + prefix + v + w) == Parse(v)
  {
    hide Blank, Trim, Trimmed, Split, IsSpace, StripPrefix, ParseNumbers;
    PrefixStrips(prefix, v);
    PrefixStrips("", v);
    assert "" + v == v;
    TrimOfTrimmed(v);
    assert u + prefix + v + w == u + (prefix + v) + w;
    TrimOfPadded(u, prefix + v, w);
  }

  lemma PrefixStrips(prefix: string, v: string)
    requires StartsPlain(v) && prefix in ["", "v", "cli-v"]
    ensures StripPrefix(StripPrefix(prefix + v, "cli-v"), "v") == v
    ensures Trimmed(prefix + v) && prefix + v != ""
  {
    var t := prefix + v;
    assert t[|t| - 1] == v[|v| - 1] && t[|prefix|..] == v;
    if prefix == "" {
      assert t[0] == v[0];
    } else {
      assert t[0] == prefix[0];
      assert !IsSpace('v') && !IsSpace('c');
    }
  }

  // ---------------------------------------------------------------------------
  // The order
  // ---------------------------------------------------------------------------

  function HeadOrZero(x: seq<int>): int { if x == [] then 0 else x[0] }

  function Tail<T>(x: seq<T>): seq<T> { if x == [] then [] else x[1..] }

  /** Numeric cores, the shorter one padded with zeros. */
  function CompareNumbers(x: seq<int>, y: seq<int>): int
    decreases |x| + |y|
  {
    if x == [] && y == [] then 0
    else if HeadOrZero(x) != HeadOrZero(y) then HeadOrZero(x) - HeadOrZero(y)
    else CompareNumbers(Tail(x), Tail(y))
  }

  predicate IsNumeric(id: string) { id != "" && AllDigits(id) }

  function CompareIdentifier(x: string, y: string): int {
    if IsNumeric(x) && IsNumeric(y) then NumberOf(x) - NumberOf(y)
    else if IsNumeric(x) then -1
    else if IsNumeric(y) then 1
    else if x == y then 0
    else if Less(x, y) then -1
    else 1
  }

  /** Identifier by identifier; a proper prefix ranks below. */
  function CompareIdentifiers(x: seq<string>, y: seq<string>): int {
    if x == [] && y == [] then 0
    else if x == [] then -1
    else if y == [] then 1
    else if CompareIdentifier(x[0], y[0]) != 0 then CompareIdentifier(x[0], y[0])
    else CompareIdentifiers(x[1..], y[1..])
  }

  /** A release outranks every prerelease of the same core. */
  function ComparePrerelease(p: string, q: string): int {
    if p == "" && q == "" then 0
    else if p == "" then 1
    else if q == "" then -1
    else CompareIdentifiers(Split(p, '.'), Split(q, '.'))
  }

  function Compare(a: string, b: string): int {
    var pa, pb := Parse(a), Parse(b);
    var core := CompareNumbers(pa.nums, pb.nums);
    if core != 0 then core else ComparePrerelease(pa.pre, pb.pre)
  }

  /** One turn of the loop over the numeric cores. */
  lemma NumbersStep(x: seq<int>, y: seq<int>, i: nat)
    requires i < |x| || i < |y|
    ensures var d := HeadOrZero(Drop(x, i)) - HeadOrZero(Drop(y, i));
            CompareNumbers(Drop(x, i), Drop(y, i)) ==
            if d != 0 then d else CompareNumbers(Drop(x, i + 1), Drop(y, i + 1))
  {
    assert Tail(Drop(x, i)) == Drop(x, i + 1);
    assert Tail(Drop(y, i)) == Drop(y, i + 1);
  }

  /** One turn of the loop over the prerelease identifiers. */
  lemma IdentifiersStep(x: seq<string>, y: seq<string>, i: nat)
    requires i < |x| && i < |y|
    ensures var d := CompareIdentifier(x[i], y[i]);
            CompareIdentifiers(x[i..], y[i..]) == if d != 0 then d else CompareIdentifiers(x[i + 1..], y[i + 1..])
  {
    assert x[i..][1..] == x[i + 1..];
    assert y[i..][1..] == y[i + 1..];
  }

  method CompareVersions(a: string, b: string) returns (r: int)
    ensures r == Compare(a, b)
  {
    hide Parse, ComparePrerelease;
    var pa, pb := Parse(a), Parse(b);
    var len := if |pa.nums| > |pb.nums| then |pa.nums| else |pb.nums|;
    var i := 0;
    while i < len
      invariant 0 <= i <= len
      invariant CompareNumbers(pa.nums, pb.nums) == CompareNumbers(Drop(pa.nums, i), Drop(pb.nums, i))
    {
      NumbersStep(pa.nums, pb.nums, i);
      var diff := (if i < |pa.nums| then pa.nums[i] else 0) - (if i < |pb.nums| then pb.nums[i] else 0);
      if diff != 0 {
        return diff;
      }
      i := i + 1;
    }
    r := ComparePrereleaseTags(pa.pre, pb.pre);
  }

  /** The second half of the comparison, for equal cores. */
  method ComparePrereleaseTags(p: string, q: string) returns (r: int)
    ensures r == ComparePrerelease(p, q)
  {
    hide Split, Less, NumberOf, AllDigits;
    if p == "" && q != "" { return 1; }
    if p != "" && q == "" { return -1; }
    var ia, ib := Split(p, '.'), Split(q, '.');
    if p == q {
      CompareIdentifiersReflexive(ia);
      return 0;
    }
    var len := if |ia| > |ib| then |ia| else |ib|;
    var i := 0;
    while i < len
      invariant 0 <= i <= |ia| && i <= |ib|
      invariant CompareIdentifiers(ia, ib) == CompareIdentifiers(ia[i..], ib[i..])
      decreases len - i
    {
      if i >= |ia| { return -1; }
      if i >= |ib| { return 1; }
      IdentifiersStep(ia, ib, i);
      var sa, sb := ia[i], ib[i];
      var na, nb := IsNumeric(sa), IsNumeric(sb);
      if na && nb {
        var diff := NumberOf(sa) - NumberOf(sb);
        if diff != 0 { return diff; }
      } else if na != nb {
        return if na then -1 else 1;
      } else if sa != sb {
        return if Less(sa, sb) then -1 else 1;
      }
      i := i + 1;
    }
    return 0;
  }

  // ---------------------------------------------------------------------------
  // It is a total preorder on all strings
  // ---------------------------------------------------------------------------

  /** Three comparison results fit together as a transitive order, strictly where a step is strict. */
  predicate Chains(ab: int, bc: int, ac: int) {
    ab <= 0 && bc <= 0 ==> ac <= 0 && (ab < 0 || bc < 0 ==> ac < 0)
  }

  lemma {:induction false} CompareNumbersAntisymmetric(x: seq<int>, y: seq<int>)
    ensures CompareNumbers(x, y) == -CompareNumbers(y, x)
    decreases |x| + |y|
  {
    if x != [] || y != [] {
      CompareNumbersAntisymmetric(Tail(x), Tail(y));
    }
  }

  lemma {:induction false} CompareNumbersTransitive(x: seq<int>, y: seq<int>, z: seq<int>)
    ensures Chains(CompareNumbers(x, y), CompareNumbers(y, z), CompareNumbers(x, z))
    decreases |x| + |y| + |z|
  {
    if x != [] || y != [] || z != [] {
      CompareNumbersTransitive(Tail(x), Tail(y), Tail(z));
    }
  }

  lemma {:induction false} CompareIdentifiersReflexive(x: seq<string>)
    ensures CompareIdentifiers(x, x) == 0
  {
    if x != [] {
      CompareIdentifiersReflexive(x[1..]);
    }
  }

  lemma {:induction false} CompareIdentifiersAntisymmetric(x: seq<string>, y: seq<string>)
    ensures CompareIdentifiers(x, y) == -CompareIdentifiers(y, x)
  {
    if x != [] && y != [] {
      LessIsTotal(x[0], y[0]);
      CompareIdentifiersAntisymmetric(x[1..], y[1..]);
    }
  }

  lemma CompareIdentifierTransitive(x: string, y: string, z: string)
    ensures Chains(CompareIdentifier(x, y), CompareIdentifier(y, z), CompareIdentifier(x, z))
  {
    LessIsTotal(x, y);
    LessIsTotal(y, z);
    LessIsTotal(x, z);
    if Less(x, y) && Less(y, z) {
      LessIsTransitive(x, y, z);
    }
  }

  lemma {:induction false} CompareIdentifiersTransitive(x: seq<string>, y: seq<string>, z: seq<string>)
    ensures Chains(CompareIdentifiers(x, y), CompareIdentifiers(y, z), CompareIdentifiers(x, z))
  {
    if x != [] && y != [] && z != [] {
      CompareIdentifierTransitive(x[0], y[0], z[0]);
      CompareIdentifiersTransitive(x[1..], y[1..], z[1..]);
    }
  }

  lemma CompareReflexive(a: string)
    ensures Compare(a, a) == 0
  {
    CompareAntisymmetric(a, a);
  }

  lemma CompareAntisymmetric(a: string, b: string)
    ensures Compare(a, b) == -Compare(b, a)
  {
    var pa, pb := Parse(a), Parse(b);
    CompareNumbersAntisymmetric(pa.nums, pb.nums);
    CompareIdentifiersAntisymmetric(Split(pa.pre, '.'), Split(pb.pre, '.'));
  }

  lemma CompareTransitive(a: string, b: string, c: string)
    ensures Chains(Compare(a, b), Compare(b, c), Compare(a, c))
  {
    var pa, pb, pc := Parse(a), Parse(b), Parse(c);
    CompareNumbersTransitive(pa.nums, pb.nums, pc.nums);
    CompareIdentifiersTransitive(Split(pa.pre, '.'), Split(pb.pre, '.'), Split(pc.pre, '.'));
  }

  lemma {:induction false} PaddedNumbers(x: seq<int>, zeros: seq<int>)
    requires forall i | 0 <= i < |zeros| :: zeros[i] == 0
    ensures CompareNumbers(x + zeros, x) == 0
    decreases |x| + |zeros|
  {
    if x != [] {
      assert (x + zeros)[1..] == x[1..] + zeros;
      PaddedNumbers(x[1..], zeros);
    } else if zeros != [] {
      assert x + zeros == zeros;
      assert [] + zeros[1..] == zeros[1..];
      PaddedNumbers([], zeros[1..]);
    }
  }

  /** A trailing `.0` on the core does not change a version's rank, whatever its prerelease. */
  lemma TrailingZeroIsNeutral(core: string, tail: string)
    requires core != "" && IsDigit(core[0]) && Trimmed(core) && '-' !in core
    requires tail == "" || (tail[0] == '-' && Trimmed(tail))
    ensures Compare(core + ".0" + tail, core + tail) == 0
  {
    hide Trim, Split, IsSpace, ComparePrerelease, CompareNumbers, ParseIntOrZero;
    ParseWithTail(core, tail);
    DigitIsNotSpace('0');
    DigitIsNotSpace(core[0]);
    assert (core + ".0")[|core| + 1] == '0';
    ParseWithTail(core + ".0", tail);
    var nums := ParseNumbers(Split(core, '.'));
    assert ParseNumbers(Split(core + ".0", '.')) == nums + [0] by {
      SplitOfConcat(core, ".0", '.');
      SplitAtSeparator("", '.', "0");
      SplitWithoutSeparator("0", '.');
      assert "" + ['.'] + "0" == ".0";
      assert Split(".0", '.') == ["", "0"];
      GlueAtBreak(Split(core, '.'), ["0"]);
      assert [""] + ["0"] == ["", "0"];
      assert ParseIntOrZero("0") == 0 by { ZeroParses(); }
      var l := Split(core, '.');
      assert ParseNumbers(l + ["0"]) == ParseNumbers(l) + [ParseIntOrZero("0")];
    }
    PaddedNumbers(nums, [0]);
    CompareReflexive(core + tail);
  }

  lemma ZeroParses()
    ensures ParseIntOrZero("0") == 0
  {
    assert TrimLeft("0") == "0" && DigitPrefix("0") == "0" && NumberOf("0") == 0;
  }

  lemma ParseWithTail(core: string, tail: string)
    requires core != "" && IsDigit(core[0]) && Trimmed(core) && '-' !in core
    requires tail == "" || (tail[0] == '-' && Trimmed(tail))
    ensures Parse(core + tail).nums == ParseNumbers(Split(core, '.'))
    ensures Parse(core + tail).pre == if tail == "" then "" else Split(tail[1..], '-')[0]
  {
    hide Trim, Split, IsSpace, ParseIntOrZero;
    var v := core + tail;
    assert v[0] == core[0];
    assert v[|v| - 1] == if tail == "" then core[|core| - 1] else tail[|tail| - 1];
    TrimOfTrimmed(v);
    if tail == "" {
      assert v == core;
      SplitWithoutSeparator(core, '-');
    } else {
      assert v == core + ['-'] + tail[1..];
      SplitAtSeparator(core, '-', tail[1..]);
    }
  }

  // ---------------------------------------------------------------------------
  // Which of two versions ranks below
  // ---------------------------------------------------------------------------

  /** A core read as an endless row of numbers. */
  function NumberAt(x: seq<int>, k: nat): int { if k < |x| then x[k] else 0 }

  /** At `k` the first core has the smaller number, and below `k` the two agree. */
  ghost predicate CoreBelowAt(x: seq<int>, y: seq<int>, k: nat) {
    NumberAt(x, k) < NumberAt(y, k) && forall j: nat | j < k :: NumberAt(x, j) == NumberAt(y, j)
  }

  lemma {:induction false} CoreBelowExactly(x: seq<int>, y: seq<int>)
    ensures CompareNumbers(x, y) < 0 <==> exists k: nat :: CoreBelowAt(x, y, k)
    decreases |x| + |y|
  {
    if x != [] || y != [] {
      CoreBelowExactly(Tail(x), Tail(y));
      assert NumberAt(x, 0) == HeadOrZero(x) && NumberAt(y, 0) == HeadOrZero(y);
      assert forall j: nat :: NumberAt(Tail(x), j) == NumberAt(x, j + 1) && NumberAt(Tail(y), j) == NumberAt(y, j + 1);
      if HeadOrZero(x) < HeadOrZero(y) {
        assert CoreBelowAt(x, y, 0);
      }
      if k: nat :| CoreBelowAt(Tail(x), Tail(y), k) && HeadOrZero(x) == HeadOrZero(y) {
        CoreBelowShifts(x, y, k);
      }
      if k: nat :| CoreBelowAt(x, y, k) && HeadOrZero(x) == HeadOrZero(y) {
        CoreBelowShifts(x, y, k - 1);
      }
    }
  }

  lemma CoreBelowShifts(x: seq<int>, y: seq<int>, k: nat)
    requires HeadOrZero(x) == HeadOrZero(y)
    ensures CoreBelowAt(x, y, k + 1) <==> CoreBelowAt(Tail(x), Tail(y), k)
  {
    assert forall j: nat :: NumberAt(Tail(x), j) == NumberAt(x, j + 1) && NumberAt(Tail(y), j) == NumberAt(y, j + 1);
    if CoreBelowAt(Tail(x), Tail(y), k) {
      forall j: nat | j < k + 1
        ensures NumberAt(x, j) == NumberAt(y, j)
      {
        assert j > 0 ==> NumberAt(Tail(x), j - 1) == NumberAt(Tail(y), j - 1);
      }
    }
  }

  /** Numbers by value and below text; text by its first different character, or by being shorter. */
  ghost predicate IdentifierBelow(x: string, y: string) {
    if IsNumeric(x) then !IsNumeric(y) || NumberOf(x) < NumberOf(y)
    else !IsNumeric(y) && exists k: nat :: TextBelowAt(x, y, k)
  }

  /** At `k` the first list ends or has the lower identifier, and below `k` the two have the same ones. */
  ghost predicate ListBelowAt(x: seq<string>, y: seq<string>, k: nat) {
    && k <= |x| && k < |y|
    && (forall j | 0 <= j < k :: SameIdentifier(x[j], y[j]))
    && (k < |x| ==> IdentifierBelow(x[k], y[k]))
  }

  lemma IdentifierBelowExactly(x: string, y: string)
    ensures CompareIdentifier(x, y) < 0 <==> IdentifierBelow(x, y)
    ensures CompareIdentifier(x, y) == 0 <==> SameIdentifier(x, y)
  {
    hide Less, NumberOf, AllDigits;
    LessExactly(x, y);
    LessIsTotal(x, y);
  }

  lemma {:induction false} ListBelowExactly(x: seq<string>, y: seq<string>)
    ensures CompareIdentifiers(x, y) < 0 <==> exists k: nat :: ListBelowAt(x, y, k)
  {
    hide CompareIdentifier, IdentifierBelow, SameIdentifier;
    if y == [] {
    } else if x == [] {
      assert ListBelowAt(x, y, 0);
    } else {
      IdentifierBelowExactly(x[0], y[0]);
      ListBelowExactly(x[1..], y[1..]);
      if IdentifierBelow(x[0], y[0]) {
        assert ListBelowAt(x, y, 0);
      }
      if SameIdentifier(x[0], y[0]) {
        if k: nat :| ListBelowAt(x[1..], y[1..], k) { ListBelowShifts(x, y, k); }
        if k: nat :| ListBelowAt(x, y, k) {
          assert k > 0;
          ListBelowShifts(x, y, k - 1);
        }
      }
    }
  }

  lemma ListBelowShifts(x: seq<string>, y: seq<string>, k: nat)
    requires x != [] && y != [] && SameIdentifier(x[0], y[0])
    ensures ListBelowAt(x, y, k + 1) <==> ListBelowAt(x[1..], y[1..], k)
  {
    hide IdentifierBelow, SameIdentifier;
    if ListBelowAt(x[1..], y[1..], k) {
      forall j | 0 <= j < k + 1
        ensures SameIdentifier(x[j], y[j])
      {
        assert j > 0 ==> SameIdentifier(x[1..][j - 1], y[1..][j - 1]);
      }
    }
    if ListBelowAt(x, y, k + 1) {
      forall j | 0 <= j < k
        ensures SameIdentifier(x[1..][j], y[1..][j])
      {
        assert SameIdentifier(x[j + 1], y[j + 1]);
      }
    }
  }

  /**
   * The first different number of the cores decides; on equal cores a prerelease ranks below the release, and the
   * first different identifier decides between two prereleases.
   */
  ghost predicate RanksBelow(p: Parsed, q: Parsed) {
    || (exists k: nat :: CoreBelowAt(p.nums, q.nums, k))
    || (Significant(p.nums) == Significant(q.nums) && PrereleaseBelow(p.pre, q.pre))
  }

  ghost predicate PrereleaseBelow(p: string, q: string) {
    p != "" && (q == "" || exists k: nat :: ListBelowAt(Split(p, '.'), Split(q, '.'), k))
  }

  lemma PrereleaseBelowExactly(p: string, q: string)
    ensures ComparePrerelease(p, q) < 0 <==> PrereleaseBelow(p, q)
  {
    hide Split, ListBelowAt, CompareIdentifiers;
    ListBelowExactly(Split(p, '.'), Split(q, '.'));
  }

  /** The order on all strings, off what is read of them. */
  lemma RanksBelowExactly(a: string, b: string)
    ensures Compare(a, b) < 0 <==> RanksBelow(Parse(a), Parse(b))
  {
    hide Parse, CoreBelowAt, PrereleaseBelow, ComparePrerelease, Significant, CompareNumbers;
    var p, q := Parse(a), Parse(b);
    CoreBelowExactly(p.nums, q.nums);
    CoresTieExactly(p.nums, q.nums);
    PrereleaseBelowExactly(p.pre, q.pre);
  }

  // ---------------------------------------------------------------------------
  // When two versions rank equal
  // ---------------------------------------------------------------------------

  /** A core without its trailing zeros. */
  function Significant(nums: seq<int>): seq<int> {
    if nums == [] then []
    else
      var rest := Significant(nums[1..]);
      if rest == [] && nums[0] == 0 then [] else [nums[0]] + rest
  }

  lemma {:induction false} CoresTieExactly(x: seq<int>, y: seq<int>)
    ensures CompareNumbers(x, y) == 0 <==> Significant(x) == Significant(y)
    decreases |x| + |y|
  {
    if x != [] || y != [] {
      CoresTieExactly(Tail(x), Tail(y));
      SignificantStep(x);
      SignificantStep(y);
      var g, h, p, q := HeadOrZero(x), HeadOrZero(y), Significant(Tail(x)), Significant(Tail(y));
      assert ([g] + p)[1..] == p && ([h] + q)[1..] == q;
      assert ([g] + p)[0] == g && ([h] + q)[0] == h;
    }
  }

  lemma SignificantStep(x: seq<int>)
    ensures var rest := Significant(Tail(x));
            Significant(x) == if rest == [] && HeadOrZero(x) == 0 then [] else [HeadOrZero(x)] + rest
  {}

  /** Equal numbers when both are numeric, else equal text. */
  predicate SameIdentifier(x: string, y: string) {
    if IsNumeric(x) && IsNumeric(y) then NumberOf(x) == NumberOf(y) else x == y
  }

  predicate SameIdentifiers(x: seq<string>, y: seq<string>) {
    |x| == |y| && forall i | 0 <= i < |x| :: SameIdentifier(x[i], y[i])
  }

  lemma {:induction false} IdentifiersTieExactly(x: seq<string>, y: seq<string>)
    ensures CompareIdentifiers(x, y) == 0 <==> SameIdentifiers(x, y)
  {
    hide IsNumeric, NumberOf;
    if x != [] && y != [] {
      IdentifiersTieExactly(x[1..], y[1..]);
      assert SameIdentifiers(x, y) <==> SameIdentifier(x[0], y[0]) && SameIdentifiers(x[1..], y[1..]) by {
        assert forall i | 0 < i < |x| :: x[i] == x[1..][i - 1];
        assert forall i | 0 < i < |y| :: y[i] == y[1..][i - 1];
      }
      LessIsTotal(x[0], y[0]);
    }
  }

  /**
   * Two versions rank equal exactly when their cores are the same numbers up to trailing zeros and their prereleases
   * are both absent or agree identifier by identifier.
   */
  lemma RankEqualExactly(a: string, b: string)
    ensures Compare(a, b) == 0 <==>
              && Significant(Parse(a).nums) == Significant(Parse(b).nums)
              && (Parse(a).pre == "" <==> Parse(b).pre == "")
              && (Parse(a).pre != "" ==> SameIdentifiers(Split(Parse(a).pre, '.'), Split(Parse(b).pre, '.')))
  {
    hide Parse, Split, SameIdentifiers, Significant, CompareNumbers, CompareIdentifiers;
    CoresTieExactly(Parse(a).nums, Parse(b).nums);
    IdentifiersTieExactly(Split(Parse(a).pre, '.'), Split(Parse(b).pre, '.'));
  }

  /** `parseInt` finds no number at the front of the segment. */
  predicate NoNumber(segment: string) {
    var t := TrimLeft(segment);
    var body := if t != "" && (t[0] == '-' || t[0] == '+') then t[1..] else t;
    body == "" || !IsDigit(body[0])
  }

  /** The segments of the numeric core. */
  function CoreSegments(v: string): seq<string> {
    Split(Split(Cleaned(v), '-')[0], '.')
  }

  lemma {:induction false} ZerosAreInsignificant(nums: seq<int>)
    requires forall i | 0 <= i < |nums| :: nums[i] == 0
    ensures Significant(nums) == []
  {
    if nums != [] {
      ZerosAreInsignificant(nums[1..]);
    }
  }

  lemma CoreReadsZero(v: string)
    requires forall i | 0 <= i < |CoreSegments(v)| :: NoNumber(CoreSegments(v)[i])
    ensures forall i | 0 <= i < |Parse(v).nums| :: Parse(v).nums[i] == 0
  {
    hide Split, Cleaned, ParseIntOrZero, NoNumber;
    var segments := CoreSegments(v);
    assert Parse(v).nums == ParseNumbers(segments);
    forall i | 0 <= i < |segments|
      ensures ParseIntOrZero(segments[i]) == 0
    {
      NoNumberReadsZero(segments[i]);
    }
  }

  lemma NoNumberReadsZero(segment: string)
    requires NoNumber(segment)
    ensures ParseIntOrZero(segment) == 0
  {
    hide TrimLeft;
  }

  /** Cores in which no segment starts with a number always tie: each segment reads as 0, none as text. */
  lemma NonNumericCoresTie(a: string, b: string)
    requires forall i | 0 <= i < |CoreSegments(a)| :: NoNumber(CoreSegments(a)[i])
    requires forall i | 0 <= i < |CoreSegments(b)| :: NoNumber(CoreSegments(b)[i])
    ensures Compare(a, b) == ComparePrerelease(Parse(a).pre, Parse(b).pre)
  {
    hide Split, Cleaned, TrimLeft, ComparePrerelease, CompareNumbers;
    CoreReadsZero(a);
    CoreReadsZero(b);
    ZerosAreInsignificant(Parse(a).nums);
    ZerosAreInsignificant(Parse(b).nums);
    CoresTieExactly(Parse(a).nums, Parse(b).nums);
  }

  /** A channel-like tag such as `main`: one segment, no number, nothing stripped from it. */
  predicate Word(v: string) {
    Cleaned(v) == v && '-' !in v && '.' !in v && NoNumber(v)
  }

  /** Two words tie; comparing them as text would give the same answer exactly when they are the same word. */
  lemma WordsTie(a: string, b: string)
    requires Word(a) && Word(b)
    ensures Compare(a, b) == 0
    ensures (Compare(a, b) < 0 <==> Less(a, b)) && (Compare(b, a) < 0 <==> Less(b, a)) <==> a == b
  {
    hide Split, Cleaned, NoNumber, ParseNumbers;
    SplitWithoutSeparator(a, '-');
    SplitWithoutSeparator(b, '-');
    SplitWithoutSeparator(a, '.');
    SplitWithoutSeparator(b, '.');
    NonNumericCoresTie(a, b);
    CompareAntisymmetric(a, b);
    LessIsTotal(a, b);
  }

  /** Two tags that a text comparison would order. */
  lemma MainAndEdgeTie()
    ensures Compare("main", "edge") == 0 && Less("edge", "main")
  {
    WordOfLetters("main");
    WordOfLetters("edge");
    hide Compare;
    WordsTie("main", "edge");
  }

  lemma WordOfLetters(v: string)
    requires v != "" && v[0] != 'v' && v[0] != 'c' && forall i | 0 <= i < |v| :: 'a' <= v[i] <= 'z'
    ensures Word(v)
  {
    hide Trim, TrimLeft, Trimmed, IsSpace, Blank;
    LettersArePlain(v);
    TrimOfTrimmed(v);
    assert v[0] != "cli-v"[0] && v[0] != "v"[0];
    assert TrimLeft(v) == v by { TrimLeftOfPlain(v); }
  }

  lemma TrimLeftOfPlain(v: string)
    requires v != "" && !IsSpace(v[0])
    ensures TrimLeft(v) == v
  {
    TrimLeftOfPadded("", v);
    assert "" + v == v;
  }

  lemma LettersArePlain(v: string)
    requires v != "" && forall i | 0 <= i < |v| :: 'a' <= v[i] <= 'z'
    ensures Trimmed(v) && !IsSpace(v[0]) && '-' !in v && '.' !in v && !IsDigit(v[0])
  {}

  /** `isNewerVersion`. */
  predicate Newer(candidate: string, current: string) {
    Compare(candidate, current) > 0
  }

  /** The three facts about `Newer` that walks and selections need. */
  lemma NewerIsStrictOrder(a: string, b: string, c: string)
    ensures !Newer(a, a)
    ensures Newer(a, b) ==> !Newer(b, a)
    ensures Newer(a, b) && Newer(b, c) ==> Newer(a, c)
    ensures Newer(a, b) && !Newer(c, b) ==> Newer(a, c)
    ensures !Newer(b, a) && Newer(b, c) ==> Newer(a, c)
    ensures !Newer(b, a) && !Newer(c, b) ==> !Newer(c, a)
  {
    CompareReflexive(a);
    CompareAntisymmetric(a, b);
    CompareAntisymmetric(b, c);
    CompareAntisymmetric(a, c);
    CompareTransitive(c, b, a);
    CompareTransitive(a, b, c);
    CompareTransitive(c, a, b);
    CompareTransitive(b, c, a);
  }

  // ---------------------------------------------------------------------------
  // Release channels
  // ---------------------------------------------------------------------------

  /** A catalog entry: what selection reads, and whatever else it carries. */
  datatype Entry<T> = Entry(version: string, channel: Option<string>, rest: T)

  predicate IsEligibleOnChannel(versionChannel: string, channel: string) {
    versionChannel == channel || versionChannel == STABLE_CHANNEL
  }

  predicate Eligible<T>(e: Entry<T>, channel: string) {
    IsEligibleOnChannel(if e.channel.Some? then e.channel.value else STABLE_CHANNEL, channel)
  }

  /** On offer: without a channel, on `stable`, or on the channel asked for. */
  predicate Offered<T>(e: Entry<T>, channel: string) {
    match e.channel
    case None => true
    case Some(own) => own == "stable" || own == channel
  }

  lemma EligibleExactly<T>(e: Entry<T>, channel: string)
    ensures Eligible(e, channel) <==> Offered(e, channel)
  {}

  /** `entries[k]` is on offer, no entry on offer is newer, and every later one on offer is older. */
  ghost predicate IsLastNewest<T>(entries: seq<Entry<T>>, channel: string, k: int) {
    && 0 <= k < |entries|
    && Offered(entries[k], channel)
    && forall j | 0 <= j < |entries| && Offered(entries[j], channel) ::
         && Compare(entries[j].version, entries[k].version) <= 0
         && (j > k ==> Compare(entries[j].version, entries[k].version) < 0)
  }

  /** Keep the later of two candidates unless it is older. */
  function Prefer<T>(first: Option<Entry<T>>, second: Option<Entry<T>>): Option<Entry<T>> {
    if first.None? then second
    else if second.None? then first
    else if Compare(second.value.version, first.value.version) >= 0 then second
    else first
  }

  /** The selection by divide and conquer, as a reference for the left-to-right scan. */
  function Newest<T>(entries: seq<Entry<T>>, channel: string): Option<Entry<T>> {
    if entries == [] then None
    else
      var last := entries[|entries| - 1];
      Prefer(Newest(entries[..|entries| - 1], channel), if Eligible(last, channel) then Some(last) else None)
  }

  lemma {:induction false} NewestIsLastNewest<T>(entries: seq<Entry<T>>, channel: string) returns (k: int)
    ensures var best := Newest(entries, channel);
            if best.None? then forall j | 0 <= j < |entries| :: !Offered(entries[j], channel)
            else IsLastNewest(entries, channel, k) && entries[k] == best.value
  {
    hide Compare, Eligible, Offered;
    k := -1;
    if entries != [] {
      var n := |entries| - 1;
      var before := NewestIsLastNewest(entries[..n], channel);
      var best := Newest(entries[..n], channel);
      var last := entries[n];
      EligibleExactly(last, channel);
      k := before;
      if Eligible(last, channel) && (best.None? || Compare(last.version, best.value.version) >= 0) {
        k := n;
        CompareReflexive(last.version);
        forall j | 0 <= j < n && Offered(entries[j], channel)
          ensures Compare(entries[j].version, last.version) <= 0
        {
          assert entries[..n][j] == entries[j];
          CompareAntisymmetric(last.version, best.value.version);
          CompareTransitive(entries[j].version, best.value.version, last.version);
        }
      } else if best.Some? {
        assert forall j | 0 <= j < n :: entries[..n][j] == entries[j];
      }
    }
  }

  method NewestEligibleVersion<T>(entries: seq<Entry<T>>, channel: string) returns (best: Option<Entry<T>>)
    ensures best == Newest(entries, channel)
    ensures best.None? <==> forall j | 0 <= j < |entries| ::
              entries[j].channel.Some? && entries[j].channel.value != "stable" && entries[j].channel.value != channel
    ensures best.Some? ==>
              best.value.channel == None || best.value.channel == Some("stable") || best.value.channel == Some(channel)
    ensures best.Some? ==> exists k :: IsLastNewest(entries, channel, k) && entries[k] == best.value
  {
    hide Compare, Eligible;
    best := None;
    var i := 0;
    while i < |entries|
      invariant 0 <= i <= |entries|
      invariant best == Newest(entries[..i], channel)
    {
      var entry := entries[i];
      assert entries[..i + 1][..i] == entries[..i];
      if Eligible(entry, channel) {
        var c := 0;
        if best.Some? {
          c := CompareVersions(entry.version, best.value.version);
        }
        if c >= 0 {
          best := Some(entry);
        }
      }
      i := i + 1;
    }
    assert entries[..i] == entries;
    ghost var k := NewestIsLastNewest(entries, channel);
  }

  /** The entries on offer, in order. */
  function OnOffer<T>(entries: seq<Entry<T>>, channel: string): seq<Entry<T>> {
    if entries == [] then []
    else
      var last := entries[|entries| - 1];
      OnOffer(entries[..|entries| - 1], channel) + (if Offered(last, channel) then [last] else [])
  }

  /** Entries on other channels can be taken out of the catalog without changing what is selected. */
  lemma {:induction false} OtherChannelsDoNotMatter<T>(entries: seq<Entry<T>>, channel: string)
    ensures Newest(OnOffer(entries, channel), channel) == Newest(entries, channel)
  {
    hide Compare, Eligible, Offered;
    if entries != [] {
      var n := |entries| - 1;
      OtherChannelsDoNotMatter(entries[..n], channel);
      EligibleExactly(entries[n], channel);
      var before := OnOffer(entries[..n], channel);
      assert (before + [entries[n]])[..|before|] == before;
      if !Offered(entries[n], channel) {
        assert before + [] == before;
      }
    }
  }

  lemma PreferAssociative<T>(a: Option<Entry<T>>, b: Option<Entry<T>>, c: Option<Entry<T>>)
    ensures Prefer(Prefer(a, b), c) == Prefer(a, Prefer(b, c))
  {
    if a.Some? && b.Some? && c.Some? {
      var x, y, z := a.value.version, b.value.version, c.value.version;
      NewerIsStrictOrder(x, y, z);
      CompareAntisymmetric(x, y);
      CompareAntisymmetric(y, z);
      CompareAntisymmetric(x, z);
      CompareTransitive(x, y, z);
      CompareTransitive(z, y, x);
    }
  }

  /** Selecting from a concatenated catalog only needs the selections from its parts. */
  lemma {:induction false} NewestOfConcat<T>(xs: seq<Entry<T>>, ys: seq<Entry<T>>, channel: string)
    ensures Newest(xs + ys, channel) == Prefer(Newest(xs, channel), Newest(ys, channel))
  {
    if ys == [] {
      assert xs + ys == xs;
    } else {
      var n := |ys| - 1;
      assert (xs + ys)[..|xs + ys| - 1] == xs + ys[..n];
      NewestOfConcat(xs, ys[..n], channel);
      PreferAssociative(Newest(xs, channel), Newest(ys[..n], channel),
                        if Eligible(ys[n], channel) then Some(ys[n]) else None);
    }
  }

  /** `stable` is the floor of every channel: leaving it never yields an older version. */
  lemma {:induction false} NoChannelIsOlderThanStable<T>(entries: seq<Entry<T>>, channel: string)
    ensures NotOlder(Newest(entries, channel), Newest(entries, STABLE_CHANNEL))
  {
    hide Compare, Prefer, NotOlder;
    if entries == [] {
      NothingIsNotOlder<T>(None);
    } else {
      var init, last := entries[..|entries| - 1], entries[|entries| - 1];
      NoChannelIsOlderThanStable(init, channel);
      var floor, best := Newest(init, STABLE_CHANNEL), Newest(init, channel);
      var l := if Eligible(last, channel) then Some(last) else None;
      var s := if Eligible(last, STABLE_CHANNEL) then Some(last) else None;
      NothingIsNotOlder(l);
      PreferKeepsNotOlder(best, l, floor, s);
    }
  }

  /** `best` is present and not older whenever `floor` is present. */
  predicate NotOlder<T>(best: Option<Entry<T>>, floor: Option<Entry<T>>) {
    floor.Some? ==> best.Some? && Compare(best.value.version, floor.value.version) >= 0
  }

  lemma NothingIsNotOlder<T>(e: Option<Entry<T>>)
    ensures NotOlder(e, None) && NotOlder(e, e)
  {
    hide Compare;
    if e.Some? { CompareReflexive(e.value.version); }
  }

  lemma PreferKeepsNotOlder<T>(a: Option<Entry<T>>, b: Option<Entry<T>>, c: Option<Entry<T>>, d: Option<Entry<T>>)
    requires NotOlder(a, c) && NotOlder(b, d)
    ensures NotOlder(Prefer(a, b), Prefer(c, d))
  {
    hide Compare;
    if a.Some? && b.Some? {
      CompareAntisymmetric(a.value.version, b.value.version);
      if c.Some? {
        CompareAntisymmetric(c.value.version, a.value.version);
        CompareAntisymmetric(c.value.version, b.value.version);
        CompareTransitive(c.value.version, a.value.version, b.value.version);
      }
      if d.Some? {
        CompareAntisymmetric(d.value.version, b.value.version);
        CompareAntisymmetric(d.value.version, a.value.version);
        CompareTransitive(d.value.version, b.value.version, a.value.version);
      }
    }
  }
}
