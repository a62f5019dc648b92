/** Precedence as section 11 of Semantic Versioning 2.0.0 states it, and its agreement with `compareVersions`. */
module SemVer {
  import opened Text
  import opened Versions

  datatype Identifier = Numeric(n: nat) | Alphanumeric(s: string)

  /** A version without build metadata. */
  datatype SemVer = SemVer(major: nat, minor: nat, patch: nat, pre: seq<Identifier>)

  /** Alphanumeric identifiers consist of letters, digits and hyphens, and not of digits only (section 9). */
  predicate WellFormedIdentifier(id: Identifier) {
    id.Alphanumeric? ==>
      && id.s != "" && !AllDigits(id.s)
      && forall i | 0 <= i < |id.s| :: IsAlnum(id.s[i]) || id.s[i] == '-'
  }

  predicate Hyphenated(id: Identifier) { id.Alphanumeric? && '-' in id.s }

  predicate HyphenFree(v: SemVer) {
    forall i | 0 <= i < |v.pre| :: !Hyphenated(v.pre[i])
  }

  predicate WellFormed(v: SemVer) {
    forall i | 0 <= i < |v.pre| :: WellFormedIdentifier(v.pre[i])
  }

  // ---------------------------------------------------------------------------
  // Section 11
  // ---------------------------------------------------------------------------

  /** 11.4.1-11.4.3: numbers numerically, text in ASCII order, numbers below text. */
  predicate IdentifierPrecedes(x: Identifier, y: Identifier) {
    match (x, y)
    case (Numeric(m), Numeric(n)) => m < n
    case (Numeric(_), Alphanumeric(_)) => true
    case (Alphanumeric(_), Numeric(_)) => false
    case (Alphanumeric(s), Alphanumeric(t)) => Less(s, t)
  }

  /** The lists agree below `k`, and at `k` the first one ends or has the smaller identifier (11.4.4). */
  ghost predicate DiffersAt(x: seq<Identifier>, y: seq<Identifier>, k: nat) {
    && k <= |x| && k < |y|
    && x[..k] == y[..k]
    && (k < |x| ==> IdentifierPrecedes(x[k], y[k]))
  }

  /** 11.3: a prerelease precedes the release; 11.4: otherwise the first difference decides. */
  ghost predicate PrereleasePrecedes(x: seq<Identifier>, y: seq<Identifier>) {
    x != [] && (y == [] || exists k :: DiffersAt(x, y, k))
  }

  /** 11.2: major, minor and patch numerically, then the prereleases. */
  ghost predicate Precedes(a: SemVer, b: SemVer) {
    || a.major < b.major
    || (a.major == b.major && a.minor < b.minor)
    || (a.major == b.major && a.minor == b.minor && a.patch < b.patch)
    || (a.major == b.major && a.minor == b.minor && a.patch == b.patch && PrereleasePrecedes(a.pre, b.pre))
  }

  // ---------------------------------------------------------------------------
  // Written form
  // ---------------------------------------------------------------------------

  function FormatIdentifier(id: Identifier): string {
    match id
    case Numeric(n) => Decimal(n)
    case Alphanumeric(s) => s
  }

  function FormatAll(ids: seq<Identifier>): (r: seq<string>)
    ensures |r| == |ids|
    ensures forall i | 0 <= i < |ids| :: r[i] == FormatIdentifier(ids[i])
  {
    seq(|ids|, i requires 0 <= i < |ids| => FormatIdentifier(ids[i]))
  }

  function FormatCore(v: SemVer): string {
    Join([Decimal(v.major), Decimal(v.minor), Decimal(v.patch)], '.')
  }

  function FormatPre(ids: seq<Identifier>): string { Join(FormatAll(ids), '.') }

  function Format(v: SemVer): string {
    if v.pre == [] then FormatCore(v) else FormatCore(v) + "-" + FormatPre(v.pre)
  }

  predicate PlainText(s: string) {
    forall i | 0 <= i < |s| :: IsAlnum(s[i]) || s[i] == '.' || s[i] == '-'
  }

  lemma PlainTextIsTrimmed(s: string)
    requires PlainText(s)
    ensures Trimmed(s)
  {}

  lemma {:induction false} JoinIsPlain(parts: seq<string>)
    requires forall k | 0 <= k < |parts| :: PlainText(parts[k])
    ensures PlainText(Join(parts, '.'))
  {
    if |parts| > 1 {
      JoinIsPlain(parts[1..]);
    }
  }

  lemma {:induction false} DigitPrefixOfDigits(s: string)
    requires AllDigits(s)
    ensures DigitPrefix(s) == s
  {
    if s != "" {
      DigitPrefixOfDigits(s[1..]);
    }
  }

  lemma ReadBack(n: nat)
    ensures ParseIntOrZero(Decimal(n)) == n
  {
    hide Decimal, NumberOf;
    var s := Decimal(n);
    assert IsDigit(s[0]);
    DigitPrefixOfDigits(s);
    NumberOfDecimal(n);
  }

  lemma {:induction false} JoinHasNo(parts: seq<string>, c: char)
    requires c != '.' && forall k | 0 <= k < |parts| :: c !in parts[k]
    ensures c !in Join(parts, '.')
  {
    if |parts| > 1 {
      JoinHasNo(parts[1..], c);
    }
  }

  /** The core of every written version is read back. */
  lemma CoreReadsBack(v: SemVer)
    ensures var core := FormatCore(v);
            && core != "" && IsDigit(core[0]) && Trimmed(core) && '-' !in core
            && ParseNumbers(Split(core, '.')) == [v.major as int, v.minor as int, v.patch as int]
  {
    hide Decimal, Split, ParseIntOrZero, Trimmed;
    var core := [Decimal(v.major), Decimal(v.minor), Decimal(v.patch)];
    JoinIsPlain(core);
    PlainTextIsTrimmed(FormatCore(v));
    JoinHasNo(core, '-');
    assert forall k | 0 <= k < 3 :: '.' !in core[k];
    SplitOfJoin(core, '.');
    assert FormatCore(v)[0] == Decimal(v.major)[0];
    ReadBack(v.major);
    ReadBack(v.minor);
    ReadBack(v.patch);
    assert ParseNumbers(core) == [v.major as int, v.minor as int, v.patch as int];
  }

  lemma ParseOfFormat(v: SemVer)
    requires WellFormed(v) && HyphenFree(v)
    ensures Parse(Format(v)) == Parsed([v.major as int, v.minor as int, v.patch as int], FormatPre(v.pre))
    ensures v.pre != [] ==> FormatPre(v.pre) != "" && Split(FormatPre(v.pre), '.') == FormatAll(v.pre)
  {
    hide Parse, Split, FormatCore, FormatPre, Trimmed, WellFormedIdentifier;
    CoreReadsBack(v);
    FormatPreIsPlain(v.pre);
    EmptyPre();
    ParsePlain(FormatCore(v), FormatPre(v.pre));
  }

  lemma FormatPreIsPlain(ids: seq<Identifier>)
    requires forall i | 0 <= i < |ids| :: WellFormedIdentifier(ids[i])
    ensures Trimmed(FormatPre(ids))
    ensures (forall i | 0 <= i < |ids| :: !Hyphenated(ids[i])) ==> '-' !in FormatPre(ids)
    ensures ids != [] ==> FormatPre(ids) != "" && Split(FormatPre(ids), '.') == FormatAll(ids)
  {
    hide Decimal, Split, Trimmed;
    var parts := FormatAll(ids);
    forall k | 0 <= k < |parts|
      ensures PlainText(parts[k]) && '.' !in parts[k] && parts[k] != ""
      ensures !Hyphenated(ids[k]) ==> '-' !in parts[k]
    {
      assert WellFormedIdentifier(ids[k]);
    }
    JoinIsPlain(parts);
    PlainTextIsTrimmed(FormatPre(ids));
    if forall i | 0 <= i < |ids| :: !Hyphenated(ids[i]) {
      JoinHasNo(parts, '-');
    }
    if ids != [] {
      SplitOfJoin(parts, '.');
      assert |Join(parts, '.')| >= |parts[0]|;
    }
  }

  // ---------------------------------------------------------------------------
  // Agreement
  // ---------------------------------------------------------------------------

  lemma IdentifiersAgree(x: Identifier, y: Identifier)
    requires WellFormedIdentifier(x) && WellFormedIdentifier(y)
    ensures var c := CompareIdentifier(FormatIdentifier(x), FormatIdentifier(y));
            (c < 0 <==> IdentifierPrecedes(x, y)) && (c == 0 <==> x == y)
  {
    hide Decimal, NumberOf, Less;
    if x.Numeric? { NumberOfDecimal(x.n); }
    if y.Numeric? { NumberOfDecimal(y.n); }
    LessIsTotal(FormatIdentifier(x), FormatIdentifier(y));
  }

  lemma {:induction false} ListsAgree(x: seq<Identifier>, y: seq<Identifier>)
    requires forall i | 0 <= i < |x| :: WellFormedIdentifier(x[i])
    requires forall i | 0 <= i < |y| :: WellFormedIdentifier(y[i])
    ensures var c := CompareIdentifiers(FormatAll(x), FormatAll(y));
            (c < 0 <==> exists k :: DiffersAt(x, y, k)) && (c == 0 <==> x == y)
  {
    hide CompareIdentifier, WellFormedIdentifier;
    if x == [] || y == [] {
      if y != [] {
        assert DiffersAt(x, y, 0);
      }
    } else {
      IdentifiersAgree(x[0], y[0]);
      ListsAgree(x[1..], y[1..]);
      assert FormatAll(x)[1..] == FormatAll(x[1..]);
      assert FormatAll(y)[1..] == FormatAll(y[1..]);
      assert x == [x[0]] + x[1..] && y == [y[0]] + y[1..];
      if x[0] != y[0] {
        assert IdentifierPrecedes(x[0], y[0]) ==> DiffersAt(x, y, 0);
        assert forall k | k > 0 && DiffersAt(x, y, k) :: x[..k][0] == y[..k][0];
      } else {
        IdentifiersAgree(x[0], x[0]);
        DifferenceShifts(x, y);
      }
    }
  }

  lemma DifferenceShifts(x: seq<Identifier>, y: seq<Identifier>)
    requires x != [] && y != [] && x[0] == y[0] && !IdentifierPrecedes(x[0], y[0])
    ensures (exists k :: DiffersAt(x, y, k)) <==> (exists k :: DiffersAt(x[1..], y[1..], k))
  {
    if k: nat :| DiffersAt(x, y, k) {
      assert k > 0;
      assert x[1..][..k - 1] == x[..k][1..] && y[1..][..k - 1] == y[..k][1..];
      assert DiffersAt(x[1..], y[1..], k - 1);
    }
    if k: nat :| DiffersAt(x[1..], y[1..], k) {
      assert x[..k + 1] == [x[0]] + x[1..][..k] && y[..k + 1] == [y[0]] + y[1..][..k];
      assert DiffersAt(x, y, k + 1);
    }
  }

  /** The comparison is negative exactly on precedence and zero exactly on equality. */
  ghost predicate Agree(a: SemVer, b: SemVer) {
    && (Compare(Format(a), Format(b)) < 0 <==> Precedes(a, b))
    && (Compare(Format(a), Format(b)) == 0 <==> a == b)
  }

  /** On written semantic versions without inner hyphens the comparison is section 11. */
  lemma CompareIsPrecedence(a: SemVer, b: SemVer)
    requires WellFormed(a) && WellFormed(b) && HyphenFree(a) && HyphenFree(b)
    ensures Agree(a, b)
  {
    hide Parse, Format, FormatPre, Split, CompareIdentifiers, DiffersAt;
    ParseOfFormat(a);
    ParseOfFormat(b);
    ListsAgree(a.pre, b.pre);
    CoresAgree(a.major, a.minor, a.patch, b.major, b.minor, b.patch);
    EmptyPre();
  }

  lemma EmptyPre()
    ensures FormatPre([]) == ""
  {}

  lemma CoresAgree(x: int, y: int, z: int, u: int, v: int, w: int)
    ensures CompareNumbers([x, y, z], [u, v, w]) ==
            if x != u then x - u else if y != v then y - v else z - w
  {
    assert Tail([x, y, z]) == [y, z] && Tail([y, z]) == [z] && Tail([z]) == [];
    assert Tail([u, v, w]) == [v, w] && Tail([v, w]) == [w] && Tail([w]) == [];
    assert CompareNumbers([z], [w]) == z - w;
    assert CompareNumbers([y, z], [v, w]) == if y != v then y - v else z - w;
  }

  // ---------------------------------------------------------------------------
  // Inner hyphens
  // ---------------------------------------------------------------------------

  /** What the comparison reads of a prerelease: everything up to the first hyphen. */
  function ReadIds(ids: seq<Identifier>): (r: seq<string>)
    ensures ids != [] ==> r != []
  {
    if ids == [] then []
    else
      var id := FormatIdentifier(ids[0]);
      if Hyphenated(ids[0]) then [id[..IndexOf(id, '-')]] else [id] + ReadIds(ids[1..])
  }

  function BeforeHyphen(s: string): string { Split(s, '-')[0] }

  lemma BeforeHyphenOfConcat(a: string, b: string)
    ensures BeforeHyphen(a + b) == if '-' in a then BeforeHyphen(a) else a + BeforeHyphen(b)
  {
    hide Split;
    var i := IndexOf(a, '-');
    if i >= 0 {
      assert a == a[..i] + ['-'] + a[i + 1..];
      assert a + b == a[..i] + ['-'] + (a[i + 1..] + b);
      SplitAtSeparator(a[..i], '-', a[i + 1..]);
      SplitAtSeparator(a[..i], '-', a[i + 1..] + b);
    } else {
      SplitOfConcat(a, b, '-');
      SplitWithoutSeparator(a, '-');
      GlueOntoOne(a, Split(b, '-'));
    }
  }

  lemma BeforeHyphenIs(s: string)
    ensures BeforeHyphen(s) == if '-' in s then s[..IndexOf(s, '-')] else s
  {
    hide Split;
    var i := IndexOf(s, '-');
    if i >= 0 {
      assert s == s[..i] + ['-'] + s[i + 1..];
      SplitAtSeparator(s[..i], '-', s[i + 1..]);
    } else {
      SplitWithoutSeparator(s, '-');
    }
  }

  lemma {:induction false} ReadUpToHyphen(ids: seq<Identifier>)
    requires ids != []
    ensures BeforeHyphen(FormatPre(ids)) == Join(ReadIds(ids), '.')
  {
    hide BeforeHyphen, FormatPre, ReadIds, Join, FormatIdentifier;
    var id := FormatIdentifier(ids[0]);
    BeforeHyphenIs(id);
    JoinsStep(ids);
    if |ids| > 1 {
      ReadUpToHyphen(ids[1..]);
      BeforeHyphenOfConcat(id, "." + FormatPre(ids[1..]));
      BeforeHyphenOfConcat(".", FormatPre(ids[1..]));
    }
  }

  lemma JoinsStep(ids: seq<Identifier>)
    requires ids != []
    ensures var id, rest := FormatIdentifier(ids[0]), ids[1..];
            && ('-' in id <==> Hyphenated(ids[0]))
            && FormatPre(ids) == (if rest == [] then id else id + ("." + FormatPre(rest)))
            && Join(ReadIds(ids), '.') ==
               (if Hyphenated(ids[0]) then id[..IndexOf(id, '-')]
                else if rest == [] then id else id + ("." + Join(ReadIds(rest), '.')))
  {
    hide Decimal, Join, IndexOf;
    var id, rest := FormatIdentifier(ids[0]), ids[1..];
    FormatAllStep(ids);
    JoinCons(id, FormatAll(rest));
    if Hyphenated(ids[0]) {
      JoinCons(id[..IndexOf(id, '-')], []);
      assert [id[..IndexOf(id, '-')]] + [] == ReadIds(ids);
    } else {
      assert '-' !in id;
      JoinCons(id, ReadIds(rest));
    }
  }

  lemma FormatAllStep(ids: seq<Identifier>)
    requires ids != []
    ensures FormatAll(ids) == [FormatIdentifier(ids[0])] + FormatAll(ids[1..])
  {}

  lemma JoinCons(x: string, rest: seq<string>)
    ensures Join([x] + rest, '.') == if rest == [] then x else x + ("." + Join(rest, '.'))
  {
    assert ([x] + rest)[1..] == rest;
    assert x + ['.'] + Join(rest, '.') == x + ("." + Join(rest, '.'));
  }

  /** A written version is read up to the first hyphen of its prerelease. */
  lemma ParseOfHyphenated(v: SemVer)
    requires WellFormed(v) && v.pre != []
    ensures Parse(Format(v)) == Parsed([v.major as int, v.minor as int, v.patch as int], Join(ReadIds(v.pre), '.'))
  {
    hide Split, FormatCore, FormatPre, Trimmed, WellFormedIdentifier, ReadIds;
    CoreReadsBack(v);
    FormatPreIsPlain(v.pre);
    var tail := "-" + FormatPre(v.pre);
    assert Format(v) == FormatCore(v) + tail && tail[1..] == FormatPre(v.pre);
    HyphenTailIsTrimmed(FormatPre(v.pre));
    ParseWithTail(FormatCore(v), tail);
    ReadUpToHyphen(v.pre);
  }

  lemma HyphenTailIsTrimmed(s: string)
    requires Trimmed(s)
    ensures Trimmed("-" + s)
  {
    var t := "-" + s;
    assert s != "" ==> t[|t| - 1] == s[|s| - 1];
  }

  ghost predicate FirstHyphenated(ids: seq<Identifier>, k: nat) {
    && k < |ids| && Hyphenated(ids[k])
    && forall j | 0 <= j < k :: !Hyphenated(ids[j])
  }

  /** The first hyphen, if there is one, opens an identifier that is not the first. */
  ghost predicate HyphenHarmless(ids: seq<Identifier>) {
    forall k: nat | FirstHyphenated(ids, k) :: k > 0 && ids[k].s[0] == '-'
  }

  lemma FirstHyphenatedShifts(ids: seq<Identifier>, k: nat)
    requires ids != [] && !Hyphenated(ids[0])
    ensures FirstHyphenated(ids, k + 1) <==> FirstHyphenated(ids[1..], k)
  {
    assert forall j | 0 <= j < k && j + 1 < |ids| :: ids[1..][j] == ids[j + 1];
    if FirstHyphenated(ids[1..], k) {
      assert forall j | 0 < j <= k :: ids[j] == ids[1..][j - 1];
    }
  }

  /** An opening hyphen reads as the empty identifier, which ranks where section 11 puts the whole identifier. */
  lemma {:induction false} HarmlessListsAgree(x: seq<Identifier>, y: seq<Identifier>, k: nat)
    requires forall i | 0 <= i < |x| :: WellFormedIdentifier(x[i])
    requires forall i | 0 <= i < |y| :: WellFormedIdentifier(y[i]) && !Hyphenated(y[i])
    requires FirstHyphenated(x, k) && x[k].s[0] == '-'
    ensures var c := CompareIdentifiers(ReadIds(x), FormatAll(y));
            (c < 0 <==> exists d :: DiffersAt(x, y, d)) && c != 0
  {
    hide CompareIdentifier, WellFormedIdentifier;
    if y == [] {
    } else if k == 0 {
      assert ReadIds(x) == [""] by { OpeningHyphen(x[0].s); }
      OpeningHyphenRanks(x[0], y[0]);
      if IdentifierPrecedes(x[0], y[0]) {
        assert DiffersAt(x, y, 0);
      }
      assert forall d | d > 0 && DiffersAt(x, y, d) :: x[..d][0] == y[..d][0];
    } else {
      FirstHyphenatedShifts(x, k - 1);
      HarmlessListsAgree(x[1..], y[1..], k - 1);
      IdentifiersAgree(x[0], y[0]);
      assert ReadIds(x)[1..] == ReadIds(x[1..]);
      assert FormatAll(y)[1..] == FormatAll(y[1..]);
      if x[0] != y[0] {
        assert IdentifierPrecedes(x[0], y[0]) ==> DiffersAt(x, y, 0);
        assert forall d | d > 0 && DiffersAt(x, y, d) :: x[..d][0] == y[..d][0];
      } else {
        IdentifiersAgree(x[0], x[0]);
        DifferenceShifts(x, y);
      }
    }
  }

  lemma OpeningHyphen(s: string)
    requires s != "" && s[0] == '-'
    ensures s[..IndexOf(s, '-')] == ""
  {}

  lemma OpeningHyphenRanks(x: Identifier, y: Identifier)
    requires x.Alphanumeric? && x.s != "" && x.s[0] == '-' && WellFormedIdentifier(y) && !Hyphenated(y)
    ensures var c := CompareIdentifier("", FormatIdentifier(y));
            c != 0 && (c < 0 <==> IdentifierPrecedes(x, y)) && x != y
  {
    hide Decimal, NumberOf;
    if y.Alphanumeric? {
      assert y.s[0] != '-' && IsAlnum(y.s[0]);
    }
  }

  /** With a harmless hyphen a version agrees with section 11 against every version without hyphens. */
  lemma HarmlessAgrees(v: SemVer, w: SemVer)
    requires WellFormed(v) && HyphenHarmless(v.pre) && WellFormed(w) && HyphenFree(w)
    ensures Agree(v, w)
  {
    if HyphenFree(v) {
      CompareIsPrecedence(v, w);
    } else {
      var k := FirstHyphen(v.pre);
      hide Parse, Format, FormatPre, Split, CompareIdentifiers, DiffersAt, ReadIds, WellFormedIdentifier, Hyphenated;
      ParseOfHyphenated(v);
      ReadIdsSplit(v.pre);
      ReadIdsNotEmpty(v.pre, k);
      ParseOfFormat(w);
      EmptyPre();
      HarmlessListsAgree(v.pre, w.pre, k);
      CoresAgree(v.major, v.minor, v.patch, w.major, w.minor, w.patch);
      assert v != w;
    }
  }

  lemma {:induction false} FirstHyphen(ids: seq<Identifier>) returns (k: nat)
    requires exists i | 0 <= i < |ids| :: Hyphenated(ids[i])
    ensures FirstHyphenated(ids, k)
  {
    k := 0;
    if !Hyphenated(ids[0]) {
      var i :| 0 <= i < |ids| && Hyphenated(ids[i]);
      assert ids[1..][i - 1] == ids[i];
      k := FirstHyphen(ids[1..]);
      FirstHyphenatedShifts(ids, k);
      k := k + 1;
    }
  }

  lemma {:induction false} ReadIdsHaveNoDot(ids: seq<Identifier>)
    requires forall i | 0 <= i < |ids| :: WellFormedIdentifier(ids[i])
    ensures forall k | 0 <= k < |ReadIds(ids)| :: '.' !in ReadIds(ids)[k]
  {
    if ids != [] {
      ReadIdsHaveNoDot(ids[1..]);
      assert WellFormedIdentifier(ids[0]);
    }
  }

  lemma ReadIdsSplit(ids: seq<Identifier>)
    requires ids != [] && forall i | 0 <= i < |ids| :: WellFormedIdentifier(ids[i])
    ensures Split(Join(ReadIds(ids), '.'), '.') == ReadIds(ids)
  {
    hide ReadIds, Split, WellFormedIdentifier;
    ReadIdsHaveNoDot(ids);
    SplitOfJoin(ReadIds(ids), '.');
  }

  /** The text read is empty only when a hyphen opens the prerelease. */
  lemma ReadIdsNotEmpty(ids: seq<Identifier>, k: nat)
    requires FirstHyphenated(ids, k) && forall i | 0 <= i < |ids| :: WellFormedIdentifier(ids[i])
    ensures Join(ReadIds(ids), '.') == "" <==> k == 0 && ids[0].s[0] == '-'
  {
    hide Decimal;
    if k == 0 {
      var s := ids[0].s;
      assert s[..IndexOf(s, '-')] == "" <==> s[0] == '-';
    } else {
      assert WellFormedIdentifier(ids[0]);
      assert FormatIdentifier(ids[0]) != "";
      assert |Join(ReadIds(ids), '.')| >= |ReadIds(ids)[0]|;
    }
  }

  /** The identifier a version without hyphens would have to carry to be read the same. */
  function Truncated(id: Identifier): Identifier
    requires id.Alphanumeric?
  {
    var f := id.s[..if '-' in id.s then IndexOf(id.s, '-') else |id.s|];
    if AllDigits(f) then Numeric(NumberOf(f)) else Alphanumeric(f)
  }

  /** Against its own truncation a version ties although section 11 distinguishes the two. */
  lemma {:induction false} TruncationTies(ids: seq<Identifier>, k: nat)
    requires forall i | 0 <= i < |ids| :: WellFormedIdentifier(ids[i])
    requires FirstHyphenated(ids, k) && ids[k].s[0] != '-'
    ensures var cut := ids[..k] + [Truncated(ids[k])];
            && CompareIdentifiers(ReadIds(ids), FormatAll(cut)) == 0
            && forall i | 0 <= i < |cut| :: WellFormedIdentifier(cut[i]) && !Hyphenated(cut[i])
  {
    hide CompareIdentifier, WellFormedIdentifier;
    var cut := ids[..k] + [Truncated(ids[k])];
    TruncatedIs(ids[k]);
    if k == 0 {
      assert ReadIds(ids) == [ids[0].s[..IndexOf(ids[0].s, '-')]];
      assert FormatAll(cut) == [FormatIdentifier(Truncated(ids[0]))];
    } else {
      FirstHyphenatedShifts(ids, k - 1);
      TruncationTies(ids[1..], k - 1);
      assert ids[1..][..k - 1] == ids[..k][1..];
      assert cut[1..] == ids[1..][..k - 1] + [Truncated(ids[k])];
      assert FormatAll(cut)[1..] == FormatAll(cut[1..]);
      assert ReadIds(ids)[1..] == ReadIds(ids[1..]);
      IdentifiersAgree(ids[0], ids[0]);
      assert forall i | 0 < i < |cut| :: cut[i] == cut[1..][i - 1];
    }
  }

  lemma TruncatedIs(id: Identifier)
    requires WellFormedIdentifier(id) && Hyphenated(id) && id.s[0] != '-'
    ensures WellFormedIdentifier(Truncated(id)) && !Hyphenated(Truncated(id))
    ensures CompareIdentifier(id.s[..IndexOf(id.s, '-')], FormatIdentifier(Truncated(id))) == 0
  {
    hide Decimal, NumberOf, Less;
    var f := id.s[..IndexOf(id.s, '-')];
    assert f != "" && '-' !in f;
    if AllDigits(f) {
      NumberOfDecimal(NumberOf(f));
    }
  }

  lemma HarmfulDisagrees(v: SemVer) returns (w: SemVer)
    requires WellFormed(v) && !HyphenHarmless(v.pre)
    ensures WellFormed(w) && HyphenFree(w) && !Agree(v, w)
  {
    var k: nat :| FirstHyphenated(v.pre, k) && !(k > 0 && v.pre[k].s[0] == '-');
    hide Parse, Format, FormatPre, Split, CompareIdentifiers, ReadIds, WellFormedIdentifier;
    ParseOfHyphenated(v);
    ReadIdsSplit(v.pre);
    ReadIdsNotEmpty(v.pre, k);
    EmptyPre();
    if v.pre[k].s[0] == '-' {
      w := v.(pre := []);
    } else {
      TruncationTies(v.pre, k);
      w := v.(pre := v.pre[..k] + [Truncated(v.pre[k])]);
    }
    ParseOfFormat(w);
    assert v != w by { assert Hyphenated(v.pre[k]); }
    CoresAgree(v.major, v.minor, v.patch, w.major, w.minor, w.patch);
  }

  /**
   * A version agrees with section 11 against every version without inner hyphens exactly when its own first inner
   * hyphen is absent, or opens an identifier other than the first.
   */
  lemma HyphenAgreementExactly(v: SemVer)
    requires WellFormed(v)
    ensures (forall w | WellFormed(w) && HyphenFree(w) :: Agree(v, w)) <==> HyphenHarmless(v.pre)
  {
    hide Agree, WellFormed, HyphenFree, HyphenHarmless;
    if HyphenHarmless(v.pre) {
      forall w | WellFormed(w) && HyphenFree(w)
        ensures Agree(v, w)
      {
        HarmlessAgrees(v, w);
      }
    } else {
      var w := HarmfulDisagrees(v);
    }
  }

  /** `1.0.0-a-b` and `1.0.0-a-c` rank equal although section 11 orders them. */
  lemma InnerHyphensTie()
    ensures var v := SemVer(1, 0, 0, [Alphanumeric("a-b")]);
            var w := SemVer(1, 0, 0, [Alphanumeric("a-c")]);
            && WellFormed(v) && WellFormed(w)
            && Format(v) == FormatCore(v) + "-a-b" && Format(w) == FormatCore(v) + "-a-c"
            && Precedes(v, w) && Compare(Format(v), Format(w)) == 0
  {
    var v, w := SemVer(1, 0, 0, [Alphanumeric("a-b")]), SemVer(1, 0, 0, [Alphanumeric("a-c")]);
    InnerHyphenSamples();
    assert DiffersAt(v.pre, w.pre, 0);
    hide Compare, FormatCore, Less, WellFormedIdentifier, FormatPre;
    SameCore(v, w);
    TextsTie(FormatCore(v), v);
  }

  lemma TextsTie(core: string, v: SemVer)
    requires core == FormatCore(v)
    ensures core + "-" + "a-b" == core + "-a-b" && core + "-" + "a-c" == core + "-a-c"
    ensures Compare(core + "-a-b", core + "-a-c") == 0
  {
    hide Compare, FormatCore;
    CoreReadsBack(v);
    assert Trimmed("b") && Trimmed("c");
    assert core + "-" + "a" + "-" + "b" == core + "-a-b";
    assert core + "-" + "a" + "-" + "c" == core + "-a-c";
    SecondHyphenIsIgnored(core, "a", "b", "c");
  }

  lemma InnerHyphenSamples()
    ensures FormatPre([Alphanumeric("a-b")]) == "a-b" && FormatPre([Alphanumeric("a-c")]) == "a-c"
    ensures WellFormedIdentifier(Alphanumeric("a-b")) && WellFormedIdentifier(Alphanumeric("a-c"))
    ensures Less("a-b", "a-c") && Trimmed("b") && Trimmed("c")
  {
    assert "a-b"[1..] == "-b" && "a-c"[1..] == "-c" && "-b"[1..] == "b" && "-c"[1..] == "c";
    assert Less("b", "c");
    assert Less("-b", "-c");
    assert !IsDigit("a-b"[0]) && !IsDigit("a-c"[0]);
  }

  lemma SameCore(v: SemVer, w: SemVer)
    requires v.major == w.major && v.minor == w.minor && v.patch == w.patch
    ensures FormatCore(v) == FormatCore(w)
  {}

  /** The tie at the level of text: whatever follows a second hyphen is dropped. */
  lemma SecondHyphenIsIgnored(core: string, pre: string, x: string, y: string)
    requires core != "" && IsDigit(core[0]) && '-' !in core && '-' !in pre
    requires x != "" && Trimmed(x) && y != "" && Trimmed(y)
    ensures Compare(core + "-" + pre + "-" + x, core + "-" + pre + "-" + y) == 0
  {
    hide CompareNumbers, ComparePrerelease;
    ParseBeforeSecondHyphen(core, pre, x);
    ParseBeforeSecondHyphen(core, pre, y);
    CompareReflexive(core + "-" + pre + "-" + x);
  }

  lemma ParseBeforeSecondHyphen(core: string, pre: string, x: string)
    requires core != "" && IsDigit(core[0]) && '-' !in core && '-' !in pre
    requires x != "" && Trimmed(x)
    ensures Parse(core + "-" + pre + "-" + x) == Parsed(ParseNumbers(Split(core, '.')), pre)
  {
    hide Trim, TrimLeft, TrimRight, Split, IsSpace;
    var v := core + "-" + pre + "-" + x;
    assert v == core + ['-'] + (pre + ['-'] + x);
    assert v[0] == core[0] && v[|v| - 1] == x[|x| - 1];
    assert !IsSpace(core[0]) by { DigitIsNotSpace(core[0]); }
    TrimOfTrimmed(v);
    SplitAtSeparator(core, '-', pre + ['-'] + x);
    SplitAtSeparator(pre, '-', x);
  }
}
