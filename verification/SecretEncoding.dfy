/** The secret encoders of `packages/shared/src/param-validate.ts` and the decoders of RFC 4648. */
module SecretEncoding {
  import opened Text

  type Bytes = seq<bv8>

  const UPPER := "ABCDEFGHIJKLMNOPQRSTUVWXYZ"
  const LOWER := "abcdefghijklmnopqrstuvwxyz"
  const BASE64_CHARS := UPPER + LOWER + "0123456789" + "+/"

  // ---------------------------------------------------------------------------
  // The encoders
  // ---------------------------------------------------------------------------

  /** `BASE64_CHARS[x]`. */
  function CharAt(x: bv8): char
    requires x < 64
  {
    CharsAre64();
    BASE64_CHARS[x as int]
  }

  lemma CharsAre64()
    ensures |BASE64_CHARS| == 64
  {}

  /** The four characters of one group; an absent byte is `None`. */
  function EncodeGroup(b0: bv8, b1: Option<bv8>, b2: Option<bv8>): (q: string)
    ensures |q| == 4
  {
    [ CharAt(b0 >> 2),
      CharAt(((b0 & 0x03) << 4) | (if b1.None? then 0 else b1.value >> 4)),
      if b1.None? then '=' else CharAt(((b1.value & 0x0f) << 2) | (if b2.None? then 0 else b2.value >> 6)),
      if b2.None? then '=' else CharAt(b2.value & 0x3f) ]
  }

  function At(bytes: Bytes, i: nat): Option<bv8> {
    if i < |bytes| then Some(bytes[i]) else None
  }

  /** Group by group from the front. */
  function Base64(bytes: Bytes): string
    decreases |bytes|
  {
    if bytes == [] then "" else EncodeGroup(bytes[0], At(bytes, 1), At(bytes, 2)) + Base64(Drop(bytes, 3))
  }

  lemma Base64Step(bytes: Bytes, i: nat)
    requires i < |bytes|
    ensures Base64(Drop(bytes, i)) ==
            EncodeGroup(bytes[i], At(bytes, i + 1), At(bytes, i + 2)) + Base64(Drop(bytes, i + 3))
  {
    hide EncodeGroup;
    var rest := bytes[i..];
    assert Drop(bytes, i) == rest;
    assert At(rest, 1) == At(bytes, i + 1) && At(rest, 2) == At(bytes, i + 2);
    assert Drop(rest, 3) == Drop(bytes, i + 3);
  }

  method BytesToBase64(bytes: Bytes) returns (out: string)
    ensures out == Base64(bytes)
  {
    hide CharAt, Base64;
    out := "";
    var i := 0;
    assert Drop(bytes, 0) == bytes;
    assert "" + Base64(bytes) == Base64(bytes);
    while i < |bytes|
      invariant out + Base64(Drop(bytes, i)) == Base64(bytes)
    {
      var b0, b1, b2 := bytes[i], At(bytes, i + 1), At(bytes, i + 2);
      ghost var before := out;
      Base64Step(bytes, i);
      out := out + [CharAt(b0 >> 2)];
      out := out + [CharAt(((b0 & 0x03) << 4) | (if b1.None? then 0 else b1.value >> 4))];
      out := out + [if b1.None? then '='
                    else CharAt(((b1.value & 0x0f) << 2) | (if b2.None? then 0 else b2.value >> 6))];
      out := out + [if b2.None? then '=' else CharAt(b2.value & 0x3f)];
      assert out == before + EncodeGroup(b0, b1, b2);
      assert out + Base64(Drop(bytes, i + 3)) == before + (EncodeGroup(b0, b1, b2) + Base64(Drop(bytes, i + 3)));
      i := i + 3;
    }
    assert Drop(bytes, i) == [];
    EmptyEncodes();
  }

  lemma EmptyEncodes()
    ensures Base64([]) == ""
  {}

  /** `replace(/a/g, b)` for single characters. */
  function ReplaceAll(s: string, a: char, b: char): (r: string)
    ensures |r| == |s|
    ensures forall i | 0 <= i < |s| :: r[i] == if s[i] == a then b else s[i]
  {
    if s == "" then "" else [if s[0] == a then b else s[0]] + ReplaceAll(s[1..], a, b)
  }

  /** `replace(/=+$/, '')`. */
  function StripPadding(s: string): string {
    if s != "" && s[|s| - 1] == '=' then StripPadding(s[..|s| - 1]) else s
  }

  function Base64UrlPadded(bytes: Bytes): string {
    ReplaceAll(ReplaceAll(Base64(bytes), '+', '-'), '/', '_')
  }

  function Base64Url(bytes: Bytes): string {
    StripPadding(Base64UrlPadded(bytes))
  }

  // ---------------------------------------------------------------------------
  // The decoders of RFC 4648
  // ---------------------------------------------------------------------------

  /** Table 1 of section 4 and Table 2 of section 5 differ in their last two characters. */
  datatype Alphabet = Standard | UrlSafe {
    const c62 := if this == Standard then '+' else '-'
    const c63 := if this == Standard then '/' else '_'
  }

  function SextetNumber(c: char, alphabet: Alphabet): (r: Option<nat>)
    ensures r.Some? ==> r.value < 64
  {
    if 'A' <= c <= 'Z' then Some(c as int - 'A' as int)
    else if 'a' <= c <= 'z' then Some(c as int - 'a' as int + 26)
    else if '0' <= c <= '9' then Some(c as int - '0' as int + 52)
    else if c == alphabet.c62 then Some(62)
    else if c == alphabet.c63 then Some(63)
    else None
  }

  function SextetOf(c: char, alphabet: Alphabet): Option<bv8> {
    var n := SextetNumber(c, alphabet);
    if n.None? then None else Some(n.value as bv8)
  }

  /** Four sextets concatenated into a 24-bit group. */
  function Group(s0: bv8, s1: bv8, s2: bv8, s3: bv8): bv24 {
    ((s0 as bv24) << 18) | ((s1 as bv24) << 12) | ((s2 as bv24) << 6) | (s3 as bv24)
  }

  function Octet0(g: bv24): bv8 { ((g >> 16) & 0xff) as bv8 }
  function Octet1(g: bv24): bv8 { ((g >> 8) & 0xff) as bv8 }
  function Octet2(g: bv24): bv8 { (g & 0xff) as bv8 }

  /** A full quantum, or a padded one whose unused bits are zero (section 3.5). */
  function DecodeQuantum(q: string, last: bool, alphabet: Alphabet): Option<Bytes>
    requires |q| == 4
  {
    var s0, s1 := SextetOf(q[0], alphabet), SextetOf(q[1], alphabet);
    var s2, s3 := SextetOf(q[2], alphabet), SextetOf(q[3], alphabet);
    if s0.None? || s1.None? then None
    else if last && q[2] == '=' && q[3] == '=' then
      var g := Group(s0.value, s1.value, 0, 0);
      if g & 0xffff == 0 then Some([Octet0(g)]) else None
    else if s2.None? then None
    else if last && q[3] == '=' then
      var g := Group(s0.value, s1.value, s2.value, 0);
      if g & 0xff == 0 then Some([Octet0(g), Octet1(g)]) else None
    else if s3.None? then None
    else
      var g := Group(s0.value, s1.value, s2.value, s3.value);
      Some([Octet0(g), Octet1(g), Octet2(g)])
  }

  /** Quantum by quantum; padding is only meaningful in the last one. */
  function Decode(s: string, alphabet: Alphabet): Option<Bytes> {
    if s == "" then Some([])
    else if |s| < 4 then None
    else
      var head := DecodeQuantum(s[..4], |s| == 4, alphabet);
      var tail := Decode(s[4..], alphabet);
      if head.Some? && tail.Some? then Some(head.value + tail.value) else None
  }

  /** Section 5 allows the padding to be left out when the length is known; put it back and decode. */
  function DecodeUnpadded(s: string, alphabet: Alphabet): Option<Bytes> {
    Decode(s + Pads((4 - |s| % 4) % 4), alphabet)
  }

  function Pads(n: nat): (r: string)
    ensures |r| == n && forall i | 0 <= i < n :: r[i] == '='
  {
    seq(n, _ => '=')
  }

  // ---------------------------------------------------------------------------
  // One group
  // ---------------------------------------------------------------------------

  /** The character code of a sextet in Table 1. */
  function CodeOf(k: nat): int
    requires k < 64
  {
    if k < 26 then 'A' as int + k
    else if k < 52 then 'a' as int + (k - 26)
    else if k < 62 then '0' as int + (k - 52)
    else if k == 62 then '+' as int
    else '/' as int
  }

  lemma CharsAreTable1(k: nat)
    requires k < 64
    ensures |BASE64_CHARS| == 64 && BASE64_CHARS[k] as int == CodeOf(k)
  {}

  /** The character an encoder with this alphabet emits for a sextet. */
  function CharOf(x: bv8, alphabet: Alphabet): char
    requires x < 64
  {
    if x == 62 then alphabet.c62 else if x == 63 then alphabet.c63 else CharAt(x)
  }

  lemma CodeRoundTrip(k: nat, alphabet: Alphabet)
    requires k < 62
    ensures SextetNumber(BASE64_CHARS[k], alphabet) == Some(k)
  {
    CharsAreTable1(k);
  }

  lemma NumberRoundTrip(c: char, alphabet: Alphabet)
    requires SextetNumber(c, alphabet).Some?
    ensures var k := SextetNumber(c, alphabet).value;
            c == if k == 62 then alphabet.c62 else if k == 63 then alphabet.c63 else BASE64_CHARS[k]
    ensures c != '='
  {
    CharsAreTable1(SextetNumber(c, alphabet).value);
  }

  lemma SextetRoundTrip(x: bv8, alphabet: Alphabet)
    requires x < 64
    ensures SextetOf(CharOf(x, alphabet), alphabet) == Some(x)
    ensures CharOf(x, alphabet) != '='
  {
    hide SextetNumber, BASE64_CHARS;
    if x < 62 {
      CodeRoundTrip(x as int, alphabet);
      NumberRoundTrip(CharOf(x, alphabet), alphabet);
    } else {
      LastTwo(alphabet);
    }
  }

  lemma LastTwo(alphabet: Alphabet)
    ensures SextetNumber(alphabet.c62, alphabet) == Some(62) && SextetNumber(alphabet.c63, alphabet) == Some(63)
    ensures alphabet.c62 != '=' && alphabet.c63 != '='
  {}

  lemma CharRoundTrip(c: char, alphabet: Alphabet)
    requires SextetOf(c, alphabet).Some?
    ensures SextetOf(c, alphabet).value < 64 && CharOf(SextetOf(c, alphabet).value, alphabet) == c && c != '='
  {
    hide SextetNumber, BASE64_CHARS;
    NumberRoundTrip(c, alphabet);
    var k := SextetNumber(c, alphabet).value;
    assert (k as bv8) as int == k;
  }

  /** Section 4: three octets concatenated into a 24-bit quantum, absent ones as zero bits. */
  function Quantum(a: bv8, b: bv8, c: bv8): bv24 {
    ((a as bv24) << 16) | ((b as bv24) << 8) | (c as bv24)
  }

  /** The four sextets of a quantum, the first one highest. */
  function Sextet0(g: bv24): bv8 { ((g >> 18) & 0x3f) as bv8 }
  function Sextet1(g: bv24): bv8 { ((g >> 12) & 0x3f) as bv8 }
  function Sextet2(g: bv24): bv8 { ((g >> 6) & 0x3f) as bv8 }
  function Sextet3(g: bv24): bv8 { (g & 0x3f) as bv8 }

  function OrZero(b: Option<bv8>): bv8 { if b.None? then 0 else b.value }

  /** One group, in either alphabet: its sextets in order, a pad for each one that has no octet behind it. */
  function GroupChars(b0: bv8, b1: Option<bv8>, b2: Option<bv8>, alphabet: Alphabet): (q: string)
    ensures |q| == 4
  {
    var g := Quantum(b0, OrZero(b1), OrZero(b2));
    SextetsAreSmall(g);
    [ CharOf(Sextet0(g), alphabet), CharOf(Sextet1(g), alphabet),
      if b1.None? then '=' else CharOf(Sextet2(g), alphabet),
      if b2.None? then '=' else CharOf(Sextet3(g), alphabet) ]
  }

  lemma SextetsAreSmall(g: bv24)
    ensures Sextet0(g) < 64 && Sextet1(g) < 64 && Sextet2(g) < 64 && Sextet3(g) < 64
  {}

  /** The shifts and masks of the source pick the sextets of the quantum. */
  lemma ShiftsPickSextets(a: bv8, b: bv8, c: bv8)
    ensures var g := Quantum(a, b, c);
            && Sextet0(g) == a >> 2 && Sextet1(g) == ((a & 0x03) << 4) | (b >> 4)
            && Sextet2(g) == ((b & 0x0f) << 2) | (c >> 6) && Sextet3(g) == c & 0x3f
  {}

  lemma GroupByShifts(b0: bv8, b1: Option<bv8>, b2: Option<bv8>, alphabet: Alphabet)
    requires b1.None? ==> b2.None?
    ensures GroupChars(b0, b1, b2, alphabet) ==
            [ CharOf(b0 >> 2, alphabet),
              CharOf(((b0 & 0x03) << 4) | (if b1.None? then 0 else b1.value >> 4), alphabet),
              if b1.None? then '='
              else CharOf(((b1.value & 0x0f) << 2) | (if b2.None? then 0 else b2.value >> 6), alphabet),
              if b2.None? then '=' else CharOf(b2.value & 0x3f, alphabet) ]
  {
    hide CharOf, Quantum, Sextet0, Sextet1, Sextet2, Sextet3, OrZero;
    ShiftsPickSextets(b0, OrZero(b1), OrZero(b2));
    ShiftOfAbsent(b1);
    ShiftOfAbsent(b2);
  }

  lemma ShiftOfAbsent(b: Option<bv8>)
    ensures OrZero(b) >> 4 == if b.None? then 0 else b.value >> 4
    ensures OrZero(b) >> 6 == if b.None? then 0 else b.value >> 6
    ensures b.Some? ==> OrZero(b) == b.value
  {}

  lemma GroupBits(a: bv8, b: bv8, c: bv8)
    ensures var g := Group(a >> 2, ((a & 0x03) << 4) | (b >> 4), ((b & 0x0f) << 2) | (c >> 6), c & 0x3f);
            Octet0(g) == a && Octet1(g) == b && Octet2(g) == c
    ensures var g := Group(a >> 2, ((a & 0x03) << 4) | (b >> 4), (b & 0x0f) << 2, 0);
            Octet0(g) == a && Octet1(g) == b && g & 0xff == 0
    ensures var g := Group(a >> 2, (a & 0x03) << 4, 0, 0);
            Octet0(g) == a && g & 0xffff == 0
  {}

  lemma SextetBits(s0: bv8, s1: bv8, s2: bv8, s3: bv8)
    requires s0 < 64 && s1 < 64 && s2 < 64 && s3 < 64
    ensures var g := Group(s0, s1, s2, s3);
            var a, b, c := Octet0(g), Octet1(g), Octet2(g);
            && a >> 2 == s0 && ((a & 0x03) << 4) | (b >> 4) == s1
            && ((b & 0x0f) << 2) | (c >> 6) == s2 && c & 0x3f == s3
            && (g & 0xff == 0 ==> (b & 0x0f) << 2 == s2 && s3 == 0)
            && (g & 0xffff == 0 ==> (a & 0x03) << 4 == s1)
  {}

  /** The bytes of a group. */
  function GroupBytes(b0: bv8, b1: Option<bv8>, b2: Option<bv8>): Bytes {
    if b1.None? then [b0] else if b2.None? then [b0, b1.value] else [b0, b1.value, b2.value]
  }

  lemma DecodeOfSextets(s0: bv8, s1: bv8, s2: bv8, s3: bv8, last: bool, alphabet: Alphabet)
    requires s0 < 64 && s1 < 64 && s2 < 64 && s3 < 64
    ensures var q := [CharOf(s0, alphabet), CharOf(s1, alphabet), CharOf(s2, alphabet), CharOf(s3, alphabet)];
            var g := Group(s0, s1, s2, s3);
            DecodeQuantum(q, last, alphabet) == Some([Octet0(g), Octet1(g), Octet2(g)])
  {
    hide SextetOf, CharOf, Group, Octet0, Octet1, Octet2;
    SextetRoundTrip(s0, alphabet);
    SextetRoundTrip(s1, alphabet);
    SextetRoundTrip(s2, alphabet);
    SextetRoundTrip(s3, alphabet);
  }

  lemma FullQuantum(a: bv8, b: bv8, c: bv8, last: bool, alphabet: Alphabet)
    ensures DecodeQuantum(GroupChars(a, Some(b), Some(c), alphabet), last, alphabet) == Some([a, b, c])
  {
    hide DecodeQuantum, CharOf, Group, Octet0, Octet1, Octet2, GroupChars;
    GroupByShifts(a, Some(b), Some(c), alphabet);
    GroupBits(a, b, c);
    DecodeOfSextets(a >> 2, ((a & 0x03) << 4) | (b >> 4), ((b & 0x0f) << 2) | (c >> 6), c & 0x3f, last, alphabet);
  }

  lemma TwoByteQuantum(a: bv8, b: bv8, alphabet: Alphabet)
    ensures DecodeQuantum(GroupChars(a, Some(b), None, alphabet), true, alphabet) == Some([a, b])
  {
    hide SextetOf, CharOf, Group, Octet0, Octet1, Octet2, GroupChars;
    GroupByShifts(a, Some(b), None, alphabet);
    GroupBits(a, b, 0);
    assert ((b & 0x0f) << 2) | 0 == (b & 0x0f) << 2;
    SextetRoundTrip(a >> 2, alphabet);
    SextetRoundTrip(((a & 0x03) << 4) | (b >> 4), alphabet);
    SextetRoundTrip((b & 0x0f) << 2, alphabet);
  }

  lemma OneByteQuantum(a: bv8, alphabet: Alphabet)
    ensures DecodeQuantum(GroupChars(a, None, None, alphabet), true, alphabet) == Some([a])
  {
    hide SextetOf, CharOf, Group, Octet0, Octet1, Octet2, GroupChars;
    GroupByShifts(a, None, None, alphabet);
    GroupBits(a, 0, 0);
    assert ((a & 0x03) << 4) | 0 == (a & 0x03) << 4;
    SextetRoundTrip(a >> 2, alphabet);
    SextetRoundTrip((a & 0x03) << 4, alphabet);
  }

  lemma QuantumOfGroup(b0: bv8, b1: Option<bv8>, b2: Option<bv8>, last: bool, alphabet: Alphabet)
    requires b1.None? ==> b2.None?
    requires b2.None? ==> last
    ensures DecodeQuantum(GroupChars(b0, b1, b2, alphabet), last, alphabet) == Some(GroupBytes(b0, b1, b2))
  {
    hide DecodeQuantum, GroupChars;
    if b1.None? { OneByteQuantum(b0, alphabet); }
    else if b2.None? { TwoByteQuantum(b0, b1.value, alphabet); }
    else { FullQuantum(b0, b1.value, b2.value, last, alphabet); }
  }

  // ---------------------------------------------------------------------------
  // Whole strings
  // ---------------------------------------------------------------------------

  function EncodeWith(bytes: Bytes, alphabet: Alphabet): string
    decreases |bytes|
  {
    if bytes == [] then ""
    else GroupChars(bytes[0], At(bytes, 1), At(bytes, 2), alphabet) + EncodeWith(Drop(bytes, 3), alphabet)
  }

  lemma {:induction false} StandardIsBase64(bytes: Bytes)
    ensures EncodeWith(bytes, Standard) == Base64(bytes)
    decreases |bytes|
  {
    if bytes != [] {
      StandardIsBase64(Drop(bytes, 3));
      GroupByShifts(bytes[0], At(bytes, 1), At(bytes, 2), Standard);
      TableEnds();
    }
  }

  lemma TableEnds()
    ensures |BASE64_CHARS| == 64 && BASE64_CHARS[62] == '+' && BASE64_CHARS[63] == '/'
  {
    CharsAreTable1(62);
    CharsAreTable1(63);
  }

  function UrlChar(c: char): char {
    if c == '+' then '-' else if c == '/' then '_' else c
  }

  lemma {:induction false} UrlIsUrlAlphabet(bytes: Bytes)
    ensures |EncodeWith(bytes, UrlSafe)| == |EncodeWith(bytes, Standard)|
    ensures forall i | 0 <= i < |EncodeWith(bytes, Standard)| ::
              EncodeWith(bytes, UrlSafe)[i] == UrlChar(EncodeWith(bytes, Standard)[i])
    decreases |bytes|
  {
    hide CharOf, UrlChar;
    if bytes != [] {
      UrlIsUrlAlphabet(Drop(bytes, 3));
      forall x: bv8 | x < 64
        ensures CharOf(x, UrlSafe) == UrlChar(CharOf(x, Standard))
      {
        UrlSextet(x);
      }
      assert UrlChar('=') == '=' by { UrlSextet(0); }
      var q, r := GroupChars(bytes[0], At(bytes, 1), At(bytes, 2), Standard), EncodeWith(Drop(bytes, 3), Standard);
      var q', r' := GroupChars(bytes[0], At(bytes, 1), At(bytes, 2), UrlSafe), EncodeWith(Drop(bytes, 3), UrlSafe);
      assert forall i | 0 <= i < 4 :: q'[i] == UrlChar(q[i]);
      assert forall i | 0 <= i < |q + r| :: (q' + r')[i] == UrlChar((q + r)[i]);
    }
  }

  lemma UrlSextet(x: bv8)
    requires x < 64
    ensures CharOf(x, UrlSafe) == UrlChar(CharOf(x, Standard)) && UrlChar('=') == '='
  {
    CharsAreTable1(x as int);
  }

  lemma UrlPaddedIsUrlAlphabet(bytes: Bytes)
    ensures Base64UrlPadded(bytes) == EncodeWith(bytes, UrlSafe)
  {
    StandardIsBase64(bytes);
    UrlIsUrlAlphabet(bytes);
  }

  /** Decoding undoes encoding, in either alphabet. */
  lemma {:induction false} DecodeOfEncode(bytes: Bytes, alphabet: Alphabet)
    ensures Decode(EncodeWith(bytes, alphabet), alphabet) == Some(bytes)
    decreases |bytes|
  {
    hide GroupChars, DecodeQuantum;
    if bytes != [] {
      var b1, b2 := At(bytes, 1), At(bytes, 2);
      QuantumOfGroup(bytes[0], b1, b2, |bytes| <= 3, alphabet);
      DecodeOfEncode(Drop(bytes, 3), alphabet);
      var q, rest := GroupChars(bytes[0], b1, b2, alphabet), EncodeWith(Drop(bytes, 3), alphabet);
      assert (q + rest)[..4] == q && (q + rest)[4..] == rest;
      assert bytes == GroupBytes(bytes[0], b1, b2) + Drop(bytes, 3);
      assert b2.None? ==> rest == "";
    }
  }

  lemma FullGroup(q: string, alphabet: Alphabet)
    requires |q| == 4 && forall i | 0 <= i < 4 :: SextetOf(q[i], alphabet).Some?
    ensures var g := Group(SextetOf(q[0], alphabet).value, SextetOf(q[1], alphabet).value,
                           SextetOf(q[2], alphabet).value, SextetOf(q[3], alphabet).value);
            GroupChars(Octet0(g), Some(Octet1(g)), Some(Octet2(g)), alphabet) == q
  {
    hide SextetOf, CharOf, Group, Octet0, Octet1, Octet2;
    CharRoundTrip(q[0], alphabet);
    CharRoundTrip(q[1], alphabet);
    CharRoundTrip(q[2], alphabet);
    CharRoundTrip(q[3], alphabet);
    SextetBits(SextetOf(q[0], alphabet).value, SextetOf(q[1], alphabet).value,
               SextetOf(q[2], alphabet).value, SextetOf(q[3], alphabet).value);
  }

  lemma TwoByteGroup(q: string, alphabet: Alphabet)
    requires |q| == 4 && q[3] == '=' && forall i | 0 <= i < 3 :: SextetOf(q[i], alphabet).Some?
    ensures var g := Group(SextetOf(q[0], alphabet).value, SextetOf(q[1], alphabet).value,
                           SextetOf(q[2], alphabet).value, 0);
            g & 0xff == 0 ==> GroupChars(Octet0(g), Some(Octet1(g)), None, alphabet) == q
  {
    hide SextetOf, CharOf, Group, Octet0, Octet1, Octet2;
    CharRoundTrip(q[0], alphabet);
    CharRoundTrip(q[1], alphabet);
    CharRoundTrip(q[2], alphabet);
    var s0, s1, s2 := SextetOf(q[0], alphabet).value, SextetOf(q[1], alphabet).value, SextetOf(q[2], alphabet).value;
    SextetBits(s0, s1, s2, 0);
    var b := Octet1(Group(s0, s1, s2, 0));
    assert ((b & 0x0f) << 2) | 0 == (b & 0x0f) << 2;
  }

  lemma OneByteGroup(q: string, alphabet: Alphabet)
    requires |q| == 4 && q[2] == '=' && q[3] == '='
    requires SextetOf(q[0], alphabet).Some? && SextetOf(q[1], alphabet).Some?
    ensures var g := Group(SextetOf(q[0], alphabet).value, SextetOf(q[1], alphabet).value, 0, 0);
            g & 0xffff == 0 ==> GroupChars(Octet0(g), None, None, alphabet) == q
  {
    hide SextetOf, CharOf, Group, Octet0, Octet1, Octet2;
    CharRoundTrip(q[0], alphabet);
    CharRoundTrip(q[1], alphabet);
    var s0, s1 := SextetOf(q[0], alphabet).value, SextetOf(q[1], alphabet).value;
    SextetBits(s0, s1, 0, 0);
    var a := Octet0(Group(s0, s1, 0, 0));
    assert ((a & 0x03) << 4) | 0 == (a & 0x03) << 4;
  }

  /** A quantum the decoder accepts is the encoding of the bytes it yields. */
  lemma GroupOfQuantum(q: string, last: bool, alphabet: Alphabet)
    requires |q| == 4 && DecodeQuantum(q, last, alphabet).Some?
    ensures var bytes := DecodeQuantum(q, last, alphabet).value;
            && 1 <= |bytes| <= 3 && (!last ==> |bytes| == 3)
            && GroupChars(bytes[0], At(bytes, 1), At(bytes, 2), alphabet) == q
  {
    hide SextetOf, GroupChars, Group, Octet0, Octet1, Octet2;
    if last && q[2] == '=' && q[3] == '=' {
      OneByteGroup(q, alphabet);
    } else if last && q[3] == '=' {
      TwoByteGroup(q, alphabet);
    } else {
      FullGroup(q, alphabet);
    }
  }

  /** The decoder accepts exactly the strings the encoder produces. */
  lemma {:induction false} DecodeExactly(s: string, bytes: Bytes, alphabet: Alphabet)
    ensures Decode(s, alphabet) == Some(bytes) <==> s == EncodeWith(bytes, alphabet)
    decreases |s|
  {
    hide GroupChars, DecodeQuantum;
    DecodeOfEncode(bytes, alphabet);
    if |s| >= 4 && Decode(s, alphabet) == Some(bytes) {
      GroupOfQuantum(s[..4], |s| == 4, alphabet);
      var head, tail := DecodeQuantum(s[..4], |s| == 4, alphabet).value, Decode(s[4..], alphabet).value;
      DecodeExactly(s[4..], tail, alphabet);
      assert bytes == head + tail;
      assert |s| == 4 ==> tail == [];
      assert Drop(bytes, 3) == tail;
      assert At(bytes, 1) == At(head, 1) && At(bytes, 2) == At(head, 2);
      assert s == s[..4] + s[4..];
    }
  }

  // ---------------------------------------------------------------------------
  // Padding
  // ---------------------------------------------------------------------------

  function PadCount(n: nat): nat { (3 - n % 3) % 3 }

  /** 4 * ceil(n / 3) characters, of which exactly the last (3 - n mod 3) mod 3 are `=`. */
  lemma {:induction false} PaddingShape(bytes: Bytes, alphabet: Alphabet)
    ensures var s := EncodeWith(bytes, alphabet);
            && |s| == 4 * ((|bytes| + 2) / 3)
            && forall i | 0 <= i < |s| :: s[i] == '=' <==> i >= |s| - PadCount(|bytes|)
    decreases |bytes|
  {
    hide GroupChars;
    if bytes != [] {
      var rest := Drop(bytes, 3);
      PaddingShape(rest, alphabet);
      var q, r := GroupChars(bytes[0], At(bytes, 1), At(bytes, 2), alphabet), EncodeWith(rest, alphabet);
      GroupPads(bytes[0], At(bytes, 1), At(bytes, 2), alphabet);
      var s := q + r;
      assert |bytes| > 3 ==> |rest| == |bytes| - 3 && PadCount(|rest|) == PadCount(|bytes|);
      forall i | 0 <= i < |s|
        ensures s[i] == '=' <==> i >= |s| - PadCount(|bytes|)
      {
        if i >= 4 { assert s[i] == r[i - 4]; } else { assert s[i] == q[i]; }
      }
    }
  }

  /** A group ends in as many pads as it lacks bytes. */
  lemma GroupPads(b0: bv8, b1: Option<bv8>, b2: Option<bv8>, alphabet: Alphabet)
    ensures var q := GroupChars(b0, b1, b2, alphabet);
            q[0] != '=' && q[1] != '=' && (q[2] == '=' <==> b1.None?) && (q[3] == '=' <==> b2.None?)
  {
    hide CharOf;
    forall x: bv8 | x < 64
      ensures CharOf(x, alphabet) != '='
    {
      SextetRoundTrip(x, alphabet);
    }
  }

  lemma {:induction false} StripExactly(s: string, k: nat)
    requires k <= |s| && (k == 0 || s[k - 1] != '=') && forall i | k <= i < |s| :: s[i] == '='
    ensures StripPadding(s) == s[..k]
    decreases |s|
  {
    if |s| > k {
      StripExactly(s[..|s| - 1], k);
      assert s[..|s| - 1][..k] == s[..k];
    } else {
      assert s[..k] == s;
    }
  }

  /** Leaving the padding out and putting it back is the identity on encodings. */
  lemma UnpaddedForm(bytes: Bytes, alphabet: Alphabet)
    ensures var s := EncodeWith(bytes, alphabet);
            var t := StripPadding(s);
            '=' !in t && t + Pads((4 - |t| % 4) % 4) == s
  {
    hide *;
    PaddingShape(bytes, alphabet);
    PadArithmetic(|bytes|);
    var s := EncodeWith(bytes, alphabet);
    StripOfPadded(s, |s| - PadCount(|bytes|));
  }

  lemma StripOfPadded(s: string, k: int)
    requires 0 <= k <= |s| && forall i | 0 <= i < |s| :: s[i] == '=' <==> i >= k
    ensures StripPadding(s) == s[..k] && '=' !in StripPadding(s) && StripPadding(s) + Pads(|s| - k) == s
  {
    hide StripPadding;
    StripExactly(s, k);
    assert s[..k] + Pads(|s| - k) == s;
  }

  /** The three printed forms decode to the bytes: sections 4 and 5, the last with its padding left out. */
  lemma EncodersRoundTrip(bytes: Bytes)
    ensures Decode(Base64(bytes), Standard) == Some(bytes)
    ensures Decode(Base64UrlPadded(bytes), UrlSafe) == Some(bytes)
    ensures '=' !in Base64Url(bytes) && DecodeUnpadded(Base64Url(bytes), UrlSafe) == Some(bytes)
  {
    hide Decode, EncodeWith, Base64, Base64UrlPadded, StripPadding;
    StandardIsBase64(bytes);
    UrlPaddedIsUrlAlphabet(bytes);
    DecodeOfEncode(bytes, Standard);
    DecodeOfEncode(bytes, UrlSafe);
    UnpaddedForm(bytes, UrlSafe);
  }

  lemma PadArithmetic(n: nat)
    ensures var k := 4 * ((n + 2) / 3) - PadCount(n); k >= 0 && (4 - k % 4) % 4 == PadCount(n)
  {
    QuarterRemainder((n + 2) / 3, PadCount(n));
  }

  lemma QuarterRemainder(m: nat, p: nat)
    requires p < 3
    ensures (4 - (4 * m - p) % 4) % 4 == p
  {
    assert 4 * m - p == 4 * (m - 1) + (4 - p);
  }

  // ---------------------------------------------------------------------------
  // Hexadecimal
  // ---------------------------------------------------------------------------

  function HexDigit(n: nat): char
    requires n < 16
  {
    if n < 10 then ('0' as int + n) as char else ('a' as int + n - 10) as char
  }

  /** `n.toString(16)`. */
  function ToHex(n: nat): (s: string)
    requires n < 256
    ensures 1 <= |s| <= 2
  {
    if n < 16 then [HexDigit(n)] else [HexDigit(n / 16), HexDigit(n % 16)]
  }

  function PadStart2(s: string): string
    requires |s| <= 2
  {
    if |s| == 2 then s else if |s| == 1 then "0" + s else "00"
  }

  /** `b.toString(16).padStart(2, '0')`. */
  function HexByte(b: bv8): string {
    PadStart2(ToHex(b as int))
  }

  function Hex(bytes: Bytes): string {
    if bytes == [] then "" else Hex(bytes[..|bytes| - 1]) + HexByte(bytes[|bytes| - 1])
  }

  method BytesToHex(bytes: Bytes) returns (out: string)
    ensures out == Hex(bytes)
  {
    out := "";
    for i := 0 to |bytes|
      invariant out == Hex(bytes[..i])
    {
      assert bytes[..i + 1][..i] == bytes[..i];
      out := out + HexByte(bytes[i]);
    }
    assert bytes[..|bytes|] == bytes;
  }

  /** Section 8, either letter case. */
  function HexValue(c: char): (r: Option<nat>)
    ensures r.Some? ==> r.value < 16
  {
    if '0' <= c <= '9' then Some(c as int - '0' as int)
    else if 'a' <= c <= 'f' then Some(c as int - 'a' as int + 10)
    else if 'A' <= c <= 'F' then Some(c as int - 'A' as int + 10)
    else None
  }

  function DecodeHex(s: string): Option<Bytes> {
    if s == "" then Some([])
    else if |s| == 1 then None
    else
      var n := |s| - 2;
      var init, hi, lo := DecodeHex(s[..n]), HexValue(s[n]), HexValue(s[n + 1]);
      if init.Some? && hi.Some? && lo.Some? then Some(init.value + [(16 * hi.value + lo.value) as bv8]) else None
  }

  lemma DecodeHexStep(s: string, pair: string)
    requires |pair| == 2
    ensures DecodeHex(s + pair) ==
            var init, hi, lo := DecodeHex(s), HexValue(pair[0]), HexValue(pair[1]);
            if init.Some? && hi.Some? && lo.Some? then Some(init.value + [(16 * hi.value + lo.value) as bv8]) else None
  {
    hide HexValue;
    assert (s + pair)[..|s|] == s;
  }

  lemma HexByteRoundTrip(b: bv8)
    ensures var p := HexByte(b);
            && |p| == 2 && HexValue(p[0]).Some? && HexValue(p[1]).Some?
            && IsLowerHex(p[0]) && IsLowerHex(p[1])
            && (16 * HexValue(p[0]).value + HexValue(p[1]).value) as bv8 == b
  {
    hide PadStart2, ToHex, HexValue, IsLowerHex;
    var n := b as int;
    HexPair(n);
    assert n as bv8 == b;
  }

  predicate IsLowerHex(c: char) { '0' <= c <= '9' || 'a' <= c <= 'f' }

  /** Two lower-case digits a byte, and decoding gives the bytes back. */
  lemma {:induction false} HexRoundTrip(bytes: Bytes)
    ensures DecodeHex(Hex(bytes)) == Some(bytes) && |Hex(bytes)| == 2 * |bytes|
    ensures forall i | 0 <= i < |Hex(bytes)| :: IsLowerHex(Hex(bytes)[i])
  {
    hide HexByte, HexValue, DecodeHex, IsLowerHex;
    if bytes == [] {
      NothingDecodes();
    } else {
      var n := |bytes| - 1;
      HexRoundTrip(bytes[..n]);
      HexByteRoundTrip(bytes[n]);
      DecodeHexStep(Hex(bytes[..n]), HexByte(bytes[n]));
      assert bytes == bytes[..n] + [bytes[n]];
    }
  }

  lemma NothingDecodes()
    ensures DecodeHex("") == Some([])
  {}

  lemma HexPair(n: nat)
    requires n < 256
    ensures var p := PadStart2(ToHex(n));
            && |p| == 2 && HexValue(p[0]) == Some(n / 16) && HexValue(p[1]) == Some(n % 16)
            && IsLowerHex(p[0]) && IsLowerHex(p[1])
            && 16 * (n / 16) + n % 16 == n
  {}

  // ---------------------------------------------------------------------------
  // Secret generation, given the random bytes
  // ---------------------------------------------------------------------------

  datatype Recipe = Fernet | HexSecret(length: Option<nat>) | Base64Secret(length: Option<nat>)

  /** How many random bytes a recipe draws; the length of a Fernet key is fixed. */
  function BytesDrawn(gen: Recipe): nat {
    if gen.Fernet? then 32 else if gen.length.None? then 32 else gen.length.value
  }

  function GenerateSecretValue(gen: Recipe, random: Bytes): string
    requires |random| == BytesDrawn(gen)
  {
    match gen
    case Fernet => Base64UrlPadded(random)
    case HexSecret(_) => Hex(random)
    case Base64Secret(_) => Base64Url(random)
  }

  /** No recipe loses entropy: different draws give different secrets. */
  lemma SecretsKeepEntropy(gen: Recipe, r1: Bytes, r2: Bytes)
    requires |r1| == |r2| == BytesDrawn(gen) && r1 != r2
    ensures GenerateSecretValue(gen, r1) != GenerateSecretValue(gen, r2)
  {
    hide Base64Url, Base64UrlPadded, Hex, Decode, DecodeHex, DecodeUnpadded;
    EncodersRoundTrip(r1);
    EncodersRoundTrip(r2);
    HexRoundTrip(r1);
    HexRoundTrip(r2);
  }

  /** Each recipe prints its draw, 32 bytes by default: in hexadecimal, or url-safe with or without padding. */
  lemma RecipeForms(gen: Recipe, random: Bytes)
    requires |random| == BytesDrawn(gen)
    ensures var secret := GenerateSecretValue(gen, random);
            match gen
            case Fernet => |random| == 32 && Decode(secret, UrlSafe) == Some(random)
            case HexSecret(length) =>
              && |secret| == 2 * (if length.Some? then length.value else 32)
              && DecodeHex(secret) == Some(random) && forall i | 0 <= i < |secret| :: IsLowerHex(secret[i])
            case Base64Secret(length) =>
              && |random| == (if length.Some? then length.value else 32)
              && '=' !in secret && DecodeUnpadded(secret, UrlSafe) == Some(random)
  {
    hide Base64Url, Base64UrlPadded, Hex, Decode, DecodeHex, DecodeUnpadded, IsLowerHex;
    EncodersRoundTrip(random);
    HexRoundTrip(random);
  }

  /** A Fernet key is 44 characters that a padded url-safe decoder accepts, with exactly one `=`, at the end. */
  lemma FernetKeyShape(random: Bytes)
    requires |random| == 32
    ensures var key := GenerateSecretValue(Fernet, random);
            && |key| == 44 && Decode(key, UrlSafe) == Some(random)
            && forall i | 0 <= i < 44 :: key[i] == '=' <==> i == 43
  {
    hide Decode, EncodeWith, Base64UrlPadded;
    UrlPaddedIsUrlAlphabet(random);
    PaddingShape(random, UrlSafe);
    EncodersRoundTrip(random);
  }
}
