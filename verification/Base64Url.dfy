/** The strict base64url decoder: section 5 of RFC 4648, padding optional, unused low bits zero. */
module Base64Url {

  type Byte = n: int | 0 <= n < 256
  type Sextet = n: int | 0 <= n < 64

  datatype Result = Ok(bytes: seq<Byte>) | Err(error: Error)
  datatype Error = NotAscii | BadCharacter | BadLength | NonCanonical

  // ---------------------------------------------------------------- the alphabet

  predicate InAlphabet(c: char) {
    'A' <= c <= 'Z' || 'a' <= c <= 'z' || '0' <= c <= '9' || c == '-' || c == '_'
  }

  function CharOf(v: Sextet): (c: char)
    ensures InAlphabet(c)
  {
    if v < 26 then ('A' as int + v) as char
    else if v < 52 then ('a' as int + (v - 26)) as char
    else if v < 62 then ('0' as int + (v - 52)) as char
    else if v == 62 then '-' else '_'
  }

  function ValueOf(c: char): (v: Sextet)
    requires InAlphabet(c)
    ensures CharOf(v) == c
  {
    if 'A' <= c <= 'Z' then c as int - 'A' as int
    else if 'a' <= c <= 'z' then c as int - 'a' as int + 26
    else if '0' <= c <= '9' then c as int - '0' as int + 52
    else if c == '-' then 62 else 63
  }

  lemma ValueOfCharOf(v: Sextet)
    ensures ValueOf(CharOf(v)) == v
  {
  }

  predicate AllInAlphabet(s: string) {
    forall i :: 0 <= i < |s| ==> InAlphabet(s[i])
  }

  function Values(s: string): (vs: seq<Sextet>)
    requires AllInAlphabet(s)
    ensures |vs| == |s| && forall i :: 0 <= i < |s| ==> vs[i] == ValueOf(s[i])
  {
    seq(|s|, i requires 0 <= i < |s| => ValueOf(s[i]))
  }

  function Chars(vs: seq<Sextet>): (s: string)
    ensures |s| == |vs| && AllInAlphabet(s) && forall i :: 0 <= i < |vs| ==> s[i] == CharOf(vs[i])
  {
    seq(|vs|, i requires 0 <= i < |vs| => CharOf(vs[i]))
  }

  lemma CharsOfValues(s: string)
    requires AllInAlphabet(s)
    ensures Chars(Values(s)) == s
  {
  }

  lemma ValuesOfChars(vs: seq<Sextet>)
    ensures Values(Chars(vs)) == vs
  {
    forall i | 0 <= i < |vs| ensures Values(Chars(vs))[i] == vs[i] {
      ValueOfCharOf(vs[i]);
    }
  }

  // ---------------------------------------------------------------- the library codec

  /** Three bytes as four sextets. */
  function Quad(x: Byte, y: Byte, z: Byte): seq<Sextet> {
    [x / 4, x % 4 * 16 + y / 16, y % 16 * 4 + z / 64, z % 64]
  }

  /** Four sextets as three bytes. */
  function Triple(v0: Sextet, v1: Sextet, v2: Sextet, v3: Sextet): seq<Byte> {
    [v0 as int * 4 + v1 / 16, v1 as int % 16 * 16 + v2 / 4, v2 as int % 4 * 64 + v3]
  }

  /** Three bytes become four sextets; a rest of one or two bytes becomes two or three, the last one
      filled up with zero bits. */
  function ToSextets(b: seq<Byte>): seq<Sextet> {
    if b == [] then []
    else if |b| == 1 then Quad(b[0], 0, 0)[..2]
    else if |b| == 2 then Quad(b[0], b[1], 0)[..3]
    else Quad(b[0], b[1], b[2]) + ToSextets(b[3..])
  }

  /** The reverse; bits that complete no byte are dropped. */
  function ToBytes(v: seq<Sextet>): seq<Byte> {
    if |v| < 2 then []
    else if |v| == 2 then Triple(v[0], v[1], 0, 0)[..1]
    else if |v| == 3 then Triple(v[0], v[1], v[2], 0)[..2]
    else Triple(v[0], v[1], v[2], v[3]) + ToBytes(v[4..])
  }

  function Pad(n: nat): string {
    seq((4 - n % 4) % 4, _ => '=')
  }

  /** urlsafe_b64encode */
  function LibraryEncode(b: seq<Byte>): string {
    var s := Chars(ToSextets(b));
    s + Pad(|s|)
  }

  /** urlsafe_b64decode of a correctly padded text. */
  function LibraryDecode(padded: string): seq<Byte>
    requires AllInAlphabet(StripPadding(padded))
  {
    ToBytes(Values(StripPadding(padded)))
  }

  // ---------------------------------------------------------------- the strict decoder

  /** rstrip("=") */
  function StripPadding(s: string): string {
    if s != [] && s[|s| - 1] == '=' then StripPadding(s[..|s| - 1]) else s
  }

  /** strict_b64url_decode of a str */
  function StrictDecode(s: string): Result {
    var stripped := StripPadding(s);
    if !AllInAlphabet(stripped) then Err(BadCharacter)
    else if |stripped| % 4 == 1 then Err(BadLength)
    else
      var padded := stripped + Pad(|stripped|);
      StripPadded(stripped, (4 - |stripped| % 4) % 4);
      var decoded := LibraryDecode(padded);
      var canonical := StripPadding(LibraryEncode(decoded));
      if canonical != stripped then Err(NonCanonical) else Ok(decoded)
  }

  /** strict_b64url_decode of bytes: they must be ASCII. */
  function StrictDecodeBytes(b: seq<Byte>): Result {
    if exists i :: 0 <= i < |b| && b[i] >= 128 then Err(NotAscii)
    else StrictDecode(seq(|b|, i requires 0 <= i < |b| => b[i] as char))
  }

  /** What an encoder emits, without padding. */
  function Encode(b: seq<Byte>): string {
    StripPadding(LibraryEncode(b))
  }

  lemma {:induction false} StripPadded(s: string, n: nat)
    requires AllInAlphabet(s)
    ensures StripPadding(s + seq(n, _ => '=')) == s
  {
    if n == 0 {
      assert s + seq(0, _ => '=') == s;
      if s != [] {
        assert InAlphabet(s[|s| - 1]);
      }
    } else {
      StripPadded(s, n - 1);
      var t := s + seq(n, _ => '=');
      assert t[..|t| - 1] == s + seq(n - 1, _ => '=');
    }
  }

  lemma EncodeIsChars(b: seq<Byte>)
    ensures Encode(b) == Chars(ToSextets(b))
  {
    var s := Chars(ToSextets(b));
    StripPadded(s, (4 - |s| % 4) % 4);
  }

  // ---------------------------------------------------------------- arithmetic

  lemma TripleOfQuad(x: Byte, y: Byte, z: Byte)
    ensures var q := Quad(x, y, z); Triple(q[0], q[1], q[2], q[3]) == [x, y, z]
  {
    Mix16(x % 4, y / 16);
    Mix4(y % 16, z / 64);
  }

  lemma QuadOfTriple(v0: Sextet, v1: Sextet, v2: Sextet, v3: Sextet)
    ensures var t := Triple(v0, v1, v2, v3); Quad(t[0], t[1], t[2]) == [v0, v1, v2, v3]
  {
    Recut(v0, v1 / 16, v1 % 16, v2 / 4, v2 % 4, v3);
  }

  /** The bits of three bytes, cut at the sextet boundaries. */
  lemma Recut(v0: nat, h1: nat, l1: nat, h2: nat, l2: nat, v3: nat)
    requires h1 < 4 && l1 < 16 && h2 < 16 && l2 < 4 && v3 < 64
    ensures var x, y, z := v0 * 4 + h1, l1 * 16 + h2, l2 * 64 + v3;
            && x / 4 == v0 && x % 4 * 16 + y / 16 == h1 * 16 + l1
            && y % 16 * 4 + z / 64 == h2 * 4 + l2 && z % 64 == v3
  {
    Mix4(v0, h1);
    Mix16(l1, h2);
    Mix64(l2, v3);
  }

  lemma Mix4(a: nat, b: nat)
    requires b < 4
    ensures (a * 4 + b) / 4 == a && (a * 4 + b) % 4 == b
  {
  }

  lemma Mix16(a: nat, b: nat)
    requires b < 16
    ensures (a * 16 + b) / 16 == a && (a * 16 + b) % 16 == b
  {
  }

  lemma Mix64(a: nat, b: nat)
    requires b < 64
    ensures (a * 64 + b) / 64 == a && (a * 64 + b) % 64 == b
  {
  }

  lemma SextetsOfBlock(t: seq<Byte>, rest: seq<Byte>)
    requires |t| == 3
    ensures ToSextets(t + rest) == Quad(t[0], t[1], t[2]) + ToSextets(rest)
  {
    assert (t + rest)[3..] == rest;
  }

  lemma BytesOfBlock(q: seq<Sextet>, rest: seq<Sextet>)
    requires |q| == 4
    ensures ToBytes(q + rest) == Triple(q[0], q[1], q[2], q[3]) + ToBytes(rest)
  {
    assert (q + rest)[4..] == rest;
  }

  /** Bytes survive the trip through sextets. */
  lemma {:induction false} BytesRoundTrip(b: seq<Byte>)
    ensures ToBytes(ToSextets(b)) == b
    ensures |ToSextets(b)| % 4 != 1
  {
    if |b| >= 3 {
      BytesRoundTrip(b[3..]);
      BytesOfBlock(Quad(b[0], b[1], b[2]), ToSextets(b[3..]));
      TripleOfQuad(b[0], b[1], b[2]);
      assert b == [b[0], b[1], b[2]] + b[3..];
    } else if |b| == 2 {
      TripleOfQuad(b[0], b[1], 0);
    } else if |b| == 1 {
      TripleOfQuad(b[0], 0, 0);
    }
  }

  /** The bits of the last sextet that no byte uses are zero. */
  predicate LowBitsZero(v: seq<Sextet>) {
    && (|v| % 4 == 2 ==> v[|v| - 1] % 16 == 0)
    && (|v| % 4 == 3 ==> v[|v| - 1] % 4 == 0)
  }

  /** The first block of v is decoded to t and t is encoded to it. */
  ghost predicate BlockIs(v: seq<Sextet>, t: seq<Byte>) {
    && |v| >= 4 && |t| == 3
    && ToBytes(v) == t + ToBytes(v[4..])
    && Quad(t[0], t[1], t[2]) == v[..4]
  }

  lemma FirstBlock(v: seq<Sextet>) returns (t: seq<Byte>)
    requires |v| >= 4
    ensures BlockIs(v, t)
  {
    t := Triple(v[0], v[1], v[2], v[3]);
    QuadOfTriple(v[0], v[1], v[2], v[3]);
    assert v[..4] == [v[0], v[1], v[2], v[3]];
  }

  /** Losing nothing in the whole is losing nothing after the first block. */
  lemma BlockRoundTrip(v: seq<Sextet>, t: seq<Byte>, bytes: seq<Byte>, rest: seq<Byte>)
    requires BlockIs(v, t) && bytes == ToBytes(v) && rest == ToBytes(v[4..])
    ensures ToSextets(bytes) == v <==> ToSextets(rest) == v[4..]
  {
    SextetsOfBlock(t, rest);
    var w := ToSextets(bytes);
    assert w[..4] == v[..4] && w[4..] == ToSextets(rest);
    assert v == v[..4] + v[4..] && w == w[..4] + w[4..];
  }

  lemma {:induction false} SkipBlock(v: seq<Sextet>)
    requires |v| >= 4
    ensures ToSextets(ToBytes(v)) == v <==> ToSextets(ToBytes(v[4..])) == v[4..]
  {
    var t := FirstBlock(v);
    BlockRoundTrip(v, t, ToBytes(v), ToBytes(v[4..]));
  }

  /** Sextets survive the trip through bytes exactly when nothing is lost on the way. */
  lemma {:induction false} SextetsRoundTripIff(v: seq<Sextet>)
    requires |v| % 4 != 1
    ensures ToSextets(ToBytes(v)) == v <==> LowBitsZero(v)
  {
    if |v| >= 4 {
      SextetsRoundTripIff(v[4..]);
      SkipBlock(v);
      LowBitsOfRest(v);
    } else if |v| == 3 {
      ThreeRoundTripIff(v);
    } else if |v| == 2 {
      TwoRoundTripIff(v);
    }
  }

  lemma ThreeRoundTripIff(v: seq<Sextet>)
    requires |v| == 3
    ensures ToSextets(ToBytes(v)) == v <==> v[2] % 4 == 0
  {
    var x, y := ThreeSextets(v);
    TwoBytes(x, y, v);
  }

  lemma TwoRoundTripIff(v: seq<Sextet>)
    requires |v| == 2
    ensures ToSextets(ToBytes(v)) == v <==> v[1] % 16 == 0
  {
    var x := TwoSextets(v);
    OneByte(x, v);
  }

  lemma ThreeSextets(v: seq<Sextet>) returns (x: Byte, y: Byte)
    requires |v| == 3
    ensures ToBytes(v) == [x, y]
    ensures x / 4 == v[0] && x % 4 * 16 + y / 16 == v[1] && y % 16 * 4 == v[2] / 4 * 4
  {
    x, y := ToBytes(v)[0], ToBytes(v)[1];
    QuadOfTriple(v[0], v[1], v[2], 0);
  }

  lemma TwoBytes(x: Byte, y: Byte, v: seq<Sextet>)
    requires |v| == 3
    requires x / 4 == v[0] && x % 4 * 16 + y / 16 == v[1] && y % 16 * 4 == v[2] / 4 * 4
    ensures ToSextets([x, y]) == v <==> v[2] % 4 == 0
  {
    assert ToSextets([x, y]) == [v[0], v[1], v[2] / 4 * 4];
    assert v == [v[0], v[1], v[2]];
  }

  lemma TwoSextets(v: seq<Sextet>) returns (x: Byte)
    requires |v| == 2
    ensures ToBytes(v) == [x]
    ensures x / 4 == v[0] && x % 4 * 16 == v[1] / 16 * 16
  {
    x := ToBytes(v)[0];
  }

  lemma OneByte(x: Byte, v: seq<Sextet>)
    requires |v| == 2 && x / 4 == v[0] && x % 4 * 16 == v[1] / 16 * 16
    ensures ToSextets([x]) == v <==> v[1] % 16 == 0
  {
    assert ToSextets([x]) == [v[0], v[1] / 16 * 16];
    assert v == [v[0], v[1]];
  }

  lemma LowBitsOfRest(v: seq<Sextet>)
    requires |v| >= 4
    ensures LowBitsZero(v) <==> LowBitsZero(v[4..])
  {
  }

  // ---------------------------------------------------------------- what the decoder guarantees

  lemma LibraryDecodesStripped(t: string)
    requires AllInAlphabet(t)
    ensures StripPadding(t + Pad(|t|)) == t
    ensures LibraryDecode(t + Pad(|t|)) == ToBytes(Values(t))
  {
    StripPadded(t, (4 - |t| % 4) % 4);
  }

  /** Re-encoding gives the text back exactly when its unused bits are zero. */
  lemma ReencodesIff(t: string)
    requires AllInAlphabet(t) && |t| % 4 != 1
    ensures Encode(ToBytes(Values(t))) == t <==> LowBitsZero(Values(t))
  {
    var b := ToBytes(Values(t));
    EncodeIsChars(b);
    SextetsRoundTripIff(Values(t));
    CharsOfValues(t);
    ValuesOfChars(ToSextets(b));
  }

  /** Exactly the canonical texts are accepted, whatever padding follows, and each decodes to bytes
      that encode back to it. */
  lemma AcceptedIffCanonical(s: string)
    ensures var t := StripPadding(s);
            StrictDecode(s).Ok? <==> AllInAlphabet(t) && |t| % 4 != 1 && LowBitsZero(Values(t))
    ensures StrictDecode(s).Ok? ==> Encode(StrictDecode(s).bytes) == StripPadding(s)
  {
    var t := StripPadding(s);
    if AllInAlphabet(t) && |t| % 4 != 1 {
      LibraryDecodesStripped(t);
      ReencodesIff(t);
    }
  }

  /** Every byte string round-trips. */
  lemma DecodeInvertsEncode(b: seq<Byte>)
    ensures StrictDecode(Encode(b)) == Ok(b)
  {
    var s := Encode(b);
    EncodeIsChars(b);
    BytesRoundTrip(b);
    ValuesOfChars(ToSextets(b));
    StripPadded(s, 0);
    assert s + seq(0, _ => '=') == s;
    StripPadded(s, (4 - |s| % 4) % 4);
  }

  /** Two accepted texts with the same bytes differ at most in padding. */
  lemma DecodeInjective(s: string, t: string)
    requires StrictDecode(s).Ok? && StrictDecode(s) == StrictDecode(t)
    ensures StripPadding(s) == StripPadding(t)
  {
    AcceptedIffCanonical(s);
    AcceptedIffCanonical(t);
  }

  lemma {:induction false} StripExtra(s: string, n: nat)
    ensures StripPadding(s + seq(n, _ => '=')) == StripPadding(s)
  {
    if n == 0 {
      assert s + seq(0, _ => '=') == s;
    } else {
      StripExtra(s, n - 1);
      var t := s + seq(n, _ => '=');
      assert t[..|t| - 1] == s + seq(n - 1, _ => '=');
    }
  }

  /** The documentation says excess padding is rejected; any amount of it is accepted. */
  lemma PaddingIgnored(s: string, n: nat)
    ensures StrictDecode(s + seq(n, _ => '=')) == StrictDecode(s)
  {
    StripExtra(s, n);
  }

  /** The ASCII bytes of a text in the alphabet. */
  function Ascii(s: string): seq<Byte>
    requires AllInAlphabet(s)
  {
    seq(|s|, i requires 0 <= i < |s| => s[i] as int)
  }

  /** An encoding handed over as bytes decodes like the same text. */
  lemma BytesInputRoundTrip(b: seq<Byte>)
    ensures AllInAlphabet(Encode(b)) && StrictDecodeBytes(Ascii(Encode(b))) == Ok(b)
  {
    EncodeIsChars(b);
    DecodeInvertsEncode(b);
    var s := Encode(b);
    var a := Ascii(s);
    assert seq(|a|, i requires 0 <= i < |a| => a[i] as char) == s;
  }

  // ---------------------------------------------------------------- against the table of RFC 4648

  /** Table 2 of section 5. */
  const TABLE := "ABCDEFGHIJKLMNOPQRSTUVWXYZ" + "abcdefghijklmnopqrstuvwxyz" + "0123456789-_"

  lemma TableUpper(v: int)
    requires 0 <= v < 26
    ensures TABLE[v] == ('A' as int + v) as char
  {
    assert "ABCDEFGHIJKLMNOPQRSTUVWXYZ"[v] == ('A' as int + v) as char;
  }

  lemma TableLower(v: int)
    requires 26 <= v < 52
    ensures TABLE[v] == ('a' as int + (v - 26)) as char
  {
    assert "abcdefghijklmnopqrstuvwxyz"[v - 26] == ('a' as int + (v - 26)) as char;
  }

  lemma TableRest(v: int)
    requires 52 <= v < 64
    ensures TABLE[v] == if v < 62 then ('0' as int + (v - 52)) as char else if v == 62 then '-' else '_'
  {
  }

  lemma CharIsTabled(v: Sextet)
    ensures |TABLE| == 64 && CharOf(v) == TABLE[v]
  {
    if v < 26 {
      TableUpper(v);
    } else if v < 52 {
      TableLower(v);
    } else {
      TableRest(v);
    }
  }

  /** Where a character stands in the table. */
  ghost function Position(c: char): (v: int)
    requires c in TABLE
    ensures 0 <= v < |TABLE| && TABLE[v] == c
  {
    var v :| 0 <= v < |TABLE| && TABLE[v] == c;
    v
  }

  lemma PositionIsValue(c: char)
    ensures c in TABLE <==> InAlphabet(c)
    ensures InAlphabet(c) ==> Position(c) == ValueOf(c)
  {
    CharIsTabled(0);
    if InAlphabet(c) {
      CharIsTabled(ValueOf(c));
    }
    if c in TABLE {
      CharIsTabled(Position(c));
      ValueOfCharOf(Position(c));
    }
  }

  /** A text of table characters as one number, most significant digit first in base 64. */
  ghost function TextNumber(t: string): int
    requires forall c :: c in t ==> c in TABLE
  {
    if t == [] then 0 else 64 * TextNumber(t[..|t| - 1]) + Position(t[|t| - 1])
  }

  /** Bytes as one big-endian number. */
  ghost function ByteNumber(b: seq<Byte>): int {
    if b == [] then 0 else 256 * ByteNumber(b[..|b| - 1]) + b[|b| - 1]
  }

  /** What the bits that complete no byte amount to: a text of n characters has 6 * n of them. */
  function Unused(n: nat): nat {
    match n % 4
    case 0 => 1
    case 2 => 16
    case 3 => 4
    case _ => 64
  }

  ghost function SextetNumber(v: seq<Sextet>): int {
    if v == [] then 0 else 64 * SextetNumber(v[..|v| - 1]) + v[|v| - 1]
  }

  lemma {:induction false} TextNumberIsSextetNumber(t: string)
    requires AllInAlphabet(t)
    ensures forall c :: c in t ==> c in TABLE
    ensures TextNumber(t) == SextetNumber(Values(t))
  {
    forall c | c in t ensures c in TABLE {
      var i :| 0 <= i < |t| && t[i] == c;
      PositionIsValue(t[i]);
    }
    if t != [] {
      var init, last := t[..|t| - 1], t[|t| - 1];
      TextNumberIsSextetNumber(init);
      PositionIsValue(last);
      assert Values(t)[..|t| - 1] == Values(init);
    }
  }

  function Pow(base: nat, n: nat): nat {
    if n == 0 then 1 else base * Pow(base, n - 1)
  }

  lemma {:induction false} SextetNumberAppend(a: seq<Sextet>, b: seq<Sextet>)
    ensures SextetNumber(a + b) == SextetNumber(a) * Pow(64, |b|) + SextetNumber(b)
  {
    if b == [] {
      assert a + b == a;
    } else {
      var k := |b| - 1;
      SextetNumberAppend(a, b[..k]);
      assert (a + b)[..|a| + k] == a + b[..k];
      TimesBase(64, SextetNumber(a), Pow(64, k));
    }
  }

  lemma {:induction false} ByteNumberAppend(a: seq<Byte>, b: seq<Byte>)
    ensures ByteNumber(a + b) == ByteNumber(a) * Pow(256, |b|) + ByteNumber(b)
  {
    if b == [] {
      assert a + b == a;
    } else {
      var k := |b| - 1;
      ByteNumberAppend(a, b[..k]);
      assert (a + b)[..|a| + k] == a + b[..k];
      TimesBase(256, ByteNumber(a), Pow(256, k));
    }
  }

  lemma TimesBase(base: int, x: int, p: int)
    ensures base * (x * p) == x * (base * p)
  {
  }

  lemma {:induction false} SextetsOfFour(v: seq<Sextet>)
    requires |v| == 4
    ensures SextetNumber(v) == v[0] as int * 262144 + v[1] as int * 4096 + v[2] as int * 64 + v[3]
  {
    SextetsOfThree(v[..3]);
  }

  lemma {:induction false} BytesOfThree(b: seq<Byte>)
    requires |b| == 3
    ensures ByteNumber(b) == b[0] as int * 65536 + b[1] as int * 256 + b[2]
  {
    BytesOfTwo(b[..2]);
  }

  /** Four sextets and the three bytes made of them are the same number. */
  lemma BlockNumber(v: seq<Sextet>)
    requires |v| == 4
    ensures ByteNumber(Triple(v[0], v[1], v[2], v[3])) == SextetNumber(v)
  {
    SextetsOfFour(v);
    BytesOfThree(Triple(v[0], v[1], v[2], v[3]));
  }

  lemma PowFour(n: nat)
    ensures Pow(64, n + 4) == 16777216 * Pow(64, n)
  {
    assert Pow(64, n + 4) == 64 * Pow(64, n + 3) && Pow(64, n + 3) == 64 * Pow(64, n + 2);
    assert Pow(64, n + 2) == 64 * Pow(64, n + 1) && Pow(64, n + 1) == 64 * Pow(64, n);
  }

  lemma PowThree(n: nat)
    ensures Pow(256, n + 3) == 16777216 * Pow(256, n)
  {
    assert Pow(256, n + 3) == 256 * Pow(256, n + 2);
    assert Pow(256, n + 2) == 256 * Pow(256, n + 1) && Pow(256, n + 1) == 256 * Pow(256, n);
  }

  /** How many bytes n sextets make up. */
  lemma {:induction false} ByteCount(v: seq<Sextet>)
    requires |v| % 4 != 1
    ensures |ToBytes(v)| == |v| * 6 / 8
  {
    if |v| >= 4 {
      ByteCount(v[4..]);
    }
  }

  /** Together the bytes and the unused bits have the bits of the sextets. */
  lemma {:induction false} BitsSplit(n: nat)
    requires n % 4 != 1
    ensures Pow(64, n) == Pow(256, n * 6 / 8) * Unused(n)
  {
    if n >= 4 {
      var m := n - 4;
      BitsSplit(m);
      PowFour(m);
      PowThree(m * 6 / 8);
      assert n * 6 / 8 == m * 6 / 8 + 3 && Unused(n) == Unused(m);
      TimesBase(16777216, Unused(n), Pow(256, m * 6 / 8));
    } else if n == 3 {
      assert Pow(64, 3) == 64 * Pow(64, 2) && Pow(64, 2) == 64 * Pow(64, 1) && Pow(64, 1) == 64 * Pow(64, 0);
      assert Pow(256, 2) == 256 * Pow(256, 1) && Pow(256, 1) == 256 * Pow(256, 0);
    } else if n == 2 {
      assert Pow(64, 2) == 64 * Pow(64, 1) && Pow(64, 1) == 64 * Pow(64, 0);
      assert Pow(256, 1) == 256 * Pow(256, 0);
    }
  }

  /** The sextets are the bytes, shifted left by the unused bits, and those bits. */
  ghost predicate SameNumber(v: seq<Sextet>) {
    && SextetNumber(v) == ByteNumber(ToBytes(v)) * Unused(|v|) + Remainder(v)
    && 0 <= Remainder(v) < Unused(|v|)
  }

  lemma {:induction false} NumbersAgree(v: seq<Sextet>)
    requires |v| % 4 != 1
    ensures SameNumber(v)
  {
    if |v| >= 4 {
      NumbersAgree(v[4..]);
      BlockInFront(v, v[..4], v[4..]);
    } else {
      ShortNumbersAgree(v);
    }
  }

  lemma {:induction false} BlockInFront(v: seq<Sextet>, q: seq<Sextet>, rest: seq<Sextet>)
    requires v == q + rest && |q| == 4 && |rest| % 4 != 1 && SameNumber(rest)
    ensures SameNumber(v)
  {
    var bytes := ToBytes(rest);
    SextetNumberAppend(q, rest);
    BytesOfBlock(q, rest);
    ByteNumberAppend(Triple(q[0], q[1], q[2], q[3]), bytes);
    BlockNumber(q);
    BitsSplit(|rest|);
    ByteCount(rest);
    SameUnused(v, rest);
    Distribute(SextetNumber(q), Pow(256, |bytes|), ByteNumber(bytes), Unused(|v|), Remainder(v));
  }

  lemma SameUnused(v: seq<Sextet>, rest: seq<Sextet>)
    requires |v| >= 4 && rest == v[4..]
    ensures Unused(|v|) == Unused(|rest|) && Remainder(v) == Remainder(rest)
  {
  }

  lemma Distribute(q: int, p: int, b: int, u: int, r: int)
    ensures q * (p * u) + (b * u + r) == (q * p + b) * u + r
  {
  }

  /** The unused bits of the last sextet. */
  function Remainder(v: seq<Sextet>): int {
    if |v| % 4 == 2 then v[|v| - 1] % 16 else if |v| % 4 == 3 then v[|v| - 1] % 4 else 0
  }

  lemma {:induction false} ShortNumbersAgree(v: seq<Sextet>)
    requires |v| < 4 && |v| != 1
    ensures SameNumber(v)
  {
    if |v| == 3 {
      SextetsOfThree(v);
      BytesOfTwo(ToBytes(v));
    } else if |v| == 2 {
      SextetsOfTwo(v);
      BytesOfOne(ToBytes(v));
    }
  }

  lemma {:induction false} SextetsOfTwo(v: seq<Sextet>)
    requires |v| == 2
    ensures SextetNumber(v) == v[0] as int * 64 + v[1]
  {
    assert v[..1][..0] == [];
    assert SextetNumber(v[..1]) == v[0];
  }

  lemma {:induction false} SextetsOfThree(v: seq<Sextet>)
    requires |v| == 3
    ensures SextetNumber(v) == v[0] as int * 4096 + v[1] as int * 64 + v[2]
  {
    SextetsOfTwo(v[..2]);
  }

  lemma {:induction false} BytesOfOne(b: seq<Byte>)
    requires |b| == 1
    ensures ByteNumber(b) == b[0]
  {
    assert b[..0] == [];
  }

  lemma {:induction false} BytesOfTwo(b: seq<Byte>)
    requires |b| == 2
    ensures ByteNumber(b) == b[0] as int * 256 + b[1]
  {
    BytesOfOne(b[..1]);
  }

  lemma Shifted(x: int, q: int, u: int, r: int)
    requires (u == 1 || u == 4 || u == 16) && x == q * u + r && 0 <= r < u
    ensures x / u == q && x % u == r
  {
    if u == 4 {
      assert x == q * 4 + r;
    } else if u == 16 {
      assert x == q * 16 + r;
    }
  }

  /** The decoder against the RFC. For a text t in front of any number of pad characters: it is
      accepted exactly when every character is in the table, the length is possible and the bits that
      complete no byte are zero; then the bytes are as many as there are full ones, and as a number
      they are the text, read in base 64 by the table, with the unused bits shifted out. */
  lemma DecodesByTable(t: string, pads: nat)
    requires t == [] || t[|t| - 1] != '='
    ensures var r := StrictDecode(t + seq(pads, _ => '='));
            var tabled := forall c :: c in t ==> c in TABLE;
            && (r == Err(BadCharacter) <==> !tabled)
            && (r == Err(BadLength) <==> tabled && |t| % 4 == 1)
            && (r == Err(NonCanonical) <==> tabled && |t| % 4 != 1 && TextNumber(t) % Unused(|t|) != 0)
            && (r.Ok? <==> tabled && |t| % 4 != 1 && TextNumber(t) % Unused(|t|) == 0)
            && (r.Ok? ==> |r.bytes| == |t| * 6 / 8 && ByteNumber(r.bytes) == TextNumber(t) / Unused(|t|))
  {
    StripExtra(t, pads);
    assert StripPadding(t) == t;
    TabledIff(t);
    if AllInAlphabet(t) && |t| % 4 != 1 {
      AcceptedIffCanonical(t + seq(pads, _ => '='));
      LibraryDecodesStripped(t);
      TextNumberIsSextetNumber(t);
      var v := Values(t);
      NumbersAgree(v);
      ByteCount(v);
      Shifted(SextetNumber(v), ByteNumber(ToBytes(v)), Unused(|t|), Remainder(v));
    }
  }

  lemma TabledIff(t: string)
    ensures AllInAlphabet(t) <==> forall c :: c in t ==> c in TABLE
  {
    forall i | 0 <= i < |t| ensures InAlphabet(t[i]) <==> t[i] in TABLE {
      PositionIsValue(t[i]);
    }
    if AllInAlphabet(t) {
      forall c | c in t ensures c in TABLE {
        var i :| 0 <= i < |t| && t[i] == c;
      }
    }
  }

  /** Bytes are read as ASCII, and refused exactly when one of them is not. */
  lemma BytesDecodeAsText(b: seq<Byte>, s: string)
    requires |s| == |b| && forall i :: 0 <= i < |b| ==> s[i] as int == b[i]
    ensures StrictDecodeBytes(b) == if exists i :: 0 <= i < |b| && b[i] >= 128 then Err(NotAscii) else StrictDecode(s)
    ensures StrictDecode(s) != Err(NotAscii)
  {
    assert seq(|b|, i requires 0 <= i < |b| => b[i] as char) == s;
  }
}
