/** Unpadded base64url (sections 4, 5 and 3.2 of RFC 4648), as crp_shared/session_token.py
    (lines 203-212) uses it. */
module Base64Url {

  import opened Common

  type byte = x: int | 0 <= x < 256

  type sextet = x: int | 0 <= x < 64

  /** A-Z, a-z, 0-9, '-', '_' */
  function CharOf(v: sextet): char {
    if v < 26 then ('A' as int + v) as char
    else if v < 52 then ('a' as int + v - 26) as char
    else if v < 62 then ('0' as int + v - 52) as char
    else if v == 62 then '-'
    else '_'
  }

  function ValueOf(c: char): Option<sextet> {
    if 'A' <= c <= 'Z' then Some(c as int - 'A' as int)
    else if 'a' <= c <= 'z' then Some(c as int - 'a' as int + 26)
    else if '0' <= c <= '9' then Some(c as int - '0' as int + 52)
    else if c == '-' then Some(62)
    else if c == '_' then Some(63)
    else None
  }

  lemma ValueOfCharOf(v: sextet)
    ensures ValueOf(CharOf(v)) == Some(v)
    ensures CharOf(v) != '=' && CharOf(v) != '.'
  {
  }

  // ---------------------------------------------------------------------------------------------
  // Encoding

  function Sextets(b0: byte, b1: byte, b2: byte): (sextet, sextet, sextet, sextet) {
    (b0 / 4, b0 % 4 * 16 + b1 / 16, b1 % 16 * 4 + b2 / 64, b2 % 64)
  }

  /** The characters that carry data. */
  function Digits(data: seq<byte>): string {
    if data == [] then ""
    else if |data| == 1 then
      var q := Sextets(data[0], 0, 0);
      [CharOf(q.0), CharOf(q.1)]
    else if |data| == 2 then
      var q := Sextets(data[0], data[1], 0);
      [CharOf(q.0), CharOf(q.1), CharOf(q.2)]
    else
      var q := Sextets(data[0], data[1], data[2]);
      [CharOf(q.0), CharOf(q.1), CharOf(q.2), CharOf(q.3)] + Digits(data[3..])
  }

  function Padding(n: nat): string {
    if n % 3 == 1 then "==" else if n % 3 == 2 then "=" else ""
  }

  /** urlsafe_b64encode */
  function EncodePadded(data: seq<byte>): string {
    Digits(data) + Padding(|data|)
  }

  /** rstrip("=") */
  function Strip(s: string): string {
    if s != "" && s[|s| - 1] == '=' then Strip(s[..|s| - 1]) else s
  }

  function Encode(data: seq<byte>): string {
    Strip(EncodePadded(data))
  }

  // ---------------------------------------------------------------------------------------------
  // Decoding

  function Bytes(v0: sextet, v1: sextet, v2: sextet, v3: sextet): (byte, byte, byte) {
    (v0 * 4 + v1 / 16, v1 % 16 * 16 + v2 / 4, v2 % 4 * 64 + v3)
  }

  /** urlsafe_b64decode, on text over the alphabet with padding only where it belongs. */
  function DecodePadded(s: string): Option<seq<byte>> {
    if s == "" then Some([])
    else if |s| < 4 || ValueOf(s[0]).None? || ValueOf(s[1]).None? then None
    else
      var v0, v1 := ValueOf(s[0]).value, ValueOf(s[1]).value;
      if |s| == 4 && s[3] == '=' then
        if s[2] == '=' then Some([Bytes(v0, v1, 0, 0).0])
        else if ValueOf(s[2]).None? then None
        else
          var b := Bytes(v0, v1, ValueOf(s[2]).value, 0);
          Some([b.0, b.1])
      else if ValueOf(s[2]).None? || ValueOf(s[3]).None? then None
      else
        var b := Bytes(v0, v1, ValueOf(s[2]).value, ValueOf(s[3]).value);
        var rest := DecodePadded(s[4..]);
        if rest.None? then None else Some([b.0, b.1, b.2] + rest.value)
  }

  function Equals(n: nat): string {
    if n == 0 then "" else "=" + Equals(n - 1)
  }

  function Decode(s: string): Option<seq<byte>> {
    var padding := 4 - |s| % 4;
    DecodePadded(if padding != 4 then s + Equals(padding) else s)
  }

  // ---------------------------------------------------------------------------------------------
  // The round trip

  lemma BytesOfSextets(b0: byte, b1: byte, b2: byte)
    ensures var q := Sextets(b0, b1, b2); Bytes(q.0, q.1, q.2, q.3) == (b0, b1, b2)
  {
    SplitByte(b1, 16);
    SplitByte(b2, 64);
    assert (b0 % 4 * 16 + b1 / 16) / 16 == b0 % 4 && (b0 % 4 * 16 + b1 / 16) % 16 == b1 / 16;
    assert (b1 % 16 * 4 + b2 / 64) / 4 == b1 % 16 && (b1 % 16 * 4 + b2 / 64) % 4 == b2 / 64;
  }

  lemma SplitByte(b: byte, k: int)
    requires k == 16 || k == 64
    ensures b == b / k * k + b % k
  {
  }

  lemma QuadDecodes(b0: byte, b1: byte, b2: byte)
    ensures var q := Sextets(b0, b1, b2);
            && ValueOf(CharOf(q.0)) == Some(q.0) && ValueOf(CharOf(q.1)) == Some(q.1)
            && ValueOf(CharOf(q.2)) == Some(q.2) && ValueOf(CharOf(q.3)) == Some(q.3)
            && Plain([CharOf(q.0), CharOf(q.1), CharOf(q.2), CharOf(q.3)])
            && Bytes(q.0, q.1, q.2, q.3) == (b0, b1, b2)
  {
    var q := Sextets(b0, b1, b2);
    BytesOfSextets(b0, b1, b2);
    hide Sextets, Bytes;
    ValueOfCharOf(q.0);
    ValueOfCharOf(q.1);
    ValueOfCharOf(q.2);
    ValueOfCharOf(q.3);
  }

  /** Neither padding nor a dot. */
  ghost predicate Plain(s: string) {
    forall i | 0 <= i < |s| :: s[i] != '=' && s[i] != '.'
  }

  lemma DecodesOne(c0: char, c1: char)
    requires ValueOf(c0).Some? && ValueOf(c1).Some?
    ensures DecodePadded([c0, c1, '=', '=']) == Some([Bytes(ValueOf(c0).value, ValueOf(c1).value, 0, 0).0])
  {
    hide Bytes, ValueOf;
  }

  lemma DecodesTwo(c0: char, c1: char, c2: char)
    requires ValueOf(c0).Some? && ValueOf(c1).Some? && ValueOf(c2).Some? && c2 != '='
    ensures var b := Bytes(ValueOf(c0).value, ValueOf(c1).value, ValueOf(c2).value, 0);
            DecodePadded([c0, c1, c2, '=']) == Some([b.0, b.1])
  {
    hide Bytes, ValueOf;
  }

  /** The next sextet, which agrees in all but the last bit. */
  function Neighbour(v: sextet): (w: sextet)
    ensures w != v && w / 2 == v / 2
  {
    if v % 2 == 0 then v + 1 else v - 1
  }

  /** The bits that decoding ignores: the last four of a single byte's second sextet, ... */
  lemma OneByteBits(b: byte)
    ensures var q := Sextets(b, 0, 0);
            && q.2 == 0 && Bytes(q.0, q.1, 0, 0).0 == b && Bytes(q.0, Neighbour(q.1), 0, 0).0 == b
  {
    var q := Sextets(b, 0, 0);
    assert q.1 == b % 4 * 16 && q.1 / 16 == b % 4;
    assert Neighbour(q.1) / 16 == b % 4;
  }

  /** ... and the last two of the third sextet of two bytes. */
  lemma TwoBytesBits(b0: byte, b1: byte)
    ensures var q := Sextets(b0, b1, 0);
            && Bytes(q.0, q.1, q.2, 0).0 == b0 && Bytes(q.0, q.1, q.2, 0).1 == b1
            && Bytes(q.0, q.1, Neighbour(q.2), 0).0 == b0 && Bytes(q.0, q.1, Neighbour(q.2), 0).1 == b1
  {
    var q := Sextets(b0, b1, 0);
    BytesOfSextets(b0, b1, 0);
    assert q.3 == 0;
    assert q.2 == b1 % 16 * 4 && q.2 / 4 == b1 % 16;
    assert Neighbour(q.2) / 4 == b1 % 16;
  }

  lemma {:induction false} OneByteDigits(data: seq<byte>)
    requires |data| == 1
    ensures var q := Sextets(data[0], 0, 0);
            && Digits(data) == [CharOf(q.0), CharOf(q.1)]
            && EncodePadded(data) == [CharOf(q.0), CharOf(q.1), '=', '=']
  {
    hide Sextets, CharOf;
    var q := Sextets(data[0], 0, 0);
    assert Digits(data) == [CharOf(q.0), CharOf(q.1)];
    hide Digits;
    assert [CharOf(q.0), CharOf(q.1)] + "==" == [CharOf(q.0), CharOf(q.1), '=', '='];
  }

  lemma TwoBytesDigits(data: seq<byte>)
    requires |data| == 2
    ensures var q := Sextets(data[0], data[1], 0);
            && Digits(data) == [CharOf(q.0), CharOf(q.1), CharOf(q.2)]
            && EncodePadded(data) == [CharOf(q.0), CharOf(q.1), CharOf(q.2), '=']
  {
    hide Sextets, CharOf;
    var q := Sextets(data[0], data[1], 0);
    assert Digits(data) == [CharOf(q.0), CharOf(q.1), CharOf(q.2)];
    hide Digits;
    assert [CharOf(q.0), CharOf(q.1), CharOf(q.2)] + "=" == [CharOf(q.0), CharOf(q.1), CharOf(q.2), '='];
  }

  lemma OneByteDecodes(data: seq<byte>)
    requires |data| == 1
    ensures DecodePadded(EncodePadded(data)) == Some(data)
  {
    hide *;
    var q := Sextets(data[0], 0, 0);
    OneByteBits(data[0]);
    OneByteDigits(data);
    ValueOfCharOf(q.0);
    ValueOfCharOf(q.1);
    DecodesOne(CharOf(q.0), CharOf(q.1));
    assert data == [data[0]];
  }

  lemma TwoBytesDecode(data: seq<byte>)
    requires |data| == 2
    ensures DecodePadded(EncodePadded(data)) == Some(data)
  {
    hide *;
    var q := Sextets(data[0], data[1], 0);
    TwoBytesBits(data[0], data[1]);
    TwoBytesDigits(data);
    ValueOfCharOf(q.0);
    ValueOfCharOf(q.1);
    ValueOfCharOf(q.2);
    DecodesTwo(CharOf(q.0), CharOf(q.1), CharOf(q.2));
    assert data == [data[0], data[1]];
  }

  lemma GroupEncodes(data: seq<byte>)
    requires |data| > 2
    ensures var q := Sextets(data[0], data[1], data[2]);
            EncodePadded(data) == [CharOf(q.0), CharOf(q.1), CharOf(q.2), CharOf(q.3)] + EncodePadded(data[3..])
  {
    hide Sextets, CharOf;
  }

  /** A plain group in front decodes to its three bytes. */
  lemma GroupDecodes(b0: byte, b1: byte, b2: byte, tail: string, value: seq<byte>)
    requires DecodePadded(tail) == Some(value)
    ensures var q := Sextets(b0, b1, b2);
            var group := [CharOf(q.0), CharOf(q.1), CharOf(q.2), CharOf(q.3)];
            DecodePadded(group + tail) == Some([b0, b1, b2] + value) && Plain(group)
  {
    var q := Sextets(b0, b1, b2);
    var group := [CharOf(q.0), CharOf(q.1), CharOf(q.2), CharOf(q.3)];
    QuadDecodes(b0, b1, b2);
    var s := group + tail;
    hide Sextets, Bytes, CharOf, ValueOf;
    assert s[4..] == tail && s[0] == group[0] && s[1] == group[1] && s[2] == group[2] && s[3] == group[3];
  }

  lemma FirstThree(data: seq<byte>)
    requires |data| > 2
    ensures [data[0], data[1], data[2]] + data[3..] == data
  {
  }

  lemma {:induction false} DecodePaddedInverts(data: seq<byte>)
    ensures DecodePadded(EncodePadded(data)) == Some(data)
    decreases |data|
  {
    if |data| == 1 {
      OneByteDecodes(data);
    } else if |data| == 2 {
      TwoBytesDecode(data);
    } else if |data| > 2 {
      GroupEncodes(data);
      DecodePaddedInverts(data[3..]);
      GroupDecodes(data[0], data[1], data[2], EncodePadded(data[3..]), data[3..]);
      hide *;
      FirstThree(data);
    }
  }

  /** Data characters are neither padding nor dots. */
  lemma {:induction false} DigitsPlain(data: seq<byte>)
    ensures Plain(Digits(data))
    decreases |data|
  {
    if data != [] {
      var b1 := if |data| == 1 then 0 else data[1];
      var b2 := if |data| <= 2 then 0 else data[2];
      var q := Sextets(data[0], b1, b2);
      var group := [CharOf(q.0), CharOf(q.1), CharOf(q.2), CharOf(q.3)];
      QuadDecodes(data[0], b1, b2);
      if |data| > 2 {
        DigitsPlain(data[3..]);
        assert Digits(data) == group + Digits(data[3..]);
      } else {
        assert Digits(data) == group[..|data| + 1];
      }
      hide Sextets, CharOf, Digits;
    }
  }

  /** Their number never leaves one over modulo 4. */
  lemma {:induction false} DigitsLength(data: seq<byte>)
    ensures |Digits(data)| % 4 == if |data| % 3 == 0 then 0 else |data| % 3 + 1
    decreases |data|
  {
    hide Sextets, CharOf;
    if |data| > 2 {
      DigitsLength(data[3..]);
    }
  }

  lemma StripPlain(d: string)
    requires Plain(d)
    ensures Strip(d) == d && Strip(d + "=") == d && Strip(d + "==") == d
  {
    assert (d + "==")[..|d| + 1] == d + "=" && (d + "=")[..|d|] == d;
  }

  lemma {:induction false} StripPadding(data: seq<byte>)
    ensures Encode(data) == Digits(data)
  {
    DigitsPlain(data);
    hide Digits, Strip;
    StripPlain(Digits(data));
    assert Digits(data) + "" == Digits(data);
  }

  lemma Repad(d: string, n: nat)
    requires |d| % 4 == if n % 3 == 0 then 0 else n % 3 + 1
    ensures (if 4 - |d| % 4 != 4 then d + Equals(4 - |d| % 4) else d) == d + Padding(n)
  {
    assert Equals(0) == "" && Equals(1) == "=" + Equals(0) == "=" && Equals(2) == "=" + Equals(1) == "==";
    assert d + "" == d;
  }

  /** The padding arithmetic of the decoder restores exactly what the encoder stripped. */
  lemma DecodeInverts(data: seq<byte>)
    ensures Decode(Encode(data)) == Some(data)
  {
    hide Digits, DecodePadded, Encode, Equals, Padding;
    StripPadding(data);
    DigitsLength(data);
    Repad(Digits(data), |data|);
    DecodePaddedInverts(data);
  }

  /** No encoding contains a dot or padding, or has length 1 modulo 4. */
  lemma EncodeShape(data: seq<byte>)
    ensures forall i | 0 <= i < |Encode(data)| :: Encode(data)[i] != '.' && Encode(data)[i] != '='
    ensures |Encode(data)| % 4 != 1
  {
    StripPadding(data);
    DigitsPlain(data);
    DigitsLength(data);
    hide Digits, Encode;
  }

  // ---------------------------------------------------------------------------------------------
  // How many texts decode to the same bytes

  lemma CharOfValueOf(c: char)
    requires ValueOf(c).Some?
    ensures CharOf(ValueOf(c).value) == c
  {
  }

  lemma SextetsOfBytes(v0: sextet, v1: sextet, v2: sextet, v3: sextet)
    ensures var b := Bytes(v0, v1, v2, v3); Sextets(b.0, b.1, b.2) == (v0, v1, v2, v3)
  {
    assert v1 == v1 / 16 * 16 + v1 % 16 && v2 == v2 / 4 * 4 + v2 % 4;
    assert (v0 * 4 + v1 / 16) / 4 == v0 && (v0 * 4 + v1 / 16) % 4 == v1 / 16;
    assert (v1 % 16 * 16 + v2 / 4) / 16 == v1 % 16 && (v1 % 16 * 16 + v2 / 4) % 16 == v2 / 4;
    assert (v2 % 4 * 64 + v3) / 64 == v2 % 4 && (v2 % 4 * 64 + v3) % 64 == v3;
  }

  /** A whole group of four characters is the encoding of its three bytes. */
  lemma {:induction false} GroupBack(c0: char, c1: char, c2: char, c3: char, rest: seq<byte>)
    requires ValueOf(c0).Some? && ValueOf(c1).Some? && ValueOf(c2).Some? && ValueOf(c3).Some?
    ensures var b := Bytes(ValueOf(c0).value, ValueOf(c1).value, ValueOf(c2).value, ValueOf(c3).value);
            Digits([b.0, b.1, b.2] + rest) == [c0, c1, c2, c3] + Digits(rest)
  {
    var v0, v1, v2, v3 := ValueOf(c0).value, ValueOf(c1).value, ValueOf(c2).value, ValueOf(c3).value;
    SextetsOfBytes(v0, v1, v2, v3);
    CharOfValueOf(c0);
    CharOfValueOf(c1);
    CharOfValueOf(c2);
    CharOfValueOf(c3);
    var b := Bytes(v0, v1, v2, v3);
    hide Bytes, Sextets, ValueOf, CharOf;
    assert ([b.0, b.1, b.2] + rest)[3..] == rest;
  }

  /** What plain characters and k padding characters decode to. */
  ghost predicate DecodesPlainly(s: string, k: nat) {
    var r := DecodePadded(s + Equals(k));
    && (r.Some? ==> k <= 2 && (|r.value| + k) % 3 == 0)
    && (r.Some? && k == 0 ==> Digits(r.value) == s)
  }

  lemma PlainGroup(s: string, k: nat)
    requires Plain(s) && |s| >= 4 && DecodesPlainly(s[4..], k)
    ensures DecodesPlainly(s, k)
  {
    EqualsAre(k);
    var t := s + Equals(k);
    hide Equals, Bytes, Sextets, ValueOf, CharOf, Digits;
    assert t[4..] == s[4..] + Equals(k);
    assert s[0] == t[0] && s[1] == t[1] && s[2] == t[2] && s[3] == t[3] && s[3] != '=';
    if DecodePadded(t).Some? {
      assert s == [s[0], s[1], s[2], s[3]] + s[4..];
      GroupBack(s[0], s[1], s[2], s[3], DecodePadded(t[4..]).value);
    }
  }

  lemma PlainLast(s: string, k: nat)
    requires Plain(s) && |s| < 4 && k <= 3 && (|s| + k) % 4 == 0
    ensures DecodesPlainly(s, k)
  {
    EqualsAre(k);
    NoDigits();
    EqualsHasNoValue();
    var t := s + Equals(k);
    hide Equals, Bytes, Sextets, ValueOf, CharOf, Digits;
    if k == 3 {
      assert t[1] == '=';
    } else if k == 2 {
      assert t[2] == '=' && t[3] == '=';
    } else if k == 1 {
      assert t[2] != '=' && t[3] == '=';
    }
  }

  lemma {:induction false} PlainDecodes(s: string, k: nat)
    requires Plain(s) && k <= 3 && (|s| + k) % 4 == 0
    ensures DecodesPlainly(s, k)
    decreases |s|
  {
    hide DecodesPlainly;
    if |s| >= 4 {
      PlainDecodes(s[4..], k);
      PlainGroup(s, k);
    } else {
      PlainLast(s, k);
    }
  }

  lemma NoDigits()
    ensures Digits([]) == ""
  {
  }

  lemma EqualsHasNoValue()
    ensures ValueOf('=') == None
  {
  }

  lemma {:induction false} EqualsAre(n: nat)
    ensures |Equals(n)| == n && forall i | 0 <= i < n :: Equals(n)[i] == '='
  {
    if n > 0 {
      EqualsAre(n - 1);
    }
  }

  /** The encoding with the lowest bit of its last character changed. */
  function Respelled(data: seq<byte>): string {
    if data == [] then ""
    else if |data| == 1 then
      var q := Sextets(data[0], 0, 0);
      [CharOf(q.0), CharOf(Neighbour(q.1))]
    else if |data| == 2 then
      var q := Sextets(data[0], data[1], 0);
      [CharOf(q.0), CharOf(q.1), CharOf(Neighbour(q.2))]
    else
      var q := Sextets(data[0], data[1], data[2]);
      [CharOf(q.0), CharOf(q.1), CharOf(q.2), CharOf(q.3)] + Respelled(data[3..])
  }

  /** Another plain text of the same length decodes to the data. */
  ghost predicate IsRespelled(data: seq<byte>) {
    && DecodePadded(Respelled(data) + Padding(|data|)) == Some(data)
    && Plain(Respelled(data)) && Respelled(data) != Digits(data) && |Respelled(data)| == |Digits(data)|
  }

  lemma ShortRespelled(data: seq<byte>)
    requires 1 <= |data| <= 2
    ensures var q := Sextets(data[0], if |data| == 1 then 0 else data[1], 0);
            Respelled(data) == if |data| == 1 then [CharOf(q.0), CharOf(Neighbour(q.1))]
                               else [CharOf(q.0), CharOf(q.1), CharOf(Neighbour(q.2))]
  {
    hide Sextets, CharOf, Neighbour;
  }

  lemma CharsDiffer(v: sextet)
    ensures CharOf(Neighbour(v)) != CharOf(v)
  {
    ValueOfCharOf(v);
    ValueOfCharOf(Neighbour(v));
    hide CharOf, ValueOf;
  }

  lemma RespelledOne(data: seq<byte>)
    requires |data| == 1
    ensures IsRespelled(data)
  {
    assert Padding(1) == "==";
    hide *;
    var q := Sextets(data[0], 0, 0);
    OneByteBits(data[0]);
    OneByteDigits(data);
    ShortRespelled(data);
    CharsDiffer(q.1);
    ValueOfCharOf(q.0);
    ValueOfCharOf(Neighbour(q.1));
    var c0, c1 := CharOf(q.0), CharOf(Neighbour(q.1));
    DecodesOne(c0, c1);
    PlainShort(c0, c1, c1);
    assert [c0, c1] + "==" == [c0, c1, '=', '='];
    assert data == [data[0]];
    assert [c0, c1][1] != [c0, CharOf(q.1)][1];
  }

  lemma PlainShort(c0: char, c1: char, c2: char)
    requires c0 != '=' && c1 != '=' && c2 != '=' && c0 != '.' && c1 != '.' && c2 != '.'
    ensures Plain([c0, c1]) && Plain([c0, c1, c2])
  {
  }

  lemma RespelledTwo(data: seq<byte>)
    requires |data| == 2
    ensures IsRespelled(data)
  {
    assert Padding(2) == "=";
    hide *;
    var q := Sextets(data[0], data[1], 0);
    TwoBytesBits(data[0], data[1]);
    TwoBytesDigits(data);
    ShortRespelled(data);
    CharsDiffer(q.2);
    ValueOfCharOf(q.0);
    ValueOfCharOf(q.1);
    ValueOfCharOf(Neighbour(q.2));
    var c0, c1, c2 := CharOf(q.0), CharOf(q.1), CharOf(Neighbour(q.2));
    DecodesTwo(c0, c1, c2);
    PlainShort(c0, c1, c2);
    assert [c0, c1, c2] + "=" == [c0, c1, c2, '='];
    assert data == [data[0], data[1]];
    assert [c0, c1, c2][2] != [c0, c1, CharOf(q.2)][2];
  }

  lemma PlainAppend(a: string, b: string)
    requires Plain(a) && Plain(b)
    ensures Plain(a + b)
  {
  }

  lemma GroupRespells(data: seq<byte>)
    requires |data| > 2 && |data| % 3 != 0
    ensures var q := Sextets(data[0], data[1], data[2]);
            var group := [CharOf(q.0), CharOf(q.1), CharOf(q.2), CharOf(q.3)];
            Respelled(data) == group + Respelled(data[3..]) && Digits(data) == group + Digits(data[3..])
  {
    hide Sextets, CharOf;
  }

  lemma RespelledGroup(data: seq<byte>)
    requires |data| > 2 && |data| % 3 != 0
    ensures IsRespelled(data[3..]) ==> IsRespelled(data)
  {
    SamePadding(|data|);
    hide DecodePadded, Respelled, Padding, Plain, Digits, Sextets, CharOf;
    if IsRespelled(data[3..]) {
      var q := Sextets(data[0], data[1], data[2]);
      var group := [CharOf(q.0), CharOf(q.1), CharOf(q.2), CharOf(q.3)];
      var rest, padding := data[3..], Padding(|data|);
      GroupRespells(data);
      GroupDecodes(data[0], data[1], data[2], Respelled(rest) + padding, rest);
      AppendAssociates(group, Respelled(rest), padding);
      PlainAppend(group, Respelled(rest));
      AppendCancels(group, Respelled(rest), Digits(rest));
      FirstThree(data);
    }
  }

  lemma SamePadding(n: nat)
    requires n > 2
    ensures Padding(n) == Padding(n - 3)
  {
  }

  lemma {:induction false} RespelledDecodes(data: seq<byte>)
    requires |data| % 3 != 0
    ensures IsRespelled(data)
    decreases |data|
  {
    hide *;
    if |data| == 1 {
      RespelledOne(data);
    } else if |data| == 2 {
      RespelledTwo(data);
    } else {
      RespelledDecodes(data[3..]);
      RespelledGroup(data);
    }
  }

  /** The padding that the decoder adds. */
  lemma DecodeAdds(s: string) returns (k: nat)
    ensures k <= 3 && (|s| + k) % 4 == 0 && Decode(s) == DecodePadded(s + Equals(k))
  {
    hide DecodePadded;
    k := if |s| % 4 == 0 then 0 else 4 - |s| % 4;
    assert s + "" == s;
  }

  lemma UniqueSpelling(s: string, data: seq<byte>)
    requires Plain(s) && Decode(s) == Some(data) && |data| % 3 == 0
    ensures s == Encode(data)
  {
    hide *;
    var k := DecodeAdds(s);
    PlainDecodes(s, k);
    WholeGroups(s, k, data);
    StripPadding(data);
  }

  lemma {:induction false} WholeGroups(s: string, k: nat, data: seq<byte>)
    requires |data| % 3 == 0
    ensures DecodesPlainly(s, k) && DecodePadded(s + Equals(k)) == Some(data) ==> Digits(data) == s
  {
    hide DecodePadded, Digits, Equals;
  }

  /** Only whole groups of three bytes are spelled in one way without padding; the decoder ignores
      the last bits of a shorter final group. */
  lemma SpellingUniqueIff(data: seq<byte>)
    ensures (forall s | Plain(s) && Decode(s) == Some(data) :: s == Encode(data)) <==> |data| % 3 == 0
  {
    hide Decode, Encode, Plain, Respelled;
    if |data| % 3 == 0 {
      forall s | Plain(s) && Decode(s) == Some(data)
        ensures s == Encode(data)
      {
        UniqueSpelling(s, data);
      }
    } else {
      OtherSpelling(data);
    }
  }

  lemma {:induction false} OtherSpelling(data: seq<byte>)
    requires |data| % 3 != 0
    ensures Plain(Respelled(data)) && Respelled(data) != Encode(data) && Decode(Respelled(data)) == Some(data)
  {
    StripPadding(data);
    DigitsLength(data);
    hide Digits, DecodePadded, Encode, Equals, Padding, Respelled;
    RespelledDecodes(data);
    Repad(Respelled(data), |data|);
  }

  // ---------------------------------------------------------------------------------------------
  // The encoding is that of the standard

  const UPPER: string := "ABCDEFGHIJKLMNOPQRSTUVWXYZ"
  const LOWER: string := "abcdefghijklmnopqrstuvwxyz"
  const NUMERALS: string := "0123456789"

  /** The alphabet, in the order of the sextets. */
  const ALPHABET: string := UPPER + LOWER + NUMERALS + "-_"

  lemma AlphabetListed(v: sextet)
    ensures |ALPHABET| == 64 && ALPHABET[v] == CharOf(v)
  {
    assert forall i | 0 <= i < 26 :: UPPER[i] == ('A' as int + i) as char;
    assert forall i | 0 <= i < 26 :: LOWER[i] == ('a' as int + i) as char;
    assert forall i | 0 <= i < 10 :: NUMERALS[i] == ('0' as int + i) as char;
  }

  function ByteAt(data: seq<byte>, i: nat): byte { if i < |data| then data[i] else 0 }

  /** The 24 bits of group `g`, with zeros behind the end of the data. */
  function Group(data: seq<byte>, g: nat): nat {
    65536 * ByteAt(data, 3 * g) + 256 * ByteAt(data, 3 * g + 1) + ByteAt(data, 3 * g + 2)
  }

  /** The six bits in place `i` of 24. */
  function SixBits(n: nat, i: nat): sextet {
    if i == 0 then n / 262144 % 64 else if i == 1 then n / 4096 % 64 else if i == 2 then n / 64 % 64 else n % 64
  }

  lemma SixBitsOf(q0: int, q1: int, q2: int, q3: int)
    requires 0 <= q0 < 64 && 0 <= q1 < 64 && 0 <= q2 < 64 && 0 <= q3 < 64
    ensures var n := 262144 * q0 + 4096 * q1 + 64 * q2 + q3;
            SixBits(n, 0) == q0 && SixBits(n, 1) == q1 && SixBits(n, 2) == q2 && SixBits(n, 3) == q3
  {
    var n := 262144 * q0 + 4096 * q1 + 64 * q2 + q3;
    assert n / 262144 == q0;
    assert n / 4096 == 64 * q0 + q1;
    assert n / 64 == 4096 * q0 + 64 * q1 + q2;
  }

  lemma SextetsNumber(b0: int, b1: int, b2: int)
    requires 0 <= b0 < 256 && 0 <= b1 < 256 && 0 <= b2 < 256
    ensures 65536 * b0 + 256 * b1 + b2 ==
            262144 * (b0 / 4) + 4096 * (b0 % 4 * 16 + b1 / 16) + 64 * (b1 % 16 * 4 + b2 / 64) + b2 % 64
  {
  }

  lemma GroupSextets(b0: byte, b1: byte, b2: byte)
    ensures var q, n := Sextets(b0, b1, b2), 65536 * b0 + 256 * b1 + b2;
            q.0 == SixBits(n, 0) && q.1 == SixBits(n, 1) && q.2 == SixBits(n, 2) && q.3 == SixBits(n, 3)
  {
    SextetsNumber(b0, b1, b2);
    var q := Sextets(b0, b1, b2);
    SixBitsOf(q.0, q.1, q.2, q.3);
    hide SixBits;
  }

  /** The characters of the first group, of which there are one more than bytes. */
  lemma FirstGroup(data: seq<byte>, k: nat)
    requires data != [] && k < Min(|data| + 1, 4)
    ensures k < |Digits(data)| && Digits(data)[k] == CharOf(SixBits(Group(data, 0), k))
  {
    GroupSextets(data[0], ByteAt(data, 1), ByteAt(data, 2));
    hide CharOf, Sextets, SixBits;
  }

  lemma GroupsShift(data: seq<byte>, g: nat)
    requires 3 <= |data| && 0 < g
    ensures Group(data, g) == Group(data[3..], g - 1)
  {
  }

  lemma {:induction false} DigitsCount(data: seq<byte>)
    ensures |Digits(data)| == (4 * |data| + 2) / 3
    decreases |data|
  {
    hide CharOf, Sextets;
    if |data| > 2 {
      DigitsCount(data[3..]);
    }
  }

  lemma LaterGroup(data: seq<byte>, k: nat)
    requires 3 <= |data| && 4 <= k < |Digits(data)|
    ensures k - 4 < |Digits(data[3..])| && Digits(data)[k] == Digits(data[3..])[k - 4]
  {
    hide CharOf, Sextets;
  }

  lemma {:induction false} DigitsAt(data: seq<byte>, k: nat)
    requires k < |Digits(data)|
    ensures Digits(data)[k] == CharOf(SixBits(Group(data, k / 4), k % 4))
    decreases |data|
  {
    DigitsCount(data);
    hide Digits, CharOf, SixBits, Group;
    if k < 4 {
      FirstGroup(data, k);
    } else {
      LaterGroup(data, k);
      DigitsAt(data[3..], k - 4);
      GroupsShift(data, k / 4);
      assert (k - 4) / 4 == k / 4 - 1 && (k - 4) % 4 == k % 4;
    }
  }

  /** Section 4 of RFC 4648: every 24 bits, with zeros behind the end, are four indices into the
      alphabet, and what is left of the last ones, without padding, takes two or three characters. */
  lemma EncodeIsStandard(data: seq<byte>, k: nat)
    ensures |Encode(data)| == (4 * |data| + 2) / 3 && |ALPHABET| == 64
    ensures k < |Encode(data)| ==> Encode(data)[k] == ALPHABET[SixBits(Group(data, k / 4), k % 4)]
  {
    StripPadding(data);
    DigitsCount(data);
    AlphabetListed(SixBits(Group(data, k / 4), k % 4));
    hide *;
    if k < |Encode(data)| {
      DigitsAt(data, k);
    }
  }
}
