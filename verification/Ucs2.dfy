/** UCS2 payloads: UTF-16 code units, most significant octet first. */
module Ucs2 {
  import opened GoStrings

  predicate IsHighSurrogate(u: uint16) { 0xD800 <= u < 0xDC00 }
  predicate IsLowSurrogate(u: uint16) { 0xDC00 <= u < 0xE000 }

  /** The code units of one rune (section 2.1 of RFC 2781). */
  function UnitsOfRune(r: rune): (us: seq<uint16>)
    ensures 1 <= |us| <= 2
  {
    var n: int := r;
    if n < 0x1_0000 then [n]
    else [Surrogate(0xD800, (n - 0x1_0000) / 0x400), Surrogate(0xDC00, (n - 0x1_0000) % 0x400)]
  }

  function Surrogate(mark: int, bits: int): (u: uint16)
    requires mark == 0xD800 || mark == 0xDC00
    requires 0 <= bits < 0x400
  {
    mark + bits
  }

  /** `utf16.Encode` */
  function Utf16Encode(rs: seq<rune>): (us: seq<uint16>)
    ensures |us| >= |rs|
  {
    if rs == [] then [] else UnitsOfRune(rs[0]) + Utf16Encode(rs[1..])
  }

  predicate StartsPair(us: seq<uint16>) {
    |us| >= 2 && IsHighSurrogate(us[0]) && IsLowSurrogate(us[1])
  }

  function JoinPair(high: uint16, low: uint16): (r: rune)
    requires IsHighSurrogate(high) && IsLowSurrogate(low)
    ensures r >= 0x1_0000
  {
    var h: int, l: int := high, low;
    0x1_0000 + (h - 0xD800) * 0x400 + (l - 0xDC00)
  }

  /** `utf16.Decode`: a surrogate without its partner reads as RUNE_ERROR. */
  function Utf16Decode(us: seq<uint16>): (rs: seq<rune>)
    ensures |rs| <= |us|
  {
    if us == [] then []
    else if StartsPair(us) then [JoinPair(us[0], us[1])] + Utf16Decode(us[2..])
    else if IsHighSurrogate(us[0]) || IsLowSurrogate(us[0]) then [RUNE_ERROR] + Utf16Decode(us[1..])
    else [us[0] as int as rune] + Utf16Decode(us[1..])
  }

  /** Surrogate pairs and all: decoding undoes encoding for every rune sequence. */
  lemma {:induction false} Utf16RoundTrip(rs: seq<rune>)
    ensures Utf16Decode(Utf16Encode(rs)) == rs
  {
    if rs != [] {
      var us := Utf16Encode(rs);
      Utf16RoundTrip(rs[1..]);
      if rs[0] < 0x1_0000 {
        assert us[1..] == Utf16Encode(rs[1..]);
      } else {
        assert us[2..] == Utf16Encode(rs[1..]);
      }
    }
  }

  lemma {:induction false} Utf16EncodeConcat(a: seq<rune>, b: seq<rune>)
    ensures Utf16Encode(a + b) == Utf16Encode(a) + Utf16Encode(b)
  {
    if a == [] {
      assert a + b == b;
    } else {
      assert (a + b)[1..] == a[1..] + b;
      Utf16EncodeConcat(a[1..], b);
    }
  }

  /** Decoding keeps the number of code units only where it joins no pair. */
  lemma {:induction false} DecodedWithoutPairs(us: seq<uint16>)
    requires |Utf16Decode(us)| == |us|
    ensures forall i | 0 <= i < |us| :: Utf16Decode(us)[i] < 0x1_0000
  {
    if us != [] && !StartsPair(us) {
      DecodedWithoutPairs(us[1..]);
      forall i | 0 < i < |us| ensures Utf16Decode(us)[i] < 0x1_0000 {
        assert Utf16Decode(us)[i] == Utf16Decode(us[1..])[i - 1];
      }
    }
  }

  /** Each code unit as two octets. */
  function BigEndian(us: seq<uint16>): (bs: seq<byte>)
    ensures |bs| == 2 * |us|
  {
    if us == [] then [] else [High(us[0]), Low(us[0])] + BigEndian(us[1..])
  }

  function High(u: uint16): byte { u / 0x100 }
  function Low(u: uint16): byte { u % 0x100 }

  function FromOctets(high: byte, low: byte): uint16 {
    var h: int := high;
    h * 0x100 + low
  }

  /** Octet pairs as code units. */
  function Units(bs: seq<byte>): (us: seq<uint16>)
    requires |bs| % 2 == 0
    ensures |us| == |bs| / 2
  {
    if bs == [] then [] else [FromOctets(bs[0], bs[1])] + Units(bs[2..])
  }

  lemma {:induction false} UnitsBigEndian(us: seq<uint16>)
    ensures Units(BigEndian(us)) == us
  {
    if us != [] {
      assert BigEndian(us)[2..] == BigEndian(us[1..]);
      UnitsBigEndian(us[1..]);
    }
  }

  lemma {:induction false} BigEndianConcat(a: seq<uint16>, b: seq<uint16>)
    ensures BigEndian(a + b) == BigEndian(a) + BigEndian(b)
  {
    if a == [] {
      assert a + b == b;
    } else {
      assert (a + b)[1..] == a[1..] + b;
      BigEndianConcat(a[1..], b);
    }
  }

  /** The octets UCS2 sends for a rune sequence. */
  function Ucs2Encode(rs: seq<rune>): seq<byte> {
    BigEndian(Utf16Encode(rs))
  }

  function Ucs2Decode(bs: seq<byte>): seq<rune>
    requires |bs| % 2 == 0
  {
    Utf16Decode(Units(bs))
  }

  /** Lossless on all Unicode text, and compatible with cutting the text between runes. */
  lemma Ucs2RoundTrip(a: seq<rune>, b: seq<rune>)
    ensures Ucs2Decode(Ucs2Encode(a)) == a
    ensures Ucs2Encode(a + b) == Ucs2Encode(a) + Ucs2Encode(b)
  {
    UnitsBigEndian(Utf16Encode(a));
    Utf16RoundTrip(a);
    Utf16EncodeConcat(a, b);
    BigEndianConcat(Utf16Encode(a), Utf16Encode(b));
  }

  /** The octets of UTF-16 (section 2.1 of RFC 2781), most significant first. */
  lemma Utf16Octets(r: rune)
    ensures r < 0x1_0000 ==> Ucs2Encode([r]) == [r / 256, r % 256]
    ensures r >= 0x1_0000 ==>
              var u: int := r - 0x1_0000;
              Ucs2Encode([r]) == [216 + u / 1024 / 256, u / 1024 % 256, 220 + u % 1024 / 256, u % 1024 % 256]
  {
    assert [r][1..] == [];
    var us := UnitsOfRune(r);
    assert Utf16Encode([r]) == us + Utf16Encode([]) == us;
    if r < 0x1_0000 {
      assert us == [r as int];
      assert BigEndian(us) == [High(us[0]), Low(us[0])] + BigEndian([]);
    } else {
      assert us[1..] == [us[1]] && us[1..][1..] == [];
      assert BigEndian(us) == [High(us[0]), Low(us[0])] + BigEndian(us[1..]);
      assert BigEndian(us[1..]) == [High(us[1]), Low(us[1])] + BigEndian([]);
    }
  }
}
