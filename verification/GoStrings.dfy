/** Go's `string`: an arbitrary byte sequence that `[]rune(s)`, `range s` and
    `string(runes)` read and write as UTF-8. */
module GoStrings {
  type byte = x: int | 0 <= x < 0x100
  type uint16 = x: int | 0 <= x < 0x1_0000
  type uint32 = x: int | 0 <= x < 0x1_0000_0000
  type GoString = seq<byte>

  /** A Unicode scalar value.  Every rune Go decodes from a string is one. */
  type rune = r: int | 0 <= r < 0xD800 || 0xE000 <= r < 0x11_0000

  const RUNE_ERROR: rune := 0xFFFD

  function EncodeRune(r: rune): (s: GoString)
    ensures 1 <= |s| <= 4
  {
    var n: int := r;
    if n < 0x80 then [n]
    else if n < 0x800 then [Lead(0xC0, n / 0x40), Tail(n, 1)]
    else if n < 0x1_0000 then [Lead(0xE0, n / 0x1000), Tail(n, 0x40), Tail(n, 1)]
    else [Lead(0xF0, n / 0x4_0000), Tail(n, 0x1000), Tail(n, 0x40), Tail(n, 1)]
  }

  function Lead(mark: int, high: int): (b: byte)
    requires 0xC0 <= mark && 0 <= high && mark + high < 0x100
  {
    mark + high
  }

  /** The continuation byte holding the six bits of n from the given unit on. */
  function Tail(n: nat, unit: nat): (b: byte)
    requires unit > 0
  {
    0x80 + n / unit % 0x40
  }

  /** The first rune of a string and the bytes it takes.  A byte that starts no
      well-formed sequence is skipped alone and reads as RUNE_ERROR. */
  datatype Decoded = Decoded(r: rune, size: nat)

  predicate IsTail(s: GoString, i: nat) {
    i < |s| && 0x80 <= s[i] < 0xC0
  }

  function DecodeRune(s: GoString): (d: Decoded)
    requires s != []
    ensures 1 <= d.size <= |s|
  {
    var b: int := s[0];
    if b < 0x80 then Decoded(b, 1)
    else if 0xC2 <= b < 0xE0 && IsTail(s, 1) then
      Decoded(Join(b - 0xC0, s[1]), 2)
    else if 0xE0 <= b < 0xF0 && IsTail(s, 1) && IsTail(s, 2)
            && (b == 0xE0 ==> s[1] >= 0xA0) && (b == 0xED ==> s[1] < 0xA0) then
      Decoded(Join(Join(b - 0xE0, s[1]), s[2]), 3)
    else if 0xF0 <= b < 0xF5 && IsTail(s, 1) && IsTail(s, 2) && IsTail(s, 3)
            && (b == 0xF0 ==> s[1] >= 0x90) && (b == 0xF4 ==> s[1] < 0x90) then
      Decoded(Join(Join(Join(b - 0xF0, s[1]), s[2]), s[3]), 4)
    else Decoded(RUNE_ERROR, 1)
  }

  function Join(high: int, tail: int): int {
    high * 0x40 + (tail - 0x80)
  }

  /** `[]rune(s)` */
  function RunesOf(s: GoString): (rs: seq<rune>)
    ensures |rs| <= |s|
  {
    if s == [] then []
    else
      var d := DecodeRune(s);
      [d.r] + RunesOf(s[d.size..])
  }

  /** `string(rs)` */
  function StringOf(rs: seq<rune>): (s: GoString)
    ensures |s| >= |rs|
  {
    if rs == [] then [] else EncodeRune(rs[0]) + StringOf(rs[1..])
  }

  /** `utf8.ValidString(s)` */
  predicate ValidString(s: GoString) {
    s == [] ||
    var d := DecodeRune(s);
    d != Decoded(RUNE_ERROR, 1) && ValidString(s[d.size..])
  }

  lemma DecodeEncodeRune(r: rune, t: GoString)
    ensures DecodeRune(EncodeRune(r) + t) == Decoded(r, |EncodeRune(r)|)
  {
    var s, n: int := EncodeRune(r) + t, r;
    if n < 0x80 {
    } else if n < 0x800 {
      assert s[0] == Lead(0xC0, n / 0x40) && s[1] == Tail(n, 1);
    } else if n < 0x1_0000 {
      assert s[0] == Lead(0xE0, n / 0x1000) && s[1] == Tail(n, 0x40) && s[2] == Tail(n, 1);
      DecodeThreeBytes(r, s);
    } else {
      assert s[0] == Lead(0xF0, n / 0x4_0000) && s[1] == Tail(n, 0x1000);
      assert s[2] == Tail(n, 0x40) && s[3] == Tail(n, 1);
      DecodeFourBytes(r, s);
    }
  }

  lemma DecodeThreeBytes(r: rune, s: GoString)
    requires 0x800 <= r < 0x1_0000 && |s| >= 3
    requires s[0] == Lead(0xE0, r / 0x1000) && s[1] == Tail(r, 0x40) && s[2] == Tail(r, 1)
    ensures DecodeRune(s) == Decoded(r, 3)
  {
    assert Join(r / 0x1000, s[1]) == r / 0x40;
  }

  lemma DecodeFourBytes(r: rune, s: GoString)
    requires 0x1_0000 <= r && |s| >= 4
    requires s[0] == Lead(0xF0, r / 0x4_0000) && s[1] == Tail(r, 0x1000)
    requires s[2] == Tail(r, 0x40) && s[3] == Tail(r, 1)
    ensures DecodeRune(s) == Decoded(r, 4)
  {
    assert Join(r / 0x4_0000, s[1]) == r / 0x1000;
    assert Join(r / 0x1000, s[2]) == r / 0x40;
  }

  lemma JoinParts(high: int, tail: int)
    requires 0x80 <= tail < 0xC0
    ensures Join(high, tail) / 0x40 == high && 0x80 + Join(high, tail) % 0x40 == tail
  {
  }

  lemma EncodeDecodeRune(s: GoString)
    requires s != [] && DecodeRune(s) != Decoded(RUNE_ERROR, 1)
    ensures EncodeRune(DecodeRune(s).r) == s[..DecodeRune(s).size]
  {
    var d := DecodeRune(s);
    if d.size == 2 {
      JoinParts(s[0] - 0xC0, s[1]);
    } else if d.size == 3 {
      EncodeThreeBytes(s, d.r);
    } else if d.size == 4 {
      EncodeFourBytes(s, d.r);
    }
  }

  lemma EncodeThreeBytes(s: GoString, r: rune)
    requires |s| >= 3 && DecodeRune(s) == Decoded(r, 3)
    ensures EncodeRune(r) == s[..3]
  {
    var high := s[0] - 0xE0;
    JoinParts(high, s[1]);
    JoinParts(Join(high, s[1]), s[2]);
    assert r / 0x1000 == r / 0x40 / 0x40;
  }

  lemma EncodeFourBytes(s: GoString, r: rune)
    requires |s| >= 4 && DecodeRune(s) == Decoded(r, 4)
    ensures EncodeRune(r) == s[..4]
  {
    var high := s[0] - 0xF0;
    JoinParts(high, s[1]);
    JoinParts(Join(high, s[1]), s[2]);
    JoinParts(Join(Join(high, s[1]), s[2]), s[3]);
    assert r / 0x4_0000 == r / 0x1000 / 0x40 && r / 0x1000 == r / 0x40 / 0x40;
  }

  lemma RunesOfStep(r: rune, t: GoString)
    ensures RunesOf(EncodeRune(r) + t) == [r] + RunesOf(t)
    ensures ValidString(EncodeRune(r) + t) == ValidString(t)
  {
    var head := EncodeRune(r);
    DecodeEncodeRune(r, t);
    assert (head + t)[|head|..] == t;
    assert r == RUNE_ERROR ==> |head| == 3;
  }

  /** Encoding is prefix-free: decoding stops at every rune boundary. */
  lemma {:induction false} RunesOfAppend(rs: seq<rune>, t: GoString)
    ensures RunesOf(StringOf(rs) + t) == rs + RunesOf(t)
  {
    if rs == [] {
      assert StringOf(rs) + t == t;
    } else {
      var rest := StringOf(rs[1..]) + t;
      RunesOfStep(rs[0], rest);
      RunesOfAppend(rs[1..], t);
      StringOfAppend(rs, t);
      ConsAppend(rs, RunesOf(t));
    }
  }

  lemma Associate<T>(xs: seq<T>, ys: seq<T>, zs: seq<T>)
    ensures (xs + ys) + zs == xs + (ys + zs)
  {
  }

  lemma ConsAppend<T>(xs: seq<T>, ys: seq<T>)
    requires xs != []
    ensures [xs[0]] + (xs[1..] + ys) == xs + ys
  {
  }

  lemma {:induction false} ValidStringAppend(rs: seq<rune>, t: GoString)
    ensures ValidString(StringOf(rs) + t) == ValidString(t)
  {
    if rs == [] {
      assert StringOf(rs) + t == t;
    } else {
      var rest := StringOf(rs[1..]) + t;
      RunesOfStep(rs[0], rest);
      ValidStringAppend(rs[1..], t);
      StringOfAppend(rs, t);
    }
  }

  lemma StringOfAppend(rs: seq<rune>, t: GoString)
    requires rs != []
    ensures StringOf(rs) + t == EncodeRune(rs[0]) + (StringOf(rs[1..]) + t)
  {
  }

  /** string(rs) is valid UTF-8 and decodes to rs: splitting at rune boundaries loses nothing. */
  lemma RunesOfStringOf(rs: seq<rune>)
    ensures RunesOf(StringOf(rs)) == rs
    ensures ValidString(StringOf(rs))
  {
    RunesOfAppend(rs, []);
    ValidStringAppend(rs, []);
    assert StringOf(rs) + [] == StringOf(rs);
  }

  lemma {:induction false} StringOfRunesOfValid(s: GoString)
    requires ValidString(s)
    ensures StringOf(RunesOf(s)) == s
  {
    if s != [] {
      EncodeDecodeRune(s);
      StringOfRunesOfValid(s[DecodeRune(s).size..]);
    }
  }

  /** string([]rune(s)) == s exactly for valid UTF-8. */
  lemma StringOfRunesOf(s: GoString)
    ensures StringOf(RunesOf(s)) == s <==> ValidString(s)
  {
    RunesOfStringOf(RunesOf(s));
    if ValidString(s) {
      StringOfRunesOfValid(s);
    }
  }

  lemma {:induction false} StringOfConcat(a: seq<rune>, b: seq<rune>)
    ensures StringOf(a + b) == StringOf(a) + StringOf(b)
  {
    if a == [] {
      assert a + b == b;
    } else {
      assert (a + b)[1..] == a[1..] + b;
      StringOfConcat(a[1..], b);
    }
  }

  /** The bytes of an ASCII literal. */
  function Ascii(s: string): (b: GoString)
    requires forall i | 0 <= i < |s| :: s[i] < 128 as char
    ensures |b| == |s| && forall i | 0 <= i < |s| :: b[i] == s[i] as int
  {
    seq(|s|, i requires 0 <= i < |s| => s[i] as int)
  }

  /** `%d` of a natural number. */
  function Decimal(n: nat): (s: GoString)
    ensures s != [] && forall i | 0 <= i < |s| :: 0x30 <= s[i] <= 0x39
  {
    if n < 10 then [0x30 + n] else Decimal(n / 10) + [0x30 + n % 10]
  }

  // ---------------------------------------------------------------- in octets

  /** The octets of UTF-8 (section 3 of RFC 3629). */
  lemma Utf8Octets(r: rune)
    ensures r < 0x80 ==> EncodeRune(r) == [r as int]
    ensures 0x80 <= r < 0x800 ==> EncodeRune(r) == [192 + r / 64, 128 + r % 64]
    ensures 0x800 <= r < 0x1_0000 ==> EncodeRune(r) == [224 + r / 4096, 128 + r / 64 % 64, 128 + r % 64]
    ensures 0x1_0000 <= r ==>
              EncodeRune(r) == [240 + r / 262144, 128 + r / 4096 % 64, 128 + r / 64 % 64, 128 + r % 64]
  {
  }

  /** The number that decimal digits stand for. */
  function ReadDecimal(digits: GoString): int {
    if digits == [] then 0 else ReadDecimal(digits[..|digits| - 1]) * 10 - 48 + digits[|digits| - 1]
  }

  lemma {:induction false} DecimalReadsBack(n: nat)
    ensures ReadDecimal(Decimal(n)) == n
    ensures Decimal(n)[0] == 48 ==> n == 0
  {
    if n >= 10 {
      DecimalReadsBack(n / 10);
      assert Decimal(n)[..|Decimal(n)| - 1] == Decimal(n / 10);
    } else {
      assert Decimal(n)[..0] == [];
    }
  }

  /** Different numbers behind one prefix. */
  lemma NumberedApart(prefix: GoString, i: nat, j: nat)
    requires i != j
    ensures prefix + Decimal(i) != prefix + Decimal(j)
  {
    DecimalReadsBack(i);
    DecimalReadsBack(j);
    assert (prefix + Decimal(i))[|prefix|..] == Decimal(i) && (prefix + Decimal(j))[|prefix|..] == Decimal(j);
  }
}
