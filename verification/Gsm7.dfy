/** The GSM 7-bit default alphabet and its extension table (sections 6.2.1 and 6.2.1.1 of
    3GPP TS 23.038), one octet per septet, and the codec over them. */
module Gsm7 {
  import opened GoStrings

  const ESC: byte := 0x1B
  const SPACE: rune := 0x20
  const QUESTION_MARK: rune := 0x3F

  /** The two tables and the reverse tables derived from them. */
  datatype Alphabet = Alphabet(
    basic: map<rune, byte>, extended: map<rune, byte>,
    basicReverse: map<byte, rune>, extendedReverse: map<byte, rune>)
  {
    /** What the codec relies on: each table inverts its reverse, no rune is in both tables,
        every code is a septet, and the escape code is the code of U+001B alone. */
    ghost predicate Valid() {
      && Inverse(basic, basicReverse)
      && Inverse(extended, extendedReverse)
      && basic.Keys !! extended.Keys
      && (forall b :: b in basicReverse || b in extendedReverse ==> b < 0x80)
      && 0x1B in basic && basic[0x1B] == ESC
      && SPACE in basic && basic[SPACE] == 0x20
      && QUESTION_MARK in basic
    }

    predicate Supports(r: rune) {
      r in basic || r in extended
    }
  }

  ghost predicate Inverse(table: map<rune, byte>, reverse: map<byte, rune>) {
    && (forall r :: r in table ==> table[r] in reverse && reverse[table[r]] == r)
    && (forall b :: b in reverse ==> reverse[b] in table && table[reverse[b]] == b)
  }

  const ROW_0: map<rune, byte> := map[
    0x40 := 0x00, 0xA3 := 0x01, 0x24 := 0x02, 0xA5 := 0x03, 0xE8 := 0x04, 0xE9 := 0x05, 0xF9 := 0x06, 0xEC := 0x07,
    0xF2 := 0x08, 0xC7 := 0x09, 0x0A := 0x0A, 0xD8 := 0x0B, 0xF8 := 0x0C, 0x0D := 0x0D, 0xC5 := 0x0E, 0xE5 := 0x0F]

  const ROW_1: map<rune, byte> := map[
    0x394 := 0x10, 0x5F := 0x11, 0x3A6 := 0x12, 0x393 := 0x13, 0x39B := 0x14, 0x3A9 := 0x15, 0x3A0 := 0x16, 0x3A8 := 0x17,
    0x3A3 := 0x18, 0x398 := 0x19, 0x39E := 0x1A, 0x1B := 0x1B, 0xC6 := 0x1C, 0xE6 := 0x1D, 0xDF := 0x1E, 0xC9 := 0x1F]

  const ROW_2: map<rune, byte> := map[
    0x20 := 0x20, 0x21 := 0x21, 0x22 := 0x22, 0x23 := 0x23, 0xA4 := 0x24, 0x25 := 0x25, 0x26 := 0x26, 0x27 := 0x27,
    0x28 := 0x28, 0x29 := 0x29, 0x2A := 0x2A, 0x2B := 0x2B, 0x2C := 0x2C, 0x2D := 0x2D, 0x2E := 0x2E, 0x2F := 0x2F]

  const ROW_3: map<rune, byte> := map[
    0x30 := 0x30, 0x31 := 0x31, 0x32 := 0x32, 0x33 := 0x33, 0x34 := 0x34, 0x35 := 0x35, 0x36 := 0x36, 0x37 := 0x37,
    0x38 := 0x38, 0x39 := 0x39, 0x3A := 0x3A, 0x3B := 0x3B, 0x3C := 0x3C, 0x3D := 0x3D, 0x3E := 0x3E, 0x3F := 0x3F]

  const ROW_4: map<rune, byte> := map[
    0xA1 := 0x40, 0x41 := 0x41, 0x42 := 0x42, 0x43 := 0x43, 0x44 := 0x44, 0x45 := 0x45, 0x46 := 0x46, 0x47 := 0x47,
    0x48 := 0x48, 0x49 := 0x49, 0x4A := 0x4A, 0x4B := 0x4B, 0x4C := 0x4C, 0x4D := 0x4D, 0x4E := 0x4E, 0x4F := 0x4F]

  const ROW_5: map<rune, byte> := map[
    0x50 := 0x50, 0x51 := 0x51, 0x52 := 0x52, 0x53 := 0x53, 0x54 := 0x54, 0x55 := 0x55, 0x56 := 0x56, 0x57 := 0x57,
    0x58 := 0x58, 0x59 := 0x59, 0x5A := 0x5A, 0xC4 := 0x5B, 0xD6 := 0x5C, 0xD1 := 0x5D, 0xDC := 0x5E, 0xA7 := 0x5F]

  const ROW_6: map<rune, byte> := map[
    0xBF := 0x60, 0x61 := 0x61, 0x62 := 0x62, 0x63 := 0x63, 0x64 := 0x64, 0x65 := 0x65, 0x66 := 0x66, 0x67 := 0x67,
    0x68 := 0x68, 0x69 := 0x69, 0x6A := 0x6A, 0x6B := 0x6B, 0x6C := 0x6C, 0x6D := 0x6D, 0x6E := 0x6E, 0x6F := 0x6F]

  const ROW_7: map<rune, byte> := map[
    0x70 := 0x70, 0x71 := 0x71, 0x72 := 0x72, 0x73 := 0x73, 0x74 := 0x74, 0x75 := 0x75, 0x76 := 0x76, 0x77 := 0x77,
    0x78 := 0x78, 0x79 := 0x79, 0x7A := 0x7A, 0xE4 := 0x7B, 0xF6 := 0x7C, 0xF1 := 0x7D, 0xFC := 0x7E, 0xE0 := 0x7F]

  const LOW: map<rune, byte> := ROW_0 + ROW_1 + ROW_2 + ROW_3
  const HIGH: map<rune, byte> := ROW_4 + ROW_5 + ROW_6 + ROW_7

  const ALPHABET: map<rune, byte> := LOW + HIGH

  const EXTENDED: map<rune, byte> := map[
    0x0C := 0x0A, 0x5E := 0x14, 0x7B := 0x28, 0x7D := 0x29, 0x5C := 0x2F,
    0x5B := 0x3C, 0x7E := 0x3D, 0x5D := 0x3E, 0x7C := 0x40, 0x20AC := 0x65]

  /** The rune of each code: the oracle the table is checked against. */
  function BasicRune(b: int): int {
    if b == 0x0A || b == 0x0D || b == 0x1B || 0x20 <= b < 0x24 || 0x25 <= b < 0x40
       || 0x41 <= b < 0x5B || 0x61 <= b < 0x7B then b
    else if b < 0x10 then
      if b == 0x00 then 0x40 else if b == 0x01 then 0xA3 else if b == 0x02 then 0x24 else if b == 0x03 then 0xA5
      else if b == 0x04 then 0xE8 else if b == 0x05 then 0xE9 else if b == 0x06 then 0xF9 else if b == 0x07 then 0xEC
      else if b == 0x08 then 0xF2 else if b == 0x09 then 0xC7 else if b == 0x0B then 0xD8 else if b == 0x0C then 0xF8
      else if b == 0x0E then 0xC5 else 0xE5
    else if b < 0x20 then
      if b == 0x10 then 0x394 else if b == 0x11 then 0x5F else if b == 0x12 then 0x3A6 else if b == 0x13 then 0x393
      else if b == 0x14 then 0x39B else if b == 0x15 then 0x3A9 else if b == 0x16 then 0x3A0 else if b == 0x17 then 0x3A8
      else if b == 0x18 then 0x3A3 else if b == 0x19 then 0x398 else if b == 0x1A then 0x39E else if b == 0x1C then 0xC6
      else if b == 0x1D then 0xE6 else if b == 0x1E then 0xDF else 0xC9
    else
      if b == 0x24 then 0xA4 else if b == 0x40 then 0xA1 else if b == 0x5B then 0xC4 else if b == 0x5C then 0xD6
      else if b == 0x5D then 0xD1 else if b == 0x5E then 0xDC else if b == 0x5F then 0xA7 else if b == 0x60 then 0xBF
      else if b == 0x7B then 0xE4 else if b == 0x7C then 0xF6 else if b == 0x7D then 0xF1 else if b == 0x7E then 0xFC
      else 0xE0
  }

  lemma Row0(r: rune, b: int)
    ensures r in ROW_0 ==> 0x00 <= ROW_0[r] < 0x10 && BasicRune(ROW_0[r]) == r
    ensures 0x00 <= b < 0x10 ==> BasicRune(b) in ROW_0
  {}

  lemma Row1(r: rune, b: int)
    ensures r in ROW_1 ==> 0x10 <= ROW_1[r] < 0x20 && BasicRune(ROW_1[r]) == r
    ensures 0x10 <= b < 0x20 ==> BasicRune(b) in ROW_1
  {}

  lemma Row2(r: rune, b: int)
    ensures r in ROW_2 ==> 0x20 <= ROW_2[r] < 0x30 && BasicRune(ROW_2[r]) == r
    ensures 0x20 <= b < 0x30 ==> BasicRune(b) in ROW_2
  {}

  lemma Row3(r: rune, b: int)
    ensures r in ROW_3 ==> 0x30 <= ROW_3[r] < 0x40 && BasicRune(ROW_3[r]) == r
    ensures 0x30 <= b < 0x40 ==> BasicRune(b) in ROW_3
  {}

  lemma Row4(r: rune, b: int)
    ensures r in ROW_4 ==> 0x40 <= ROW_4[r] < 0x50 && BasicRune(ROW_4[r]) == r
    ensures 0x40 <= b < 0x50 ==> BasicRune(b) in ROW_4
  {}

  lemma Row5(r: rune, b: int)
    ensures r in ROW_5 ==> 0x50 <= ROW_5[r] < 0x60 && BasicRune(ROW_5[r]) == r
    ensures 0x50 <= b < 0x60 ==> BasicRune(b) in ROW_5
  {}

  lemma Row6(r: rune, b: int)
    ensures r in ROW_6 ==> 0x60 <= ROW_6[r] < 0x70 && BasicRune(ROW_6[r]) == r
    ensures 0x60 <= b < 0x70 ==> BasicRune(b) in ROW_6
  {}

  lemma Row7(r: rune, b: int)
    ensures r in ROW_7 ==> 0x70 <= ROW_7[r] < 0x80 && BasicRune(ROW_7[r]) == r
    ensures 0x70 <= b < 0x80 ==> BasicRune(b) in ROW_7
  {}


  lemma BasicRuneInjective(a: int, b: int)
    requires 0 <= a < 0x80 && 0 <= b < 0x80 && BasicRune(a) == BasicRune(b)
    ensures a == b
  {
  }

  lemma CodeHasRune(b: int)
    requires 0 <= b < 0x80
    ensures BasicRune(b) in ALPHABET
  {
    if b < 0x40 { LowInAlphabet(b); } else { HighInAlphabet(b); }
  }

  lemma LowInAlphabet(b: int)
    requires 0 <= b < 0x40
    ensures BasicRune(b) in ALPHABET
  {
    LowCode(b);
    InUnion<rune, byte>(BasicRune(b), LOW, HIGH);
  }

  lemma HighInAlphabet(b: int)
    requires 0x40 <= b < 0x80
    ensures BasicRune(b) in ALPHABET
  {
    HighCode(b);
    InUnion<rune, byte>(BasicRune(b), LOW, HIGH);
  }

  lemma InUnion<K, V>(k: K, a: map<K, V>, b: map<K, V>)
    requires k in a || k in b
    ensures k in a + b
  {
  }

  lemma LowCode(b: int)
    requires 0 <= b < 0x40
    ensures BasicRune(b) in LOW
  {
    var r: rune := BasicRune(b);
    if b < 0x10 { Row0(r, b); } else if b < 0x20 { Row1(r, b); }
    else if b < 0x30 { Row2(r, b); } else { Row3(r, b); }
    InLow(r);
  }

  lemma HighCode(b: int)
    requires 0x40 <= b < 0x80
    ensures BasicRune(b) in HIGH
  {
    var r: rune := BasicRune(b);
    if b < 0x50 { Row4(r, b); } else if b < 0x60 { Row5(r, b); }
    else if b < 0x70 { Row6(r, b); } else { Row7(r, b); }
    InHigh(r);
  }

  lemma InLow(r: rune)
    requires r in ROW_0 || r in ROW_1 || r in ROW_2 || r in ROW_3
    ensures r in LOW
  {
  }

  lemma InHigh(r: rune)
    requires r in ROW_4 || r in ROW_5 || r in ROW_6 || r in ROW_7
    ensures r in HIGH
  {
  }

  lemma LowRune(r: rune)
    requires r in LOW
    ensures LOW[r] < 0x80 && BasicRune(LOW[r]) == r
  {
    Row0(r, 0); Row1(r, 0); Row2(r, 0); Row3(r, 0);
  }

  lemma HighRune(r: rune)
    requires r in HIGH
    ensures HIGH[r] < 0x80 && BasicRune(HIGH[r]) == r
  {
    Row4(r, 0); Row5(r, 0); Row6(r, 0); Row7(r, 0);
  }

  lemma RuneHasCode(r: rune)
    requires r in ALPHABET
    ensures ALPHABET[r] < 0x80 && BasicRune(ALPHABET[r]) == r
  {
    if r in HIGH { HighRune(r); } else { LowRune(r); }
  }

  lemma ExtendedIsInjective(r: rune, s: rune)
    requires r in EXTENDED && s in EXTENDED && EXTENDED[r] == EXTENDED[s]
    ensures r == s
  {
  }

  lemma ExtendedCodeIsSeptet(r: rune)
    requires r in EXTENDED
    ensures EXTENDED[r] < 0x80
  {
  }

  lemma ExtendedIsNotBasic(r: rune, b: int)
    requires r in EXTENDED && 0 <= b < 0x80
    ensures BasicRune(b) != r
  {
  }

  ghost predicate Injective(table: map<rune, byte>) {
    forall r, s :: r in table && s in table && table[r] == table[s] ==> r == s
  }

  /** The table agrees with the oracle: every septet is the code of its oracle rune alone. */
  ghost predicate IsAlphabet(table: map<rune, byte>) {
    && (forall r :: r in table ==> table[r] < 0x80 && BasicRune(table[r]) == r)
    && (forall b: int :: 0 <= b < 0x80 ==> BasicRune(b) in table)
  }

  lemma AlphabetMatchesOracle()
    ensures IsAlphabet(ALPHABET)
  {
    forall r | r in ALPHABET ensures ALPHABET[r] < 0x80 && BasicRune(ALPHABET[r]) == r {
      RuneHasCode(r);
    }
    forall b: int | 0 <= b < 0x80 ensures BasicRune(b) in ALPHABET {
      CodeHasRune(b);
    }
  }

  /** Any table that matches the oracle is injective and covers every septet. */
  lemma OracleCodes(table: map<rune, byte>)
    requires IsAlphabet(table)
    ensures Injective(table)
    ensures forall b: int :: 0 <= b < 0x80 ==> BasicRune(b) in table && table[BasicRune(b)] == b
  {
    forall b: int | 0 <= b < 0x80 ensures table[BasicRune(b)] == b {
      BasicRuneInjective(table[BasicRune(b)], b);
    }
  }

  /** The extension table: injective, all septets, no rune of the alphabet. */
  ghost predicate IsExtension(table: map<rune, byte>) {
    && Injective(table)
    && forall r :: r in table ==> table[r] < 0x80 && forall b: int :: 0 <= b < 0x80 ==> BasicRune(b) != r
  }

  lemma ExtendedIsExtension()
    ensures IsExtension(EXTENDED)
  {
    forall r, s | r in EXTENDED && s in EXTENDED && EXTENDED[r] == EXTENDED[s] ensures r == s {
      ExtendedIsInjective(r, s);
    }
    forall r | r in EXTENDED
      ensures EXTENDED[r] < 0x80 && forall b: int :: 0 <= b < 0x80 ==> BasicRune(b) != r
    {
      ExtendedCodeIsSeptet(r);
      forall b: int | 0 <= b < 0x80 ensures BasicRune(b) != r { ExtendedIsNotBasic(r, b); }
    }
  }

  /** The reverse of a table, filled in whatever order the table's entries come. */
  method ReverseTable(table: map<rune, byte>) returns (reverse: map<byte, rune>)
    ensures forall r :: r in table ==> table[r] in reverse
    ensures forall b :: b in reverse ==> reverse[b] in table && table[reverse[b]] == b
    ensures Injective(table) ==> Inverse(table, reverse)
  {
    reverse := map[];
    var rest := table.Keys;
    while rest != {}
      invariant rest <= table.Keys
      invariant forall r :: r in table && r !in rest ==> table[r] in reverse
      invariant forall b :: b in reverse ==> reverse[b] in table && table[reverse[b]] == b
      decreases |rest|
    {
      var r :| r in rest;
      reverse := reverse[table[r] := r];
      rest := rest - {r};
    }
  }

  /** The package initialiser: the reverse tables it builds are the inverses, and every
      code below 0x80 has a rune. */
  method NewAlphabet() returns (a: Alphabet)
    ensures a.Valid()
    ensures a.basic == ALPHABET && a.extended == EXTENDED
    ensures forall b: byte :: b in a.basicReverse <==> b < 0x80
  {
    AlphabetMatchesOracle();
    ExtendedIsExtension();
    a := WithReverses(ALPHABET, EXTENDED);
  }

  method WithReverses(basic: map<rune, byte>, extended: map<rune, byte>) returns (a: Alphabet)
    requires IsAlphabet(basic) && IsExtension(extended)
    ensures a.Valid()
    ensures a.basic == basic && a.extended == extended
    ensures forall b: byte :: b in a.basicReverse <==> b < 0x80
  {
    OracleCodes(basic);
    var basicReverse := ReverseTable(basic);
    var extendedReverse := ReverseTable(extended);
    a := Alphabet(basic, extended, basicReverse, extendedReverse);
    assert BasicRune(0x1B) == 0x1B && BasicRune(0x20) == SPACE && BasicRune(0x3F) == QUESTION_MARK;
    forall b: byte | b < 0x80 ensures b in basicReverse {
      assert BasicRune(b) in basic && basic[BasicRune(b)] == b;
    }
  }

  /** The octets of one rune; '?' stands in for what neither table has. */
  function EncodeRune7(a: Alphabet, r: rune): (bs: seq<byte>)
    requires a.Valid()
    ensures 1 <= |bs| <= 2
  {
    if r in a.basic then [a.basic[r]]
    else if r in a.extended then [ESC, a.extended[r]]
    else [a.basic[QUESTION_MARK]]
  }

  function Encode7(a: Alphabet, rs: seq<rune>): (bs: seq<byte>)
    requires a.Valid()
    ensures |bs| >= |rs|
  {
    if rs == [] then [] else EncodeRune7(a, rs[0]) + Encode7(a, rs[1..])
  }

  /** An escape takes the octet after it, if there is one. */
  function Decode7(a: Alphabet, bs: seq<byte>): (rs: seq<rune>)
    ensures |rs| <= |bs|
  {
    if bs == [] then []
    else if bs[0] == ESC && |bs| > 1 then
      [if bs[1] in a.extendedReverse then a.extendedReverse[bs[1]] else SPACE] + Decode7(a, bs[2..])
    else [if bs[0] in a.basicReverse then a.basicReverse[bs[0]] else SPACE] + Decode7(a, bs[1..])
  }

  /** The texts GSM 7-bit carries: supported runes only, and U+001B nowhere but at the end. */
  predicate Representable(a: Alphabet, rs: seq<rune>) {
    forall i | 0 <= i < |rs| :: a.Supports(rs[i]) && (rs[i] == 0x1B ==> i == |rs| - 1)
  }

  lemma {:induction false} Encode7Concat(a: Alphabet, x: seq<rune>, y: seq<rune>)
    requires a.Valid()
    ensures Encode7(a, x + y) == Encode7(a, x) + Encode7(a, y)
  {
    if x == [] {
      assert x + y == y;
    } else {
      assert (x + y)[1..] == x[1..] + y;
      Encode7Concat(a, x[1..], y);
    }
  }

  lemma RepresentableCons(a: Alphabet, r: rune, rs: seq<rune>)
    ensures Representable(a, [r] + rs) <==>
            a.Supports(r) && (r == 0x1B ==> rs == []) && Representable(a, rs)
  {
    if Representable(a, [r] + rs) {
      assert ([r] + rs)[0] == r;
      forall i | 0 <= i < |rs| ensures a.Supports(rs[i]) && (rs[i] == 0x1B ==> i == |rs| - 1) {
        assert ([r] + rs)[i + 1] == rs[i];
      }
    }
  }

  /** The octets of a rune other than U+001B decode to that rune, or to '?', whatever follows. */
  lemma Decode7OfRune(a: Alphabet, r: rune, tail: seq<byte>)
    requires a.Valid() && r != 0x1B
    ensures Decode7(a, EncodeRune7(a, r) + tail) ==
            [if a.Supports(r) then r else QUESTION_MARK] + Decode7(a, tail)
  {
    var bs := EncodeRune7(a, r) + tail;
    assert bs[|EncodeRune7(a, r)|..] == tail;
  }

  /** Decoding undoes encoding on exactly the representable texts. */
  lemma {:induction false} Decode7Encode7(a: Alphabet, rs: seq<rune>)
    requires a.Valid()
    ensures Decode7(a, Encode7(a, rs)) == rs <==> Representable(a, rs)
  {
    if rs != [] {
      assert rs == [rs[0]] + rs[1..];
      var tail := Encode7(a, rs[1..]);
      RepresentableCons(a, rs[0], rs[1..]);
      if rs[0] != 0x1B {
        Decode7Encode7(a, rs[1..]);
        Decode7OfRune(a, rs[0], tail);
      } else if rs[1..] == [] {
        assert Encode7(a, rs) == [ESC];
      } else {
        EscapeSwallows(a, tail);
      }
    }
  }

  /** An escape that something follows is not read back as U+001B. */
  lemma EscapeSwallows(a: Alphabet, tail: seq<byte>)
    requires a.Valid() && tail != []
    ensures Decode7(a, [ESC] + tail) != [] && Decode7(a, [ESC] + tail)[0] != 0x1B
  {
    assert ([ESC] + tail)[1] == tail[0];
    if tail[0] in a.extendedReverse {
      assert a.extendedReverse[tail[0]] in a.extended;
    }
  }

  /** Substitutions and swallowed escapes never lengthen a text, not even behind a stray escape. */
  lemma {:induction false} DecodedLength(a: Alphabet, rs: seq<rune>)
    requires a.Valid()
    ensures |Decode7(a, Encode7(a, rs))| <= |rs|
    ensures |Decode7(a, [ESC] + Encode7(a, rs))| <= 1 + |rs|
  {
    if rs != [] {
      var head, tail := EncodeRune7(a, rs[0]), Encode7(a, rs[1..]);
      DecodedLength(a, rs[1..]);
      if rs[0] == 0x1B {
        assert ([ESC] + (head + tail))[2..] == tail;
      } else {
        Decode7OfRune(a, rs[0], tail);
        DecodedBehindEscape(a, head, tail);
      }
    }
  }

  lemma DecodedBehindEscape(a: Alphabet, head: seq<byte>, tail: seq<byte>)
    requires |head| == 1 || (|head| == 2 && head[0] == ESC)
    ensures |head| == 1 ==> |Decode7(a, [ESC] + (head + tail))| == 1 + |Decode7(a, tail)|
    ensures |head| == 2 ==> |Decode7(a, [ESC] + (head + tail))| <=
                            1 + if head[1] == ESC then |Decode7(a, [ESC] + tail)| else 1 + |Decode7(a, tail)|
  {
    var bs := [ESC] + (head + tail);
    assert bs[2..] == head[1..] + tail;
    if |head| == 1 {
      assert bs[2..] == tail;
    } else {
      assert bs[2..] == [head[1]] + tail;
      assert bs[2..][1..] == tail;
    }
  }

  /** The octet strings that encoding can produce. */
  predicate Canonical(a: Alphabet, bs: seq<byte>) {
    bs == [] ||
    if bs[0] == ESC && |bs| > 1 then bs[1] in a.extendedReverse && Canonical(a, bs[2..])
    else bs[0] in a.basicReverse && Canonical(a, bs[1..])
  }

  /** Encoding undoes decoding on exactly the canonical octet strings. */
  lemma {:induction false} Encode7Decode7(a: Alphabet, bs: seq<byte>)
    requires a.Valid()
    ensures Encode7(a, Decode7(a, bs)) == bs <==> Canonical(a, bs)
  {
    if bs != [] {
      var rs := Decode7(a, bs);
      if bs[0] == ESC && |bs| > 1 {
        Encode7Decode7(a, bs[2..]);
        assert rs[1..] == Decode7(a, bs[2..]);
        if bs[1] in a.extendedReverse {
          assert bs == [ESC, bs[1]] + bs[2..];
          assert Encode7(a, rs) == [ESC, bs[1]] + Encode7(a, rs[1..]);
        } else {
          assert Encode7(a, rs)[0] == 0x20;
        }
      } else {
        Encode7Decode7(a, bs[1..]);
        assert rs[1..] == Decode7(a, bs[1..]);
        assert bs == [bs[0]] + bs[1..];
        if bs[0] in a.basicReverse {
          assert Encode7(a, rs) == [bs[0]] + Encode7(a, rs[1..]);
        } else {
          assert Encode7(a, rs)[0] == 0x20;
        }
      }
    }
  }

  /** Decoding yields representable texts only. */
  lemma {:induction false} DecodedIsRepresentable(a: Alphabet, bs: seq<byte>)
    requires a.Valid()
    ensures Representable(a, Decode7(a, bs))
    ensures bs != [] ==> Decode7(a, bs) != []
  {
    if bs != [] {
      var rs := Decode7(a, bs);
      if bs[0] == ESC && |bs| > 1 {
        DecodedIsRepresentable(a, bs[2..]);
        RepresentableCons(a, rs[0], Decode7(a, bs[2..]));
        EscapeSwallows(a, bs[1..]);
        assert [ESC] + bs[1..] == bs;
      } else {
        DecodedIsRepresentable(a, bs[1..]);
        RepresentableCons(a, rs[0], Decode7(a, bs[1..]));
      }
    }
  }

  /** Octets in front of others never shorten what those decode to, not even a stray escape. */
  lemma {:induction false} PrefixOctet(a: Alphabet, b: byte, bs: seq<byte>)
    ensures |Decode7(a, [b] + bs)| >= |Decode7(a, bs)| + if b == ESC then 0 else 1
    decreases |bs|
  {
    var all := [b] + bs;
    assert all[1..] == bs;
    if b == ESC && bs != [] {
      assert all[2..] == bs[1..];
      if bs[0] == ESC && |bs| > 1 {
        assert bs[1..] == [bs[1]] + bs[2..];
        PrefixOctet(a, bs[1], bs[2..]);
      }
    }
  }

  lemma {:induction false} PrefixLength(a: Alphabet, xs: seq<byte>, ys: seq<byte>)
    ensures |Decode7(a, xs + ys)| >= |Decode7(a, ys)|
  {
    if xs == [] {
      assert xs + ys == ys;
    } else {
      assert xs + ys == [xs[0]] + (xs[1..] + ys);
      PrefixOctet(a, xs[0], xs[1..] + ys);
      PrefixLength(a, xs[1..], ys);
    }
  }

  /** Without an escape in front of others, each octet is one character. */
  lemma {:induction false} OneEach(a: Alphabet, bs: seq<byte>)
    requires forall i | 0 <= i < |bs| :: bs[i] == ESC ==> i == |bs| - 1
    ensures |Decode7(a, bs)| == |bs|
  {
    if bs != [] {
      OneEach(a, bs[1..]);
    }
  }

  /** The rune of each extension code: the oracle the extension table is checked against. */
  function ExtendedRune(b: int): int {
    if b == 10 then 12            // form feed
    else if b == 20 then '^' as int
    else if b == 40 then '{' as int
    else if b == 41 then '}' as int
    else if b == 47 then '\\' as int
    else if b == 60 then '[' as int
    else if b == 61 then '~' as int
    else if b == 62 then ']' as int
    else if b == 64 then '|' as int
    else if b == 101 then 0x20AC  // euro sign
    else -1
  }

  lemma ExtensionMatchesOracle(r: rune, b: byte)
    ensures r in EXTENDED && EXTENDED[r] == b <==> ExtendedRune(b) == r
  {
  }

  /** What the decoder makes of single octets: the rune of a code, a space for none. */
  lemma DecodeOctets(a: Alphabet, b: byte)
    requires a.Valid()
    ensures b !in a.basicReverse ==> Decode7(a, [b]) == [0x20]
    ensures b in a.basicReverse ==> a.basic[Decode7(a, [b])[0]] == b
    ensures b !in a.extendedReverse ==> Decode7(a, [0x1B, b]) == [0x20]
    ensures b in a.extendedReverse ==> a.extended[Decode7(a, [0x1B, b])[0]] == b
  {
    assert [b][1..] == [] && [0x1B, b][2..] == [];
  }

  /** And the encoder of single runes: a question mark for an unsupported one. */
  lemma EncodeOneRune(a: Alphabet, r: rune)
    requires a.Valid()
    ensures r in a.basic ==> Encode7(a, [r]) == [a.basic[r]]
    ensures r in a.extended ==> Encode7(a, [r]) == [0x1B, a.extended[r]]
    ensures !a.Supports(r) ==> Encode7(a, [r]) == [a.basic[0x3F]]
  {
    assert [r][1..] == [];
    assert Encode7(a, [r]) == EncodeRune7(a, r) + Encode7(a, []);
  }
}
