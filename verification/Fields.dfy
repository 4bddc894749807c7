/** Fixed-width NUL-padded fields, NUL-terminated strings, big-endian numbers and TLVs. */
module Fields {
  import opened GoStrings
  import opened Ucs2

  // ---------------------------------------------------------------- fixed-width fields

  function Zeros(n: nat): (z: seq<byte>)
    ensures |z| == n && forall i | 0 <= i < n :: z[i] == 0
  {
    seq(n, i => 0)
  }

  /** `copy` into a zeroed array: cut to the width, or padded with NULs. */
  function Pad(s: GoString, width: nat): (field: seq<byte>)
    ensures |field| == width
  {
    if |s| >= width then s[..width] else s + Zeros(width - |s|)
  }

  /** `bytes.TrimRight(b, "\x00")` */
  function TrimRight(b: seq<byte>): (s: GoString)
    ensures |s| <= |b|
    ensures s == [] || s[|s| - 1] != 0
  {
    if b != [] && b[|b| - 1] == 0 then TrimRight(b[..|b| - 1]) else b
  }

  predicate FitsField(s: GoString, width: nat) {
    |s| <= width && (s == [] || s[|s| - 1] != 0)
  }

  lemma {:induction false} TrimOfZeros(s: GoString, n: nat)
    requires s == [] || s[|s| - 1] != 0
    ensures TrimRight(s + Zeros(n)) == s
  {
    if n == 0 {
      assert s + Zeros(0) == s;
    } else {
      assert (s + Zeros(n))[..|s| + n - 1] == s + Zeros(n - 1);
      TrimOfZeros(s, n - 1);
    }
  }

  /** A field reads back as what was written exactly when the string fits. */
  lemma TrimPad(s: GoString, width: nat)
    ensures TrimRight(Pad(s, width)) == s <==> FitsField(s, width)
  {
    if FitsField(s, width) {
      TrimOfZeros(s, width - |s|);
      assert Pad(s, width) == s + Zeros(width - |s|);
    }
  }

  lemma {:induction false} PadTrim(b: seq<byte>)
    ensures Pad(TrimRight(b), |b|) == b && FitsField(TrimRight(b), |b|)
  {
    if b != [] && b[|b| - 1] == 0 {
      PadTrim(b[..|b| - 1]);
      assert b == b[..|b| - 1] + [0];
    }
  }

  // ---------------------------------------------------------------- NUL-terminated strings

  /** Up to the first NUL, or all of it. */
  function UntilNul(b: seq<byte>): (s: GoString)
    ensures |s| <= |b|
  {
    if b == [] || b[0] == 0 then [] else [b[0]] + UntilNul(b[1..])
  }

  lemma {:induction false} UntilNulTerminated(s: GoString)
    ensures UntilNul(s + [0]) == s <==> 0 !in s
  {
    if s != [] {
      assert (s + [0])[1..] == s[1..] + [0];
      assert s == [s[0]] + s[1..];
      UntilNulTerminated(s[1..]);
    }
  }

  // ---------------------------------------------------------------- TLVs

  datatype OptionalParameter = OptionalParameter(tag: uint16, length: uint16, value: seq<byte>)

  predicate FitsParam(p: OptionalParameter) {
    p.length == |p.value|
  }

  predicate FitsParams(ps: seq<OptionalParameter>) {
    forall i | 0 <= i < |ps| :: FitsParam(ps[i])
  }

  function MarshalParam(p: OptionalParameter): (b: seq<byte>)
    ensures |b| == 4 + |p.value|
  {
    [High(p.tag), Low(p.tag), High(p.length), Low(p.length)] + p.value
  }

  function MarshalParams(ps: seq<OptionalParameter>): seq<byte> {
    if ps == [] then [] else MarshalParam(ps[0]) + MarshalParams(ps[1..])
  }

  predicate StartsWithParam(data: seq<byte>) {
    |data| >= 4 && |data| >= 4 + FromOctets(data[2], data[3])
  }

  function FirstParam(data: seq<byte>): (p: OptionalParameter)
    requires StartsWithParam(data)
    ensures FitsParam(p)
  {
    var length := FromOctets(data[2], data[3]);
    OptionalParameter(FromOctets(data[0], data[1]), length, data[4..4 + length])
  }

  /** The TLVs at the front of the data; an incomplete tail is dropped. */
  function ParseParams(data: seq<byte>): (ps: seq<OptionalParameter>)
    ensures FitsParams(ps)
  {
    if StartsWithParam(data) then
      var p := FirstParam(data);
      [p] + ParseParams(data[4 + |p.value|..])
    else []
  }

  lemma OctetsRoundTrip(u: uint16, h: byte, l: byte)
    ensures FromOctets(High(u), Low(u)) == u
    ensures High(FromOctets(h, l)) == h && Low(FromOctets(h, l)) == l
  {
  }

  lemma FirstParamOfMarshalled(p: OptionalParameter, tail: seq<byte>)
    requires FitsParam(p)
    ensures StartsWithParam(MarshalParam(p) + tail)
    ensures FirstParam(MarshalParam(p) + tail) == p
    ensures (MarshalParam(p) + tail)[4 + |p.value|..] == tail
  {
    OctetsRoundTrip(p.tag, 0, 0);
    OctetsRoundTrip(p.length, 0, 0);
  }

  lemma FirstParamOctets(data: seq<byte>, p: OptionalParameter)
    requires StartsWithParam(data) && p == FirstParam(data)
    ensures High(p.tag) == data[0] && Low(p.tag) == data[1]
    ensures High(p.length) == data[2] && Low(p.length) == data[3]
  {
    OctetsRoundTrip(0, data[0], data[1]);
    OctetsRoundTrip(0, data[2], data[3]);
  }

  lemma FirstParamValue(data: seq<byte>, p: OptionalParameter)
    requires StartsWithParam(data) && p == FirstParam(data)
    ensures |data| >= 4 + |p.value| && p.value == data[4..4 + |p.value|]
  {
  }

  lemma MarshalledFirstParam(data: seq<byte>, p: OptionalParameter)
    requires StartsWithParam(data) && p == FirstParam(data)
    ensures |data| >= 4 + |p.value|
    ensures data == MarshalParam(p) + data[4 + |p.value|..]
  {
    FirstParamOctets(data, p);
    FirstParamValue(data, p);
    CutParam(data, p);
  }

  lemma CutParam(data: seq<byte>, p: OptionalParameter)
    requires |data| >= 4 + |p.value| && p.value == data[4..4 + |p.value|]
    requires High(p.tag) == data[0] && Low(p.tag) == data[1]
    requires High(p.length) == data[2] && Low(p.length) == data[3]
    ensures data == MarshalParam(p) + data[4 + |p.value|..]
  {
    FourOctets(data, p.tag, p.length);
    CutAt(data, [High(p.tag), Low(p.tag), High(p.length), Low(p.length)], p.value);
  }

  lemma FourOctets(data: seq<byte>, u: uint16, v: uint16)
    requires |data| >= 4
    requires High(u) == data[0] && Low(u) == data[1] && High(v) == data[2] && Low(v) == data[3]
    ensures [High(u), Low(u), High(v), Low(v)] == data[..4]
  {
    var four := [High(u), Low(u), High(v), Low(v)];
    forall i | 0 <= i < 4 ensures four[i] == data[..4][i] {}
  }

  lemma CutAt(data: seq<byte>, head: seq<byte>, middle: seq<byte>)
    requires |data| >= |head| + |middle|
    requires head == data[..|head|] && middle == data[|head|..|head| + |middle|]
    ensures data == (head + middle) + data[|head| + |middle|..]
  {
  }

  lemma {:induction false} ParseMarshalledParams(ps: seq<OptionalParameter>, tail: seq<byte>)
    requires FitsParams(ps)
    ensures ParseParams(MarshalParams(ps) + tail) == ps + ParseParams(tail)
  {
    if ps == [] {
      assert MarshalParams(ps) + tail == tail;
    } else {
      var rest := MarshalParams(ps[1..]) + tail;
      assert MarshalParams(ps) + tail == MarshalParam(ps[0]) + rest;
      FirstParamOfMarshalled(ps[0], rest);
      ParseMarshalledParams(ps[1..], tail);
      ConsAppend(ps, ParseParams(tail));
    }
  }

  lemma ParseMarshalled(ps: seq<OptionalParameter>)
    requires FitsParams(ps)
    ensures ParseParams(MarshalParams(ps)) == ps
  {
    ParseMarshalledParams(ps, []);
    assert MarshalParams(ps) + [] == MarshalParams(ps) && ps + [] == ps;
  }

  lemma ParseStep(data: seq<byte>, p: OptionalParameter)
    requires StartsWithParam(data) && p == FirstParam(data)
    ensures |data| >= 4 + |p.value|
    ensures MarshalParams(ParseParams(data)) ==
            MarshalParam(p) + MarshalParams(ParseParams(data[4 + |p.value|..]))
  {
    assert ParseParams(data)[1..] == ParseParams(data[4 + |p.value|..]);
  }

  /** The data is the TLVs found, followed by a tail that starts no complete TLV. */
  lemma {:induction false} ParamsAndTail(data: seq<byte>) returns (tail: seq<byte>)
    ensures data == MarshalParams(ParseParams(data)) + tail
    ensures !StartsWithParam(tail)
  {
    if StartsWithParam(data) {
      var p := FirstParam(data);
      MarshalledFirstParam(data, p);
      ParseStep(data, p);
      var rest := data[4 + |p.value|..];
      tail := ParamsAndTail(rest);
      Associate(MarshalParam(p), MarshalParams(ParseParams(rest)), tail);
    } else {
      tail := data;
    }
  }

  /** The TLVs found are the longest: every TLV list the data starts with is a prefix of them. */
  lemma LongestParams(data: seq<byte>, ps: seq<OptionalParameter>)
    requires FitsParams(ps) && MarshalParams(ps) <= data
    ensures ps <= ParseParams(data)
  {
    var tail := data[|MarshalParams(ps)|..];
    assert data == MarshalParams(ps) + tail;
    ParseMarshalledParams(ps, tail);
  }

  // ---------------------------------------------------------------- octet by octet

  /** A field holds as much of the string as it can, and NULs. */
  lemma FieldOctets(s: GoString, width: nat, k: nat)
    requires k < width
    ensures Pad(s, width)[k] == if k < |s| then s[k] else 0
  {
  }

  /** Tag and length, most significant octet first, and the value. */
  lemma ParamOctets(p: OptionalParameter)
    ensures MarshalParam(p) == [p.tag / 256, p.tag % 256, p.length / 256, p.length % 256] + p.value
  {
  }

  lemma {:induction false} UntilNulExactly(b: seq<byte>)
    ensures UntilNul(b) <= b && 0 !in UntilNul(b)
    ensures UntilNul(b) == b || b[|UntilNul(b)|] == 0
  {
    if b != [] && b[0] != 0 {
      UntilNulExactly(b[1..]);
    }
  }
}
