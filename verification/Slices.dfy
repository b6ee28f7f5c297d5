/**
 Length-prefixed byte strings, read from a slice that the reader advances.
 */
module Slices {
  import opened Bits
  import opened Varints
  import opened VarintDecoding

  /** A view of bytes that getters advance in place. */
  class Slice {
    var data: seq<byte>

    constructor (data: seq<byte>)
      ensures this.data == data
    {
      this.data := data;
    }

    method RemovePrefix(n: nat)
      requires n <= |data|
      modifies this
      ensures data == old(data)[n..]
    {
      data := data[n..];
    }
  }

  /** A byte string that the put routines append to. */
  class ByteString {
    var bytes: seq<byte>

    constructor ()
      ensures bytes == []
    {
      bytes := [];
    }

    method Append(more: seq<byte>)
      modifies this
      ensures bytes == old(bytes) + more
    {
      bytes := bytes + more;
    }
  }

  // ---- reference format ------------------------------------------------------------

  datatype Field = NoField | Field(content: seq<byte>, size: nat)

  /** The 32-bit length, then the content. */
  function Framed(s: seq<byte>): (b: seq<byte>)
    ensures |b| > |s|
  {
    Leb(|s| % LIMIT32) + s
  }

  function ParseField(b: seq<byte>): (f: Field)
    ensures f.Field? ==> 0 < f.size <= |b|
  {
    match Decode32(b)
    case Malformed => NoField
    case Parsed(len, k) => if k + len > |b| then NoField else Field(b[k..k + len], k + len)
  }

  // ---- routines ----------------------------------------------------------------------

  method GetVarint32(input: Slice) returns (ok: bool, value: nat)
    modifies input
    ensures ok <==> Decode32(old(input.data)).Parsed?
    ensures ok ==> value == Decode32(old(input.data)).value && input.data == old(input.data)[Decode32(old(input.data)).size..]
    ensures !ok ==> input.data == old(input.data)
  {
    assert input.data[0..|input.data|] == input.data;
    var r := GetVarint32Ptr(input.data, 0, |input.data|);
    if r.Malformed? {
      return false, 0;
    }
    input.data := input.data[r.size..];
    return true, r.value;
  }

  method GetVarint64(input: Slice) returns (ok: bool, value: nat)
    modifies input
    ensures ok <==> Decode64(old(input.data)).Parsed?
    ensures ok ==> value == Decode64(old(input.data)).value && input.data == old(input.data)[Decode64(old(input.data)).size..]
    ensures !ok ==> input.data == old(input.data)
  {
    assert input.data[0..|input.data|] == input.data;
    var r := GetVarint64Ptr(input.data, 0, |input.data|);
    if r.Malformed? {
      return false, 0;
    }
    input.data := input.data[r.size..];
    return true, r.value;
  }

  lemma SubSlice(buf: seq<byte>, p: nat, limit: nat, a: nat, b: nat)
    requires p <= limit <= |buf| && a <= b <= limit - p
    ensures buf[p..limit][a..b] == buf[p + a..p + b]
  {
    var x, y := buf[p..limit][a..b], buf[p + a..p + b];
    assert |x| == |y| && forall i :: 0 <= i < |x| ==> x[i] == buf[p + (a + i)] == y[i];
  }

  /** The pointer form: result and position, or nothing. */
  method GetLengthPrefixedSlicePtr(buf: seq<byte>, p: nat, limit: nat) returns (f: Field)
    requires p <= limit <= |buf|
    ensures f == ParseField(buf[p..limit])
    ensures var r := Decode32(buf[p..limit]);
            && (f.NoField? <==> r.Malformed? || p + r.size + r.value > limit)
            && (f.Field? ==> f.size == r.size + r.value && f.content == buf[p + r.size..p + f.size])
  {
    hide Decode32, Spelled;
    var r := GetVarint32Ptr(buf, p, limit);
    if r.Malformed? {
      return NoField;
    }
    var q := p + r.size;
    if q + r.value > limit {
      return NoField;
    }
    SubSlice(buf, p, limit, r.size, r.size + r.value);
    return Field(buf[q..q + r.value], r.size + r.value);
  }

  /**
   The slice form agrees with the pointer form on success, result and remainder.  On failure it
   has still consumed the length when the length itself was readable.  When one slice is passed for
   both, it ends up empty on success: the content is taken as the input and then skipped.
   */
  method GetLengthPrefixedSlice(input: Slice, result: Slice) returns (ok: bool)
    modifies input, result
    ensures ok <==> ParseField(old(input.data)).Field?
    ensures ok <==> Decode32(old(input.data)).Parsed?
                    && Decode32(old(input.data)).size + Decode32(old(input.data)).value <= |old(input.data)|
    ensures ok && input != result ==> |result.data| == Decode32(old(input.data)).value
    ensures ok && input != result ==> result.data == ParseField(old(input.data)).content
                                      && input.data == old(input.data)[ParseField(old(input.data)).size..]
    ensures ok && input == result ==> input.data == []
    ensures !ok && input != result ==> result.data == old(result.data)
    ensures !ok ==> input.data == match Decode32(old(input.data))
                                  case Malformed => old(input.data)
                                  case Parsed(_, k) => old(input.data)[k..]
  {
    var gotLength, len := GetVarint32(input);
    if gotLength && |input.data| >= len {
      result.data := input.data[..len];
      input.RemovePrefix(len);
      return true;
    }
    return false;
  }

  method PutVarint32(dst: ByteString, v: nat)
    requires v < LIMIT32
    modifies dst
    ensures dst.bytes == old(dst.bytes) + Leb(v)
  {
    Lengths(v);
    var buf := new byte[5](_ => 0);
    var ptr := EncodeVarint32(buf, 0, v);
    dst.Append(buf[..ptr]);
  }

  method PutVarint64(dst: ByteString, v: nat)
    requires v < LIMIT64
    modifies dst
    ensures dst.bytes == old(dst.bytes) + Leb(v)
  {
    Lengths(v);
    var buf := new byte[10](_ => 0);
    var ptr := EncodeVarint64(buf, 0, v);
    dst.Append(buf[..ptr]);
  }

  /** The length is converted to 32 bits before it is written. */
  method PutLengthPrefixedSlice(dst: ByteString, value: seq<byte>)
    modifies dst
    ensures dst.bytes == old(dst.bytes) + Framed(value)
    ensures dst.bytes == old(dst.bytes) + Leb(|value| % 0x1_0000_0000) + value
  {
    PutVarint32(dst, |value| % LIMIT32);
    dst.Append(value);
  }

  // ---- laws ---------------------------------------------------------------------------

  /** A written slice reads back, with the rest left over, exactly when its length fits 32 bits. */
  lemma FieldRoundTrip(s: seq<byte>, rest: seq<byte>)
    ensures ParseField(Framed(s) + rest) == Field(s, |Framed(s)|) <==> |s| < 0x1_0000_0000
  {
    var n := |s| % LIMIT32;
    var prefix := Leb(n);
    var b := Framed(s) + rest;
    RoundTrip(n, s + rest);
    assert prefix + (s + rest) == b;
    var k := |prefix|;
    assert b[k..k + n] == s[..n];
    assert |s| < LIMIT32 ==> s[..n] == s;
  }

  /** A truncated field is rejected. */
  lemma FieldTruncated(s: seq<byte>, n: nat)
    requires |s| < 0x1_0000_0000 && n < |Framed(s)|
    ensures ParseField(Framed(s)[..n]) == NoField
  {
    var prefix := Leb(|s|);
    var b := Framed(s)[..n];
    DivUnique(|s|, LIMIT32, 0, |s|);
    if n < |prefix| {
      assert b == prefix[..n];
      TruncatedRejected(|s|, n, 5, LIMIT32);
    } else {
      assert b == prefix + s[..n - |prefix|];
      RoundTrip(|s|, s[..n - |prefix|]);
    }
  }

  /** A field is parsed exactly when its length is readable and its content complete. */
  lemma FieldShape(b: seq<byte>)
    ensures var r := Decode32(b);
            match ParseField(b)
            case NoField => r.Malformed? || r.size + r.value > |b|
            case Field(c, k) => r.Parsed? && |c| == r.value && k == r.size + |c| <= |b| && b[r.size..k] == c
  {
    hide Decode;
  }

  function FrameAll(ss: seq<seq<byte>>): seq<byte> {
    if ss == [] then [] else Framed(ss[0]) + FrameAll(ss[1..])
  }

  datatype Fields = NoFields | Fields(contents: seq<seq<byte>>, rest: seq<byte>)

  /** Reading n slices one after the other. */
  function ParseAll(b: seq<byte>, n: nat): Fields {
    if n == 0 then Fields([], b)
    else
      match ParseField(b)
      case NoField => NoFields
      case Field(content, size) =>
        match ParseAll(b[size..], n - 1)
        case NoFields => NoFields
        case Fields(contents, rest) => Fields([content] + contents, rest)
  }

  ghost predicate Short(ss: seq<seq<byte>>) {
    forall i :: 0 <= i < |ss| ==> |ss[i]| < LIMIT32
  }

  /** Any list of slices written back to back reads back as the same list with the suffix left over. */
  lemma {:induction false} ListRoundTrip(ss: seq<seq<byte>>, rest: seq<byte>)
    requires Short(ss)
    ensures ParseAll(FrameAll(ss) + rest, |ss|) == Fields(ss, rest)
  {
    if ss == [] {
      assert FrameAll(ss) + rest == rest;
    } else {
      var tail := FrameAll(ss[1..]) + rest;
      assert FrameAll(ss) + rest == Framed(ss[0]) + tail;
      FieldRoundTrip(ss[0], tail);
      assert (Framed(ss[0]) + tail)[|Framed(ss[0])|..] == tail;
      ListRoundTrip(ss[1..], rest);
      assert ss == [ss[0]] + ss[1..];
    }
  }

  /** Two different lists never have the same bytes, whatever their lengths. */
  lemma {:induction false} ListsDistinguished(ss: seq<seq<byte>>, ts: seq<seq<byte>>)
    requires Short(ss) && Short(ts) && FrameAll(ss) == FrameAll(ts)
    ensures ss == ts
  {
    if ss != [] && ts != [] {
      FieldRoundTrip(ss[0], FrameAll(ss[1..]));
      FieldRoundTrip(ts[0], FrameAll(ts[1..]));
      assert FrameAll(ss)[|Framed(ss[0])|..] == FrameAll(ss[1..]);
      assert FrameAll(ts)[|Framed(ts[0])|..] == FrameAll(ts[1..]);
      ListsDistinguished(ss[1..], ts[1..]);
      assert ss == [ss[0]] + ss[1..] && ts == [ts[0]] + ts[1..];
    }
  }
}
