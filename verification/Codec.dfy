/** Vectors as little-endian blobs. */
module Codec {
  import opened Prelude
  import opened Floats

  /** Byte `k` of `to_le_bytes`. */
  function LeByte(x: F32, k: nat): Byte
    requires k < 4
  {
    if k == 0 then x % 256
    else if k == 1 then (x / 256) % 256
    else if k == 2 then (x / 256 / 256) % 256
    else x / 256 / 256 / 256
  }

  function LeBytes(x: F32): (b: seq<Byte>)
    ensures |b| == 4
  {
    [LeByte(x, 0), LeByte(x, 1), LeByte(x, 2), LeByte(x, 3)]
  }

  function FromLeBytes(b0: Byte, b1: Byte, b2: Byte, b3: Byte): F32 {
    b0 + 256 * b1 + 0x1_0000 * b2 + 0x100_0000 * b3
  }

  function Encode(v: seq<F32>): seq<Byte> {
    if v == [] then [] else Encode(v[..|v| - 1]) + LeBytes(v[|v| - 1])
  }

  function DecodeWords(bytes: seq<Byte>): (v: seq<F32>)
    requires |bytes| % 4 == 0
    ensures |v| == |bytes| / 4
  {
    if bytes == [] then []
    else
      var n := |bytes| - 4;
      DecodeWords(bytes[..n]) + [FromLeBytes(bytes[n], bytes[n + 1], bytes[n + 2], bytes[n + 3])]
  }

  function Decode(bytes: seq<Byte>): Option<seq<F32>> {
    if |bytes| % 4 != 0 then None else Some(DecodeWords(bytes))
  }

  method EncodeVectorBlob(vector: seq<F32>) returns (out: seq<Byte>)
    ensures out == Encode(vector)
  {
    out := [];
    for i := 0 to |vector|
      invariant out == Encode(vector[..i])
    {
      assert vector[..i + 1][..i] == vector[..i];
      out := out + LeBytes(vector[i]);
    }
    assert vector[..|vector|] == vector;
  }

  method DecodeVectorBlob(bytes: seq<Byte>) returns (r: Option<seq<F32>>)
    ensures r == Decode(bytes)
  {
    if |bytes| % 4 != 0 {
      return None;
    }
    var out: seq<F32> := [];
    for i := 0 to |bytes| / 4
      invariant out == DecodeWords(bytes[..4 * i])
    {
      var p := 4 * i;
      assert bytes[..p + 4][..p] == bytes[..p];
      out := out + [FromLeBytes(bytes[p], bytes[p + 1], bytes[p + 2], bytes[p + 3])];
    }
    assert bytes[..4 * (|bytes| / 4)] == bytes;
    r := Some(out);
  }

  lemma WordRoundTrip(x: F32)
    ensures FromLeBytes(LeByte(x, 0), LeByte(x, 1), LeByte(x, 2), LeByte(x, 3)) == x
  {
    var a := x / 256;
    var b := a / 256;
    assert x == 256 * a + LeByte(x, 0);
    assert a == 256 * b + LeByte(x, 1);
    assert b == 256 * (b / 256) + LeByte(x, 2);
  }

  lemma LowByte(b: Byte, rest: nat)
    ensures (b + 256 * rest) % 256 == b && (b + 256 * rest) / 256 == rest
  {
  }

  lemma BytesRoundTrip(b0: Byte, b1: Byte, b2: Byte, b3: Byte)
    ensures LeBytes(FromLeBytes(b0, b1, b2, b3)) == [b0, b1, b2, b3]
  {
    LowByte(b0, b1 + 256 * (b2 + 256 * b3));
    LowByte(b1, b2 + 256 * b3);
    LowByte(b2, b3);
  }

  /** `x` is word `i` of a blob: the four bytes from `4 * i`, the low byte first. */
  predicate IsWord(bytes: seq<Byte>, i: nat, x: int)
    requires 4 * i + 3 < |bytes|
  {
    var b0: int, b1: int, b2: int, b3: int := bytes[4 * i], bytes[4 * i + 1], bytes[4 * i + 2], bytes[4 * i + 3];
    x == b0 + 256 * b1 + 65_536 * b2 + 16_777_216 * b3
  }

  lemma {:induction false} WordAt(bytes: seq<Byte>, i: nat)
    requires |bytes| % 4 == 0 && 4 * i < |bytes|
    ensures IsWord(bytes, i, DecodeWords(bytes)[i])
  {
    if 4 * i < |bytes| - 4 {
      WordAt(bytes[..|bytes| - 4], i);
    }
  }

  lemma {:induction false} EncodeLength(v: seq<F32>)
    ensures |Encode(v)| == 4 * |v|
  {
    if v != [] {
      EncodeLength(v[..|v| - 1]);
    }
  }

  /** The blob of a vector is its patterns as little-endian words, and nothing else. */
  lemma LittleEndian(v: seq<F32>, i: nat)
    requires i < |v|
    ensures |Encode(v)| == 4 * |v| && IsWord(Encode(v), i, v[i])
  {
    EncodeLength(v);
    DecodeEncode(v);
    WordAt(Encode(v), i);
  }

  /** A vector comes back from its blob, non-finite patterns included. */
  lemma {:induction false} DecodeEncode(v: seq<F32>)
    ensures Decode(Encode(v)) == Some(v)
  {
    if v != [] {
      var last := v[|v| - 1];
      DecodeEncode(v[..|v| - 1]);
      var front := Encode(v[..|v| - 1]);
      assert Encode(v)[..|front|] == front;
      WordRoundTrip(last);
      assert v == v[..|v| - 1] + [last];
    }
  }

  lemma EncodeInjective(v: seq<F32>, w: seq<F32>)
    requires Encode(v) == Encode(w)
    ensures v == w
  {
    DecodeEncode(v);
    DecodeEncode(w);
  }

  /** A blob that decodes is the encoding of what it decodes to: re-encoding leaves its bytes identical. */
  lemma {:induction false} EncodeDecode(bytes: seq<Byte>)
    requires Decode(bytes).Some?
    ensures Encode(Decode(bytes).value) == bytes
  {
    if bytes != [] {
      var n := |bytes| - 4;
      EncodeDecode(bytes[..n]);
      BytesRoundTrip(bytes[n], bytes[n + 1], bytes[n + 2], bytes[n + 3]);
      EncodeAppend(DecodeWords(bytes[..n]), FromLeBytes(bytes[n], bytes[n + 1], bytes[n + 2], bytes[n + 3]));
      assert bytes == bytes[..n] + [bytes[n], bytes[n + 1], bytes[n + 2], bytes[n + 3]];
    }
  }

  lemma EncodeAppend(v: seq<F32>, x: F32)
    ensures Encode(v + [x]) == Encode(v) + LeBytes(x)
  {
    assert (v + [x])[..|v|] == v;
  }
}
