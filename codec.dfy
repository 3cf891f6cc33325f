/**
 * The `ByteStorage` capability of src/main.rs: for each of the twelve
 * numeric types, its byte length and its little-endian encoder and decoder.
 *
 * A value is an `int`. For the ten integer types it is the number itself,
 * encoded in two's complement; for `f32` and `f64` it is the raw IEEE-754 bit
 * pattern read as an unsigned number, which is what `from_le_bytes` and
 * `to_le_bytes` move between bytes and floats.
 */
module Codec {
  import opened Bytes

  /** The closed set of numeric types the program supports. */
  datatype Tag = U8 | U16 | U32 | U64 | U128 | I8 | I16 | I32 | I64 | I128 | F32 | F64
  {
    /** The two's-complement integer types. */
    predicate IsSigned() {
      I8? || I16? || I32? || I64? || I128?
    }

    /** The IEEE-754 types, whose values here are bit patterns. */
    predicate IsFloat() {
      F32? || F64?
    }
  }

  /** `BYTE_LENGTH`: the number of bytes one encoded value occupies. */
  function Width(t: Tag): (w: nat)
    ensures w == 1 || w == 2 || w == 4 || w == 8 || w == 16
  {
    match t
    case U8 | I8 => 1
    case U16 | I16 => 2
    case U32 | I32 | F32 => 4
    case U64 | I64 | F64 => 8
    case U128 | I128 => 16
  }

  /** Half the number of bit patterns of the type: 2 to the power (bits - 1). */
  function Half(t: Tag): (h: nat)
    ensures 2 * h == Pow256(Width(t))
  {
    128 * Pow256(Width(t) - 1)
  }

  /** The number of bit patterns of the type: 2 to the power bits. */
  function Modulus(t: Tag): nat {
    2 * Half(t)
  }

  function MinValue(t: Tag): int {
    if t.IsSigned() then -(Half(t) as int) else 0
  }

  function MaxValue(t: Tag): int {
    if t.IsSigned() then Half(t) - 1 else Modulus(t) - 1
  }

  /** The values a variable of the type can hold. */
  predicate InRange(t: Tag, v: int) {
    MinValue(t) <= v <= MaxValue(t)
  }

  /** Two's complement: the bit pattern, read unsigned, that stores `v`. */
  function ToUnsigned(t: Tag, v: int): (u: nat)
    requires InRange(t, v)
    ensures u < Modulus(t)
  {
    if v < 0 then v + Modulus(t) else v
  }

  /** The value a bit pattern stores: negative when a signed type's top bit is set. */
  function FromUnsigned(t: Tag, u: nat): (v: int)
    requires u < Modulus(t)
    ensures InRange(t, v)
  {
    if t.IsSigned() && u >= Half(t) then u - Modulus(t) else u
  }

  /** `to_bytes`: the little-endian bytes of `v`. */
  function Encode(t: Tag, v: int): (r: seq<byte>)
    requires InRange(t, v)
    ensures |r| == Width(t)
  {
    LeBytes(ToUnsigned(t, v), Width(t))
  }

  /**
   * `from_bytes`: the value stored in the first `BYTE_LENGTH` bytes of `x`.
   * The source indexes `x[0]` to `x[BYTE_LENGTH - 1]` and panics on a shorter
   * slice; anything after them is never read.
   */
  function Decode(t: Tag, x: seq<byte>): (v: int)
    requires |x| >= Width(t)
    ensures InRange(t, v)
  {
    FromUnsigned(t, LeValue(x[..Width(t)]))
  }

  /** The bit width of every type: 8, 16, 32, 64 or 128. */
  lemma RangeTable()
    ensures Modulus(U8) == 0x100 && Modulus(I8) == 0x100
    ensures Modulus(U16) == 0x1_0000 && Modulus(I16) == 0x1_0000
    ensures Modulus(U32) == 0x1_0000_0000 && Modulus(I32) == 0x1_0000_0000
    ensures Modulus(F32) == 0x1_0000_0000
    ensures Modulus(U64) == 0x1_0000_0000_0000_0000 && Modulus(I64) == 0x1_0000_0000_0000_0000
    ensures Modulus(F64) == 0x1_0000_0000_0000_0000
    ensures Modulus(U128) == 0x1_0000_0000_0000_0000_0000_0000_0000_0000
    ensures Modulus(I128) == 0x1_0000_0000_0000_0000_0000_0000_0000_0000
  {
    assert Pow256(1) == 0x100;
    assert Pow256(2) == 0x1_0000;
    assert Pow256(3) == 0x100_0000;
    assert Pow256(4) == 0x1_0000_0000;
    assert Pow256(5) == 0x100_0000_0000;
    assert Pow256(6) == 0x1_0000_0000_0000;
    assert Pow256(7) == 0x100_0000_0000_0000;
    assert Pow256(8) == 0x1_0000_0000_0000_0000;
    assert Pow256(9) == 0x100_0000_0000_0000_0000;
    assert Pow256(10) == 0x1_0000_0000_0000_0000_0000;
    assert Pow256(11) == 0x100_0000_0000_0000_0000_0000;
    assert Pow256(12) == 0x1_0000_0000_0000_0000_0000_0000;
    assert Pow256(13) == 0x100_0000_0000_0000_0000_0000_0000;
    assert Pow256(14) == 0x1_0000_0000_0000_0000_0000_0000_0000;
    assert Pow256(15) == 0x100_0000_0000_0000_0000_0000_0000_0000;
  }

  /** The bit pattern of `v` is `v` reduced modulo the number of bit patterns. */
  lemma ToUnsignedMod(t: Tag, v: int)
    requires InRange(t, v)
    ensures ToUnsigned(t, v) == v % Modulus(t)
  {
    var q := if v < 0 then -1 else 0;
    DivUnique(v, Modulus(t), q, ToUnsigned(t, v));
  }

  /** Two's complement undoes itself: reading back the bit pattern of a value gives the value. */
  lemma FromToUnsigned(t: Tag, v: int)
    requires InRange(t, v)
    ensures FromUnsigned(t, ToUnsigned(t, v)) == v
  {
  }

  /** Storing the value a bit pattern reads as gives the same bit pattern. */
  lemma ToFromUnsigned(t: Tag, u: nat)
    requires u < Modulus(t)
    ensures ToUnsigned(t, FromUnsigned(t, u)) == u
  {
  }

  /**
   * Byte `k` of `to_bytes(v)` is bits `8k` to `8k + 7` of `v` in two's
   * complement (`v` modulo 2 to the power bits), least significant byte first.
   */
  lemma EncodeByteAt(t: Tag, v: int, k: nat)
    requires InRange(t, v) && k < Width(t)
    ensures Encode(t, v)[k] == v % Modulus(t) / Pow256(k) % 256
  {
    LeBytesAt(ToUnsigned(t, v), Width(t), k);
    ToUnsignedMod(t, v);
  }

  /**
   * `from_bytes(to_bytes(v)) == v`, also when more bytes follow the
   * encoding: decoding never looks past `BYTE_LENGTH` bytes.
   */
  lemma DecodeEncode(t: Tag, v: int, rest: seq<byte>)
    requires InRange(t, v)
    ensures Decode(t, Encode(t, v) + rest) == v
  {
    var u := ToUnsigned(t, v);
    assert (Encode(t, v) + rest)[..Width(t)] == Encode(t, v);
    LeValueOfLeBytes(u, Width(t));
    FromToUnsigned(t, v);
  }

  /** `to_bytes(from_bytes(b)) == b` for every sequence of exactly `BYTE_LENGTH` bytes. */
  lemma EncodeDecode(t: Tag, b: seq<byte>)
    requires |b| == Width(t)
    ensures Encode(t, Decode(t, b)) == b
  {
    assert b[..Width(t)] == b;
    LeBytesOfLeValue(b);
    ToFromUnsigned(t, LeValue(b));
  }

  /** Encoding is one-to-one: distinct values never share a byte pattern. */
  lemma EncodeInjective(t: Tag, v: int, w: int)
    requires InRange(t, v) && InRange(t, w)
    requires Encode(t, v) == Encode(t, w)
    ensures v == w
  {
    DecodeEncode(t, v, []);
    DecodeEncode(t, w, []);
    assert Encode(t, v) + [] == Encode(t, v);
    assert Encode(t, w) + [] == Encode(t, w);
  }

  /**
   * A signed type decodes to a negative number exactly when the top bit of
   * its last (most significant) byte is set.
   */
  lemma DecodeSign(t: Tag, x: seq<byte>)
    requires t.IsSigned() && |x| >= Width(t)
    ensures Decode(t, x) < 0 <==> x[Width(t) - 1] >= 128
  {
    var n := Width(t);
    var b := x[..n];
    LeValueTop(b);
    assert b[n - 1] == x[n - 1];
  }

  /** A signed value is negative exactly when its encoding ends in a byte of 128 or more. */
  lemma EncodeSign(t: Tag, v: int)
    requires t.IsSigned() && InRange(t, v)
    ensures v < 0 <==> Encode(t, v)[Width(t) - 1] >= 128
  {
    DecodeEncode(t, v, []);
    assert Encode(t, v) + [] == Encode(t, v);
    DecodeSign(t, Encode(t, v));
  }

  /** Worked examples of the two's-complement little-endian layout. */
  lemma CodecExamples()
    ensures Decode(I8, [0xFF]) == -1
    ensures Decode(U8, [0xFF]) == 255
    ensures Decode(U16, [0x01, 0x02, 0x7F]) == 0x0201
    ensures Encode(I16, -2) == [0xFE, 0xFF]
    ensures Encode(U32, 1) == [0x01, 0x00, 0x00, 0x00]
  {
    assert [0x01, 0x02, 0x7F][..2] == [0x01, 0x02];
  }

  /** Every value of `vs` fits the type. */
  predicate AllInRange(t: Tag, vs: seq<int>) {
    forall i :: 0 <= i < |vs| ==> InRange(t, vs[i])
  }

  /** Removing one chunk from a whole number of chunks leaves a whole number of chunks. */
  lemma DropChunk(n: nat, w: nat)
    requires w > 0 && n >= w && n % w == 0
    ensures (n - w) % w == 0 && (n - w) / w == n / w - 1
  {
    var q := n / w;
    assert n == q * w;
    assert n - w == (q - 1) * w;
    DivUnique(n - w, w, q - 1, 0);
  }

  /** Removing one chunk does not change how far a length is from a whole number of chunks. */
  lemma DropChunkMod(n: nat, w: nat)
    requires w > 0 && n >= w
    ensures (n - w) % w == n % w
    ensures 0 < n % w ==> 0 < (n - w) % w
  {
    DivUnique(n, w, (n - w) / w + 1, (n - w) % w);
  }

  /** A headerless file of values: their encodings back to back, in order. */
  function EncodeAll(t: Tag, vs: seq<int>): seq<byte>
    requires AllInRange(t, vs)
  {
    if vs == [] then [] else Encode(t, vs[0]) + EncodeAll(t, vs[1..])
  }

  /**
   * The values of the whole chunks of a file, chunk by chunk, in file order;
   * a trailing chunk shorter than `BYTE_LENGTH` holds no value.
   */
  function DecodeAll(t: Tag, s: seq<byte>): seq<int>
    decreases |s|
  {
    if |s| < Width(t) then [] else [Decode(t, s)] + DecodeAll(t, s[Width(t)..])
  }

  /** Every value read back from a file is one the type can hold. */
  lemma {:induction false} DecodeAllInRange(t: Tag, s: seq<byte>)
    ensures AllInRange(t, DecodeAll(t, s))
    decreases |s|
  {
    if |s| >= Width(t) {
      DecodeAllInRange(t, s[Width(t)..]);
    }
  }

  /** Decoding looks at the first `BYTE_LENGTH` bytes and at nothing else. */
  lemma DecodeFront(t: Tag, x: seq<byte>, y: seq<byte>)
    requires |x| >= Width(t) && |y| >= Width(t) && x[..Width(t)] == y[..Width(t)]
    ensures Decode(t, x) == Decode(t, y)
  {
  }

  /** A file with at least one whole chunk: the first chunk's value, then the rest's. */
  lemma DecodeAllFirst(t: Tag, s: seq<byte>)
    requires |s| >= Width(t)
    ensures DecodeAll(t, s) == [Decode(t, s)] + DecodeAll(t, s[Width(t)..])
  {
  }

  /** A file of `n` values is exactly `n` times `BYTE_LENGTH` bytes long. */
  lemma {:induction false} EncodeAllLength(t: Tag, vs: seq<int>)
    requires AllInRange(t, vs)
    ensures |EncodeAll(t, vs)| == |vs| * Width(t)
  {
    if vs != [] {
      EncodeAllLength(t, vs[1..]);
      assert |vs| * Width(t) == Width(t) + (|vs| - 1) * Width(t);
    }
  }

  /** A file holds as many values as it has whole chunks. */
  lemma {:induction false} DecodeAllLength(t: Tag, s: seq<byte>)
    ensures |DecodeAll(t, s)| == |s| / Width(t)
    decreases |s|
  {
    var w := Width(t);
    if |s| < w {
      DivUnique(|s|, w, 0, |s|);
    } else {
      DecodeAllLength(t, s[w..]);
      var n := |s| - w;
      DivUnique(|s|, w, n / w + 1, n % w);
    }
  }

  /** Concatenation of byte sequences is associative. */
  lemma AppendAssoc(a: seq<byte>, b: seq<byte>, c: seq<byte>)
    ensures a + (b + c) == (a + b) + c
  {
  }

  /** Encoding one more value appends its bytes. */
  lemma {:induction false} EncodeAllAppend(t: Tag, vs: seq<int>, v: int)
    requires AllInRange(t, vs) && InRange(t, v)
    ensures EncodeAll(t, vs + [v]) == EncodeAll(t, vs) + Encode(t, v)
  {
    if vs != [] {
      var head, tail := Encode(t, vs[0]), vs[1..];
      assert (vs + [v])[0] == vs[0];
      assert (vs + [v])[1..] == tail + [v];
      EncodeAllAppend(t, tail, v);
      AppendAssoc(head, EncodeAll(t, tail), Encode(t, v));
    } else {
      assert EncodeAll(t, []) == [];
    }
  }

  /** A file written value by value reads back as the same values. */
  lemma {:induction false} DecodeAllEncodeAll(t: Tag, vs: seq<int>)
    requires AllInRange(t, vs)
    ensures DecodeAll(t, EncodeAll(t, vs)) == vs
  {
    if vs != [] {
      var w := Width(t);
      var head, tail := Encode(t, vs[0]), EncodeAll(t, vs[1..]);
      var s := EncodeAll(t, vs);
      assert s == head + tail;
      assert s[w..] == tail;
      DecodeEncode(t, vs[0], tail);
      DecodeAllEncodeAll(t, vs[1..]);
      assert DecodeAll(t, s) == [Decode(t, s)] + DecodeAll(t, tail);
    }
  }

  /** Every file of whole chunks is the encoding of its decoded values. */
  lemma {:induction false} EncodeAllDecodeAll(t: Tag, s: seq<byte>)
    requires |s| % Width(t) == 0
    ensures AllInRange(t, DecodeAll(t, s)) && EncodeAll(t, DecodeAll(t, s)) == s
    decreases |s|
  {
    DecodeAllInRange(t, s);
    if |s| > 0 {
      var w := Width(t);
      if |s| < w {
        DivUnique(|s|, w, 0, |s|);
        assert false;
      }
      DropChunk(|s|, w);
      var head, tail := s[..w], s[w..];
      var v := Decode(t, s);
      DecodeAllFirst(t, s);
      DecodeFront(t, head, s);
      EncodeDecode(t, head);
      DecodeAllInRange(t, tail);
      EncodeAllDecodeAll(t, tail);
      EncodeAllCons(t, v, DecodeAll(t, tail));
      SplitAt(s, w);
    }
  }

  /** A sequence is its first `n` elements followed by the rest. */
  lemma SplitAt(s: seq<byte>, n: nat)
    requires n <= |s|
    ensures s[..n] + s[n..] == s
  {
  }

  /** Encoding a value put in front of others puts its bytes in front. */
  lemma EncodeAllCons(t: Tag, v: int, vs: seq<int>)
    requires InRange(t, v) && AllInRange(t, vs)
    ensures AllInRange(t, [v] + vs)
    ensures EncodeAll(t, [v] + vs) == Encode(t, v) + EncodeAll(t, vs)
  {
    assert ([v] + vs)[1..] == vs;
  }

}
