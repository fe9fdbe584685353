/** Fixed-width big-endian integers over byte sequences, shared by the encoder and the decoder
    of the native replay protocol. */
module Bytes {
  import opened Arithmetic

  newtype byte = x: int | 0 <= x < 256

  type bytes = seq<byte>

  /** 256 to the power `width`. */
  function Span(width: nat): (s: nat)
    ensures s >= 1
  {
    if width == 0 then 1 else 256 * Span(width - 1)
  }

  /** The low `width` bytes of `v`, most significant first.  `v` may be negative or too wide: as in
      an Erlang bit-string segment, only the low bits are kept (two's complement). */
  function Be(width: nat, v: int): (bs: bytes)
    ensures |bs| == width
  {
    if width == 0 then [] else Be(width - 1, v / 256) + [(v % 256) as byte]
  }

  /** The unsigned value of a big-endian byte string. */
  function FromBe(bs: bytes): (v: nat)
    ensures v < Span(|bs|)
  {
    if bs == [] then 0
    else 256 * FromBe(bs[..|bs| - 1]) + bs[|bs| - 1] as int
  }

  /** Reduction modulo `256 * m` splits into the last byte and the rest. */
  lemma ModSplit(v: int, m: nat)
    requires m >= 1
    ensures v % (256 * m) == 256 * ((v / 256) % m) + v % 256
  {
    var q := v / 256;
    var r := 256 * (q % m) + v % 256;
    var k := q / m;
    assert q == m * k + q % m;
    assert v == 256 * q + v % 256;
    assert v == (256 * m) * k + r by {
      assert 256 * (m * k) == (256 * m) * k;
    }
    assert 0 <= r < 256 * m;
    UniqueRemainder(v, 256 * m, k, r);
  }

  /** Decoding inverts encoding up to the width of the field. */
  lemma {:induction false} FromBeOfBe(width: nat, v: int)
    ensures FromBe(Be(width, v)) == v % Span(width)
  {
    if width > 0 {
      var bs := Be(width, v);
      assert bs[..|bs| - 1] == Be(width - 1, v / 256);
      FromBeOfBe(width - 1, v / 256);
      ModSplit(v, Span(width - 1));
    }
  }

  /** Encoding inverts decoding on every byte string. */
  lemma {:induction false} BeOfFromBe(bs: bytes)
    ensures Be(|bs|, FromBe(bs)) == bs
  {
    if bs != [] {
      var front := bs[..|bs| - 1];
      BeOfFromBe(front);
      assert FromBe(bs) / 256 == FromBe(front) && FromBe(bs) % 256 == bs[|bs| - 1] as int;
      assert bs == front + [bs[|bs| - 1]];
    }
  }

  /** Encodings that agree modulo the field width are the same bytes. */
  lemma {:induction false} BeOfMod(width: nat, v: int)
    ensures Be(width, v % Span(width)) == Be(width, v)
  {
    FromBeOfBe(width, v);
    BeOfFromBe(Be(width, v));
  }

  lemma Spans()
    ensures Span(1) == 0x100 && Span(2) == 0x1_0000 && Span(4) == 0x1_0000_0000
    ensures Span(8) == 0x1_0000_0000_0000_0000
  {
    assert Span(1) == 256 * Span(0);
    assert Span(2) == 256 * Span(1);
    assert Span(3) == 256 * Span(2);
    assert Span(4) == 256 * Span(3);
    assert Span(5) == 256 * Span(4);
    assert Span(6) == 256 * Span(5);
    assert Span(7) == 256 * Span(6);
    assert Span(8) == 256 * Span(7);
  }

  /** The C conversion from `uint64_t` to `int64_t`. */
  function ToInt64(u: nat): int {
    if u < 0x8000_0000_0000_0000 then u else u - 0x1_0000_0000_0000_0000
  }

  predicate IsInt64(v: int) {
    -0x8000_0000_0000_0000 <= v < 0x8000_0000_0000_0000
  }

  /** A signed 64-bit field carries a value unchanged exactly when it is an `int64_t`. */
  lemma SignedFieldExact(v: int)
    ensures ToInt64(FromBe(Be(8, v))) == v <==> IsInt64(v)
    ensures IsInt64(ToInt64(FromBe(Be(8, v))))
  {
    Spans();
    FromBeOfBe(8, v);
    var d := 0x1_0000_0000_0000_0000;
    if 0 <= v < d {
      assert v % d == v;
    } else if -d <= v < 0 {
      UniqueRemainder(v, d, -1, v + d);
    }
  }

  /** An unsigned field carries a value unchanged when it fits. */
  lemma UnsignedField(width: nat, v: nat)
    requires v < Span(width)
    ensures FromBe(Be(width, v)) == v
  {
    FromBeOfBe(width, v);
  }

  /** `chunk` stands in `data` at `offset`. */
  predicate At(data: bytes, offset: nat, chunk: bytes) {
    offset + |chunk| <= |data| && data[offset..offset + |chunk|] == chunk
  }

  lemma AtSplit(data: bytes, offset: nat, a: bytes, b: bytes)
    ensures At(data, offset, a + b) <==> At(data, offset, a) && At(data, offset + |a|, b)
  {
    if At(data, offset, a + b) {
      var whole := data[offset..offset + |a + b|];
      assert data[offset..offset + |a|] == whole[..|a|] == a;
      assert data[offset + |a|..offset + |a| + |b|] == whole[|a|..] == b;
    }
    if At(data, offset, a) && At(data, offset + |a|, b) {
      assert data[offset..offset + |a + b|]
          == data[offset..offset + |a|] + data[offset + |a|..offset + |a| + |b|];
    }
  }
}
