/** The 128-bit identifier of the `uuid` crate, as far as the codec needs it:
    sixteen bytes in network (big-endian) order, their reading as an unsigned
    128-bit integer (`Uuid::from_u128` / `Uuid::as_u128`), the all-zero and
    all-one values, construction from a raw byte slice, and the order `Uuid`
    derives from its byte array. */
module Uuids {
  import opened Outcomes

  type Byte = b: int | 0 <= b < 256

  /** 2^128: every `u128` is below it. */
  const U128Limit: nat := 0x1_0000_0000_0000_0000_0000_0000_0000_0000

  type U128 = n: nat | n < U128Limit

  type Bytes16 = s: seq<Byte> | |s| == 16
    witness [0, 0, 0, 0, 0, 0, 0, 0, 0, 0, 0, 0, 0, 0, 0, 0]

  datatype Uuid = Uuid(bytes: Bytes16)

  function Pow256(k: nat): (p: nat)
    ensures p >= 1
  {
    if k == 0 then 1 else 256 * Pow256(k - 1)
  }

  lemma SixteenBytesAreU128()
    ensures Pow256(16) == U128Limit
  {
    assert Pow256(1) == 0x100;
    assert Pow256(2) == 0x1_0000;
    assert Pow256(3) == 0x100_0000;
    assert Pow256(4) == 0x1_0000_0000;
    assert Pow256(5) == 0x100_0000_0000;
    assert Pow256(6) == 0x1_0000_0000_0000;
    assert Pow256(7) == 0x100_0000_0000_0000;
    assert Pow256(8) == 0x1_0000_0000_0000_0000;
    assert Pow256(9) == 0x100_0000_0000_0000_0000;
    assert Pow256(10) == 0x1_0000_0000_0000_0000_0000;
    assert Pow256(11) == 0x100_0000_0000_0000_0000_0000;
    assert Pow256(12) == 0x1_0000_0000_0000_0000_0000_0000;
    assert Pow256(13) == 0x100_0000_0000_0000_0000_0000_0000;
    assert Pow256(14) == 0x1_0000_0000_0000_0000_0000_0000_0000;
    assert Pow256(15) == 0x100_0000_0000_0000_0000_0000_0000_0000;
  }

  /** The unsigned integer whose big-endian bytes are `s`. */
  function BigEndian(s: seq<Byte>): nat
  {
    if s == [] then 0 else BigEndian(s[..|s| - 1]) * 256 + s[|s| - 1]
  }

  /** The `k` low-order bytes of `n`, most significant first. */
  function ToBigEndian(n: nat, k: nat): (s: seq<Byte>)
    ensures |s| == k
  {
    if k == 0 then [] else ToBigEndian(n / 256, k - 1) + [n % 256]
  }

  lemma {:induction false} BigEndianBound(s: seq<Byte>)
    ensures BigEndian(s) < Pow256(|s|)
  {
    if s != [] {
      BigEndianBound(s[..|s| - 1]);
    }
  }

  /** Writing a number that fits in `k` bytes and reading it back gives the number. */
  lemma {:induction false} BigEndianOfToBigEndian(n: nat, k: nat)
    requires n < Pow256(k)
    ensures BigEndian(ToBigEndian(n, k)) == n
  {
    if k > 0 {
      var s := ToBigEndian(n, k);
      assert s[..k - 1] == ToBigEndian(n / 256, k - 1);
      BigEndianOfToBigEndian(n / 256, k - 1);
    }
  }

  /** Reading bytes as a number and writing it back at the same width gives the bytes. */
  lemma {:induction false} ToBigEndianOfBigEndian(s: seq<Byte>)
    ensures ToBigEndian(BigEndian(s), |s|) == s
  {
    if s != [] {
      var p := s[..|s| - 1];
      ToBigEndianOfBigEndian(p);
      assert (BigEndian(p) * 256 + s[|s| - 1]) / 256 == BigEndian(p);
      assert s == p + [s[|s| - 1]];
    }
  }

  /** `Uuid::from_u128`: the identifier whose big-endian bytes spell `n`. */
  function FromU128(n: U128): (u: Uuid)
    ensures BigEndian(u.bytes) == n
  {
    SixteenBytesAreU128();
    BigEndianOfToBigEndian(n, 16);
    Uuid(ToBigEndian(n, 16))
  }

  /** `Uuid::as_u128`: the identifier's bytes read as a big-endian integer. */
  function AsU128(u: Uuid): (n: U128)
    ensures ToBigEndian(n, 16) == u.bytes
  {
    SixteenBytesAreU128();
    BigEndianBound(u.bytes);
    ToBigEndianOfBigEndian(u.bytes);
    BigEndian(u.bytes)
  }

  lemma AsU128OfFromU128(n: U128)
    ensures AsU128(FromU128(n)) == n
  {
  }

  lemma FromU128OfAsU128(u: Uuid)
    ensures FromU128(AsU128(u)) == u
  {
  }

  /** A byte string of one repeated byte reads as 0 when the byte is 0 and as the
      largest value of its width when the byte is 0xff. */
  lemma {:induction false} BigEndianUniform(s: seq<Byte>, b: Byte)
    requires b == 0 || b == 255
    requires forall i :: 0 <= i < |s| ==> s[i] == b
    ensures b == 0 ==> BigEndian(s) == 0
    ensures b == 255 ==> BigEndian(s) == Pow256(|s|) - 1
  {
    if s != [] {
      BigEndianUniform(s[..|s| - 1], b);
    }
  }

  /** `Uuid::nil`: all sixteen bytes zero, the integer 0. */
  function Nil(): (u: Uuid)
    ensures AsU128(u) == 0
  {
    var zeros := [0, 0, 0, 0, 0, 0, 0, 0, 0, 0, 0, 0, 0, 0, 0, 0];
    BigEndianUniform(zeros, 0);
    Uuid(zeros)
  }

  /** `Uuid::max`: all sixteen bytes 0xff, the largest `u128`. */
  function Max(): (u: Uuid)
    ensures AsU128(u) == U128Limit - 1
  {
    var ones := [255, 255, 255, 255, 255, 255, 255, 255, 255, 255, 255, 255, 255, 255, 255, 255];
    BigEndianUniform(ones, 255);
    SixteenBytesAreU128();
    Uuid(ones)
  }

  /** Lexicographic order of two byte strings of one length, as Rust compares arrays. */
  predicate LexLess(a: seq<Byte>, b: seq<Byte>)
    requires |a| == |b|
  {
    a != [] && (a[0] < b[0] || (a[0] == b[0] && LexLess(a[1..], b[1..])))
  }

  /** The `<` that `Uuid` derives (and `Uuid32` derives in turn). */
  predicate Less(a: Uuid, b: Uuid)
  {
    LexLess(a.bytes, b.bytes)
  }

  /** Appending one byte to each side decides the comparison only on a tie. */
  lemma {:induction false} LexLessSnoc(a: seq<Byte>, b: seq<Byte>, x: Byte, y: Byte)
    requires |a| == |b|
    ensures LexLess(a + [x], b + [y]) <==> LexLess(a, b) || (a == b && x < y)
  {
    if a != [] {
      assert (a + [x])[1..] == a[1..] + [x];
      assert (b + [y])[1..] == b[1..] + [y];
      LexLessSnoc(a[1..], b[1..], x, y);
      assert a == b <==> a[0] == b[0] && a[1..] == b[1..];
    }
  }

  /** On byte strings of one length, lexicographic order is the numeric order of
      their big-endian readings. */
  lemma {:induction false} LexLessIsNumeric(a: seq<Byte>, b: seq<Byte>)
    requires |a| == |b|
    ensures LexLess(a, b) <==> BigEndian(a) < BigEndian(b)
  {
    if a != [] {
      var n := |a|;
      var a', b' := a[..n - 1], b[..n - 1];
      LexLessIsNumeric(a', b');
      ToBigEndianOfBigEndian(a');
      ToBigEndianOfBigEndian(b');
      assert a' == b' <==> BigEndian(a') == BigEndian(b');
      assert a == a' + [a[n - 1]] && b == b' + [b[n - 1]];
      LexLessSnoc(a', b', a[n - 1], b[n - 1]);
      ShiftedOrder(BigEndian(a'), BigEndian(b'), a[n - 1], b[n - 1]);
    }
  }

  lemma ShiftedOrder(p: nat, q: nat, x: Byte, y: Byte)
    ensures p * 256 + x < q * 256 + y <==> p < q || (p == q && x < y)
  {
  }

  /** The derived `<` on identifiers is the unsigned order of their 128-bit values. */
  lemma LessIsNumeric(a: Uuid, b: Uuid)
    ensures Less(a, b) <==> AsU128(a) < AsU128(b)
  {
    LexLessIsNumeric(a.bytes, b.bytes);
  }

  /** Two identifiers are equal exactly when their 128-bit values are. */
  lemma EqualIsNumeric(a: Uuid, b: Uuid)
    ensures a == b <==> AsU128(a) == AsU128(b)
  {
  }
}
