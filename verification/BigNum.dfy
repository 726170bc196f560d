/** Big-endian conversion of big numbers (`bn.rs`): the byte count is derived from the bit count, and
  * the buffer is handed out at that length after the foreign call filled it. */
module BigNum {

  type byte = n: nat | n < 256

  function Abs(x: int): nat {
    if x < 0 then -x else x
  }

  /** `BN_num_bits`: significant bits of the absolute value. */
  function NumBits(n: nat): nat {
    if n == 0 then 0 else 1 + NumBits(n / 2)
  }

  function NumBytes(x: int): nat {
    (NumBits(Abs(x)) + 7) / 8
  }

  /** `BN_bn2bin`: the base-256 digits, most significant first. */
  function Digits(n: nat): seq<byte> {
    if n == 0 then [] else Digits(n / 256) + [n % 256]
  }

  /** `BN_bin2bn`. */
  function FromSlice(bytes: seq<byte>): nat {
    if bytes == [] then 0 else 256 * FromSlice(bytes[..|bytes| - 1]) + bytes[|bytes| - 1]
  }

  lemma {:induction false} EightBitsPerDigit(n: nat)
    requires n != 0
    ensures 8 * (|Digits(n)| - 1) < NumBits(n) <= 8 * |Digits(n)|
  {
    if n < 256 {
      assert Digits(n) == [] + [n];
      SmallNumBits(n);
    } else {
      EightHalvings(n);
      EightBitsPerDigit(n / 256);
    }
  }

  lemma SmallNumBits(n: nat)
    requires 0 < n < 256
    ensures 1 <= NumBits(n) <= 8
  {
    HalvingBound(n, 8);
  }

  lemma {:induction false} HalvingBound(n: nat, k: nat)
    requires n < Pow2(k)
    ensures NumBits(n) <= k
  {
    if n != 0 {
      HalvingBound(n / 2, k - 1);
    }
  }

  /** The bit count: a number of `k` bits lies between two powers of two. */
  lemma {:induction false} NumBitsMeaning(n: nat)
    ensures n < Pow2(NumBits(n))
    ensures n != 0 ==> Pow2(NumBits(n) - 1) <= n
  {
    if n != 0 {
      NumBitsMeaning(n / 2);
    }
  }

  /** Big-endian: the bytes in front weigh as much more as there are bytes behind. */
  lemma {:induction false} FromSliceMeaning(a: seq<byte>, b: seq<byte>, x: byte)
    ensures FromSlice([]) == 0 && FromSlice([x]) == x
    ensures FromSlice(a + b) == FromSlice(a) * Pow2(8 * |b|) + FromSlice(b)
  {
    assert [x][..0] == [];
    if b == [] {
      assert a + b == a;
    } else {
      var init := b[..|b| - 1];
      assert (a + b)[..|a + b| - 1] == a + init;
      FromSliceMeaning(a, init, x);
      EightDoublings(8 * |init|);
      Shifted(FromSlice(a), Pow2(8 * |init|), FromSlice(init), b[|b| - 1]);
    }
  }

  lemma Shifted(front: nat, weight: nat, back: nat, last: nat)
    ensures 256 * (front * weight + back) + last == front * (256 * weight) + (256 * back + last)
  {
  }

  lemma EightDoublings(k: nat)
    ensures Pow2(k + 8) == 256 * Pow2(k)
  {
    assert Pow2(k + 4) == 16 * Pow2(k) by {
      assert Pow2(k + 2) == 4 * Pow2(k);
    }
    assert Pow2(k + 6) == 4 * Pow2(k + 4);
  }

  function Pow2(k: nat): nat {
    if k == 0 then 1 else 2 * Pow2(k - 1)
  }

  lemma EightHalvings(n: nat)
    requires n >= 256
    ensures NumBits(n) == 8 + NumBits(n / 256)
  {
    FourHalvings(n);
    FourHalvings(n / 16);
    assert n / 16 / 16 == n / 256;
  }

  lemma FourHalvings(n: nat)
    requires n >= 16
    ensures NumBits(n) == 4 + NumBits(n / 16)
  {
    assert NumBits(n) == 1 + NumBits(n / 2) == 2 + NumBits(n / 2 / 2);
    assert NumBits(n / 2 / 2) == 1 + NumBits(n / 2 / 2 / 2) == 2 + NumBits(n / 2 / 2 / 2 / 2);
  }

  /** The byte count is the number of base-256 digits, for every integer. */
  lemma NumBytesIsDigitCount(x: int)
    ensures NumBytes(x) == |Digits(Abs(x))|
  {
    if x != 0 {
      EightBitsPerDigit(Abs(x));
    }
  }

  lemma {:induction false} DigitsRoundTrip(n: nat)
    ensures FromSlice(Digits(n)) == n
    ensures n != 0 ==> Digits(n) != [] && Digits(n)[0] != 0
  {
    if n != 0 {
      DigitsRoundTrip(n / 256);
      assert Digits(n)[..|Digits(n)| - 1] == Digits(n / 256);
    }
  }

  function WithoutLeadingZeros(bytes: seq<byte>): seq<byte> {
    if bytes != [] && bytes[0] == 0 then WithoutLeadingZeros(bytes[1..]) else bytes
  }

  lemma {:induction false} LeadingZeroIsWorthless(bytes: seq<byte>)
    requires bytes != [] && bytes[0] == 0
    ensures FromSlice(bytes[1..]) == FromSlice(bytes)
  {
    var n := |bytes| - 1;
    if n > 0 {
      LeadingZeroIsWorthless(bytes[..n]);
      assert bytes[1..][..n - 1] == bytes[..n][1..];
    }
  }

  lemma {:induction false} CanonicalDigits(bytes: seq<byte>)
    requires bytes != [] ==> bytes[0] != 0
    ensures Digits(FromSlice(bytes)) == bytes
    ensures bytes != [] ==> FromSlice(bytes) != 0
  {
    if bytes != [] {
      var n := |bytes| - 1;
      CanonicalDigits(bytes[..n]);
      assert FromSlice(bytes) / 256 == FromSlice(bytes[..n]) && FromSlice(bytes) % 256 == bytes[n];
      assert bytes == bytes[..n] + [bytes[n]];
    }
  }

  /** Reading bytes and writing them again only loses leading zeros. */
  lemma {:induction false} SliceRoundTrip(bytes: seq<byte>)
    ensures Digits(FromSlice(bytes)) == WithoutLeadingZeros(bytes)
  {
    if bytes != [] && bytes[0] == 0 {
      LeadingZeroIsWorthless(bytes);
      SliceRoundTrip(bytes[1..]);
    } else {
      CanonicalDigits(bytes);
    }
  }

  /** The foreign call writes into the buffer it is given; what it does not write stays arbitrary. */
  method Bn2Bin(n: nat, buf: array<byte>) returns (written: nat)
    requires |Digits(n)| <= buf.Length
    modifies buf
    ensures written == |Digits(n)| && buf[..written] == Digits(n)
  {
    var m, digits: seq<byte> := n, [];
    while m != 0
      invariant Digits(m) + digits == Digits(n)
    {
      digits := [m % 256] + digits;
      m := m / 256;
    }
    written := |digits|;
    for i := 0 to written
      invariant buf[..i] == digits[..i]
    {
      buf[i] := digits[i];
    }
    assert digits[..written] == digits;
  }

  /** Only bytes that were written are handed out, the first one is not zero, and reading them back
    * gives the absolute value. `uninitialised` is whatever the fresh buffer happens to hold. */
  method ToVec(x: int, uninitialised: int -> byte) returns (v: seq<byte>)
    ensures FromSlice(v) == Abs(x)
    ensures v != [] ==> v[0] != 0
  {
    var size := NumBytes(x);
    NumBytesIsDigitCount(x);
    DigitsRoundTrip(Abs(x));
    var buf := new byte[size](i => uninitialised(i));
    var _ := Bn2Bin(Abs(x), buf);
    v := buf[..size];
  }
}
