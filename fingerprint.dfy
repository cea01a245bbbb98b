/** The 64-bit average hash (aHash) of a page and the Hamming distance between
    two hashes (Main.java, `averageHash64` and the `Long.bitCount(ha ^ hb)`
    expressions of `groupDuplicates` and `compareRegionHashes`).

    Bit positions are `bv8` values below 64; position 0 is the least significant
    bit, which `averageHash64` assigns to the first of the 64 grayscale samples. */
module Fingerprint {

  /** Bit `i` of a fingerprint. */
  function Bit(x: bv64, i: bv8): bool
    requires i < 64
  {
    (x >> i) & 1 == 1
  }

  /** The number of set bits at positions `i` and above. */
  function CountFrom(x: bv64, i: bv8): (r: nat)
    requires i <= 64
    ensures r <= 64 - i as int
    decreases 64 - i
  {
    if i == 64 then 0 else (if Bit(x, i) then 1 else 0) + CountFrom(x, i + 1)
  }

  /** `Long.bitCount`: the number of one-bits of a 64-bit value. */
  function PopCount(x: bv64): (r: nat)
  {
    CountFrom(x, 0)
  }

  /** The Hamming distance between two fingerprints, `Long.bitCount(ha ^ hb)`. */
  function Distance(a: bv64, b: bv64): (d: nat)
    ensures d <= 64
  {
    PopCount(a ^ b)
  }

  /** Reference definition: the number of positions `i` and above at which the two
      fingerprints carry different bits. */
  function DifferingFrom(a: bv64, b: bv64, i: bv8): nat
    requires i <= 64
    decreases 64 - i
  {
    if i == 64 then 0 else (if Bit(a, i) != Bit(b, i) then 1 else 0) + DifferingFrom(a, b, i + 1)
  }

  lemma XorBit(a: bv64, b: bv64, i: bv8)
    requires i < 64
    ensures Bit(a ^ b, i) == (Bit(a, i) != Bit(b, i))
  {
  }

  lemma {:induction false} CountFromXor(a: bv64, b: bv64, i: bv8)
    requires i <= 64
    ensures CountFrom(a ^ b, i) == DifferingFrom(a, b, i)
    decreases 64 - i
  {
    if i < 64 {
      XorBit(a, b, i);
      CountFromXor(a, b, i + 1);
    }
  }

  /** The distance is the number of bit positions at which the fingerprints differ. */
  lemma DistanceCountsDifferingBits(a: bv64, b: bv64)
    ensures Distance(a, b) == DifferingFrom(a, b, 0)
  {
    CountFromXor(a, b, 0);
  }

  lemma {:induction false} CountFromZero(x: bv64, i: bv8)
    requires i <= 64
    ensures CountFrom(x, i) == 0 <==> forall k: bv8 :: i <= k < 64 ==> !Bit(x, k)
    decreases 64 - i
  {
    if i < 64 {
      CountFromZero(x, i + 1);
    }
  }

  lemma ShiftStep(x: bv64, n: bv8)
    requires n < 64
    ensures x >> n == ((x >> (n + 1)) << 1) | ((x >> n) & 1)
  {
  }

  lemma {:induction false} NoBitsFrom(x: bv64, n: bv8)
    requires n <= 64
    requires forall k: bv8 :: n <= k < 64 ==> !Bit(x, k)
    ensures x >> n == 0
    decreases 64 - n
  {
    if n < 64 {
      assert !Bit(x, n);
      NoBitsFrom(x, n + 1);
      ShiftStep(x, n);
    }
  }

  /** A fingerprint is determined by its 64 bits. */
  lemma SameBitsSameValue(x: bv64, y: bv64)
    requires forall k: bv8 :: k < 64 ==> Bit(x, k) == Bit(y, k)
    ensures x == y
  {
    var z := x ^ y;
    forall k: bv8 | k < 64 ensures !Bit(z, k) {
      XorBit(x, y, k);
    }
    NoBitsFrom(z, 0);
  }

  /** The distance is symmetric, bounded by 64, and zero exactly when the
      fingerprints are identical. */
  lemma DistanceProperties(a: bv64, b: bv64)
    ensures Distance(a, b) == Distance(b, a)
    ensures Distance(a, b) <= 64
    ensures Distance(a, b) == 0 <==> a == b
  {
    assert a ^ b == b ^ a;
    CountFromZero(a ^ b, 0);
    if Distance(a, b) == 0 {
      forall k: bv8 | k < 64 ensures Bit(a, k) == Bit(b, k) {
        XorBit(a, b, k);
      }
      SameBitsSameValue(a, b);
    }
  }

  /** Sum of the samples (a Java `long` accumulator cannot overflow on 64 `int`s). */
  function Sum(s: seq<int>): int
  {
    if s == [] then 0 else Sum(s[..|s| - 1]) + s[|s| - 1]
  }

  /** Java's integer division, which rounds toward zero (Dafny's `/` rounds down). */
  function TruncDiv(a: int, b: int): (q: int)
    requires b > 0
    ensures a >= 0 ==> q * b <= a < q * b + b
    ensures a < 0 ==> q * b - b < a <= q * b
  {
    if a >= 0 then a / b else -((-a) / b)
  }

  /** `(int) (sum / pixels.length)`: the truncated mean of the 64 samples. */
  function MeanIntensity(pixels: seq<int>): int
    requires |pixels| == 64
  {
    TruncDiv(Sum(pixels), 64)
  }

  lemma SetBit(x: bv64, i: bv8, k: bv8)
    requires i < 64 && k < 64
    ensures Bit(x | (1 << i), k) == (Bit(x, k) || k == i)
  {
  }

  lemma NextPosition(i: bv8, k: bv8)
    requires i < 64 && k < 64
    ensures k < i + 1 <==> k < i || k == i
  {
  }

  /** The thresholding half of `averageHash64`: bit `i` of the hash is set exactly
      when sample `i` of the 8x8 grayscale grid is strictly above the truncated mean. */
  method AverageHash(pixels: seq<int>) returns (hash: bv64)
    requires |pixels| == 64
    ensures forall i: bv8 :: i < 64 ==> (Bit(hash, i) <==> pixels[i] > MeanIntensity(pixels))
  {
    var sum := 0;
    for k := 0 to 64
      invariant sum == Sum(pixels[..k])
    {
      assert pixels[..k + 1][..k] == pixels[..k];
      sum := sum + pixels[k];
    }
    assert pixels[..64] == pixels;
    var avg := TruncDiv(sum, 64);

    hash := 0;
    var i: bv8 := 0;
    while i < 64
      invariant i <= 64
      invariant forall k: bv8 :: k < 64 ==> (Bit(hash, k) <==> k < i && pixels[k] > avg)
    {
      ghost var before := hash;
      var above := pixels[i] > avg;
      if above {
        hash := hash | (1 << i);
      }
      forall k: bv8 | k < 64 ensures Bit(hash, k) <==> k < i + 1 && pixels[k] > avg {
        NextPosition(i, k);
        if above {
          SetBit(before, i, k);
        }
      }
      i := i + 1;
    }
  }

  lemma {:induction false} SumOfConstant(s: seq<int>, c: int)
    requires forall j :: 0 <= j < |s| ==> s[j] == c
    ensures Sum(s) == |s| * c
  {
    if s != [] {
      SumOfConstant(s[..|s| - 1], c);
    }
  }

  /** A uniform 8x8 grid hashes to 0: no sample is above its own mean. */
  lemma UniformSamplesHashToZero(pixels: seq<int>, hash: bv64)
    requires |pixels| == 64
    requires forall j :: 0 <= j < 64 ==> pixels[j] == pixels[0]
    requires forall i: bv8 :: i < 64 ==> (Bit(hash, i) <==> pixels[i] > MeanIntensity(pixels))
    ensures hash == 0
  {
    SumOfConstant(pixels, pixels[0]);
    assert MeanIntensity(pixels) == pixels[0];
    NoBitsFrom(hash, 0);
  }

  lemma {:induction false} SumAtLeast(s: seq<int>, m: int)
    requires forall j :: 0 <= j < |s| ==> s[j] >= m
    ensures Sum(s) >= |s| * m
  {
    if s != [] {
      SumAtLeast(s[..|s| - 1], m);
    }
  }

  /** Not every sample can lie strictly above the truncated mean, so a hash with all
      64 bits set never comes out. */
  lemma HashNeverAllOnes(pixels: seq<int>, hash: bv64)
    requires |pixels| == 64
    requires forall i: bv8 :: i < 64 ==> (Bit(hash, i) <==> pixels[i] > MeanIntensity(pixels))
    ensures hash != 0xFFFF_FFFF_FFFF_FFFF
  {
    var m := MeanIntensity(pixels);
    if hash == 0xFFFF_FFFF_FFFF_FFFF {
      forall j | 0 <= j < 64 ensures pixels[j] >= m + 1 {
        var i := j as bv8;
        assert Bit(hash, i);
      }
      SumAtLeast(pixels, m + 1);
    }
  }
}
