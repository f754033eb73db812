/**
  The deterministic leakage models of pyecsca's side-channel attack package. Each model maps
  one or two non-negative intermediate values to a small integer observable: the value
  itself, one bit, a bit field, its Hamming weight, the Hamming distance of two values, or
  its bit length. The Python class hierarchy becomes one datatype with a constructor per
  model; the validating constructors become MakeBit and MakeSlice, and `__call__` becomes
  Apply.
 */
module Leakage {
  import Bits

  /** The exceptions the models raise. */
  datatype LeakError =
    | WhichNegative       // ValueError from Bit(which) with which < 0
    | BeginAfterEnd       // ValueError from Slice(begin, end) with begin > end
    | NegativeShiftCount  // ValueError from `1 << i` or `x >> i` with i < 0
    | MissingArgument     // IndexError from `args[k]` when too few arguments are passed

  datatype Result<T> = Ok(value: T) | Err(error: LeakError)

  datatype LeakageModel =
    | Identity
    | Bit(which: int, mask: nat)
    | Slice(begin: int, end: int, mask: nat)
    | HammingWeight
    | HammingDistance
    | BitLength

  /** The class attribute `num_args`: how many arguments `__call__` reads. */
  function NumArgs(m: LeakageModel): (r: nat)
    ensures r == 1 || r == 2
    ensures r == 2 <==> m.HammingDistance?
  {
    match m
    case HammingDistance => 2
    case _ => 1
  }

  /** The (begin, end) pairs for which the Slice constructor returns normally. */
  predicate SliceBounds(begin: int, end: int)
  {
    begin <= end && (begin < end ==> 0 <= begin)
  }

  /**
    The mask the Slice constructor builds: 2^end - 2^begin, and 0 for an empty range. It is
    a run of end - begin one bits shifted left by begin.
   */
  function SliceMask(begin: int, end: int): (r: nat)
    requires SliceBounds(begin, end)
    ensures begin == end ==> r == 0
    ensures begin < end ==> r == (Bits.Pow2(end - begin) - 1) * Bits.Pow2(begin)
  {
    if begin == end then 0
    else
      Bits.Pow2Monotone(begin, end);
      Bits.Pow2Add(end - begin, begin);
      Bits.Pow2(end) - Bits.Pow2(begin)
  }

  /** The fields a model holds after its constructor has returned. */
  predicate Valid(m: LeakageModel)
  {
    match m
    case Bit(which, mask) => 0 <= which && mask == Bits.Pow2(which)
    case Slice(begin, end, mask) => SliceBounds(begin, end) && mask == SliceMask(begin, end)
    case _ => true
  }

  /** `Bit.__init__`: rejects a negative bit index, otherwise stores it and `1 << which`. */
  function MakeBit(which: int): (r: Result<LeakageModel>)
    ensures r.Ok? <==> 0 <= which
    ensures r.Ok? ==> Valid(r.value) && r.value.Bit? && r.value.which == which
    ensures r.Err? ==> r.error == WhichNegative
  {
    if which < 0 then Err(WhichNegative) else Ok(Bit(which, Bits.Pow2(which)))
  }

  /**
    `Slice.__init__`: rejects begin > end, then ORs `1 << i` into the mask for every i in
    `range(begin, end)`; a negative begin fails on the first shift.
   */
  method MakeSlice(begin: int, end: int) returns (r: Result<LeakageModel>)
    ensures begin > end ==> r == Err(BeginAfterEnd)
    ensures begin < 0 && begin < end ==> r == Err(NegativeShiftCount)
    ensures SliceBounds(begin, end) ==> r == Ok(Slice(begin, end, SliceMask(begin, end)))
    ensures r.Ok? ==> Valid(r.value)
  {
    if begin > end {
      return Err(BeginAfterEnd);
    }
    var mask: nat := 0;
    for i := begin to end
      invariant begin < i ==> 0 <= begin
      invariant mask == if begin < i then Bits.Pow2(i) - Bits.Pow2(begin) else 0
    {
      if i < 0 {
        return Err(NegativeShiftCount);
      }
      Bits.Pow2Monotone(begin, i);
      Bits.OrHighBit(mask, i);
      mask := Bits.Or(mask, Bits.Pow2(i));
    }
    return Ok(Slice(begin, end, mask));
  }

  /** `hw(x)` as `x.bit_count()`: the number of 1 bits of x. */
  function Hw(x: nat): (r: nat)
    ensures r == 0 <==> x == 0
    ensures r <= Bits.BitLength(x)
  {
    if x == 0 then 0 else x % 2 + Hw(x / 2)
  }

  /** The binary digits of x as `bin(x)` writes them after "0b", most significant first. */
  function BinDigits(x: nat): (r: string)
    ensures |r| == if x == 0 then 1 else Bits.BitLength(x)
    ensures x == 0 ==> r == "0"
    ensures x > 0 ==> r[0] == '1'
  {
    (if x < 2 then "" else BinDigits(x / 2)) + [if x % 2 == 1 then '1' else '0']
  }

  /** `bin(x)` for x >= 0: "0b" followed by digits that read back as x. */
  function Bin(x: nat): (r: string)
    ensures |r| >= 3 && r[..2] == "0b"
    ensures FromBinDigits(r[2..]) == x
  {
    BinDigitsRoundTrip(x);
    assert ("0b" + BinDigits(x))[2..] == BinDigits(x);
    "0b" + BinDigits(x)
  }

  /** `s.count(c)` for a one-character c. */
  function Count(s: string, c: char): (r: nat)
    ensures r <= |s|
    ensures r == 0 <==> c !in s
  {
    if s == [] then 0 else (if s[0] == c then 1 else 0) + Count(s[1..], c)
  }

  /**
    `hw(x)` as `bin(x).count("1")`, the definition used before Python 3.10. It agrees with
    the `bit_count` definition Hw on every non-negative integer.
   */
  function HwOfBin(x: nat): (r: nat)
    ensures r == Hw(x)
  {
    CountConcat("0b", BinDigits(x), '1');
    BinDigitsOnes(x);
    Count(Bin(x), '1')
  }

  /** The value a string of binary digits denotes. */
  function FromBinDigits(s: string): nat
  {
    if s == [] then 0
    else 2 * FromBinDigits(s[..|s| - 1]) + (if s[|s| - 1] == '1' then 1 else 0)
  }

  /** The number of set bits among bits 0 .. n-1 of x. */
  function CountSetBits(x: nat, n: nat): nat
  {
    if n == 0 then 0 else CountSetBits(x, n - 1) + Bits.BitAt(x, n - 1)
  }

  /** `__call__` of each model, applied to the positional arguments. */
  function Apply(m: LeakageModel, args: seq<nat>): (r: Result<nat>)
    requires Valid(m)
    ensures r.Err? <==> |args| < NumArgs(m) || (m.Slice? && m.begin < 0)
    ensures |args| < NumArgs(m) ==> r == Err(MissingArgument)
    ensures NumArgs(m) <= |args| && m.Slice? && m.begin < 0 ==> r == Err(NegativeShiftCount)
  {
    if |args| < NumArgs(m) then Err(MissingArgument)
    else
      match m
      case Identity => Ok(args[0])
      case Bit(which, mask) => Ok(Bits.Shr(Bits.And(args[0], mask), which))
      case Slice(begin, end, mask) =>
        if begin < 0 then Err(NegativeShiftCount)
        else Ok(Bits.Shr(Bits.And(args[0], mask), begin))
      case HammingWeight => Ok(Hw(args[0]))
      case HammingDistance => Ok(Hw(Bits.Xor(args[0], args[1])))
      case BitLength => Ok(Bits.BitLength(args[0]))
  }

  // ---------------------------------------------------------------------------------------
  // Arity

  /** Arguments past the first NumArgs(m) are ignored. */
  lemma ApplyReadsNumArgs(m: LeakageModel, args: seq<nat>, extra: seq<nat>)
    requires Valid(m) && |args| == NumArgs(m)
    ensures Apply(m, args + extra) == Apply(m, args)
  {
  }

  // ---------------------------------------------------------------------------------------
  // Identity, Bit and Slice

  lemma IdentityLeak(x: nat)
    ensures Apply(Identity, [x]) == Ok(x)
  {
  }

  /** Shifting out the bits of x masked by the slice mask extracts bits begin .. end-1. */
  lemma ExtractBits(x: nat, begin: nat, end: nat)
    requires begin <= end
    ensures Bits.Shr(Bits.And(x, SliceMask(begin, end)), begin)
            == (x / Bits.Pow2(begin)) % Bits.Pow2(end - begin)
  {
    var w := end - begin;
    Bits.ShrIsDiv(x, begin);
    if begin == end {
      Bits.AndZero(x);
      Bits.ShrBelow(0, 0, begin);
    } else {
      var low := Bits.Pow2(w) - 1;
      Bits.AndShifted(x, low, begin);
      Bits.ShrShl(Bits.And(Bits.Shr(x, begin), low), begin);
      Bits.AndLowMask(Bits.Shr(x, begin), w);
    }
  }

  /** The Slice mask has exactly the bits begin .. end-1 set. */
  lemma SliceMaskBits(begin: nat, end: nat, i: nat)
    requires begin <= end
    ensures Bits.BitAt(SliceMask(begin, end), i) == if begin <= i < end then 1 else 0
  {
    if begin == end {
      Bits.ShrBelow(0, 0, i);
    } else {
      var low := Bits.Pow2(end - begin) - 1;
      Bits.BitAtShifted(low, begin, i);
      if begin <= i {
        Bits.BitAtLowMask(end - begin, i - begin);
      }
    }
  }

  /** A Slice model outputs bits begin .. end-1 of its argument, as a number below 2^(end-begin). */
  lemma SliceLeak(begin: nat, end: nat, x: nat)
    requires begin <= end
    ensures Apply(Slice(begin, end, SliceMask(begin, end)), [x])
            == Ok((x / Bits.Pow2(begin)) % Bits.Pow2(end - begin))
    ensures begin == end ==> Apply(Slice(begin, end, SliceMask(begin, end)), [x]) == Ok(0)
  {
    ExtractBits(x, begin, end);
  }

  /** A Bit model outputs bit `which` of its argument: 0 or 1. */
  lemma BitLeak(which: int, x: nat)
    requires 0 <= which
    ensures Apply(MakeBit(which).value, [x]) == Ok((x / Bits.Pow2(which)) % 2)
    ensures Apply(MakeBit(which).value, [x]) == Ok(Bits.BitAt(x, which))
  {
    assert SliceMask(which, which + 1) == Bits.Pow2(which);
    ExtractBits(x, which, which + 1);
    Bits.ShrIsDiv(x, which);
  }

  /** Bits at or above the bit length of x are 0. */
  lemma BitAboveBitLength(which: int, x: nat)
    requires Bits.BitLength(x) <= which
    ensures Apply(MakeBit(which).value, [x]) == Ok(0)
  {
    BitLeak(which, x);
    Bits.ShrBelow(x, Bits.BitLength(x), which);
  }

  // ---------------------------------------------------------------------------------------
  // Hamming weight

  lemma {:induction false} BinDigitsOnes(x: nat)
    ensures Count(BinDigits(x), '1') == Hw(x)
  {
    var last := [if x % 2 == 1 then '1' else '0'];
    if x >= 2 {
      CountConcat(BinDigits(x / 2), last, '1');
      BinDigitsOnes(x / 2);
    }
  }

  lemma {:induction false} CountConcat(a: string, b: string, c: char)
    ensures Count(a + b, c) == Count(a, c) + Count(b, c)
  {
    if a == [] {
      assert a + b == b;
    } else {
      assert (a + b)[1..] == a[1..] + b;
      CountConcat(a[1..], b, c);
    }
  }

  /** `bin` writes x in binary: reading its digits back gives x. */
  lemma {:induction false} BinDigitsRoundTrip(x: nat)
    ensures FromBinDigits(BinDigits(x)) == x
  {
    var s := BinDigits(x);
    assert s[..|s| - 1] == if x < 2 then "" else BinDigits(x / 2);
    if x >= 2 {
      BinDigitsRoundTrip(x / 2);
    }
  }

  /** Every character `bin` writes after "0b" is a binary digit. */
  lemma {:induction false} BinDigitsAreDigits(x: nat)
    ensures forall k :: 0 <= k < |BinDigits(x)| ==> BinDigits(x)[k] in "01"
  {
    if x >= 2 {
      BinDigitsAreDigits(x / 2);
    }
  }

  /**
    `bin(x)` is "0b" followed by the minimal binary digits of x: "0b0" for 0, and for x > 0
    exactly `x.bit_length()` digits, each '0' or '1', the first of them '1'.
   */
  lemma {:induction false} BinShape(x: nat)
    ensures x == 0 ==> Bin(x) == "0b0"
    ensures |Bin(x)| == 2 + (if x == 0 then 1 else Bits.BitLength(x))
    ensures x > 0 ==> Bin(x)[2] == '1'
    ensures forall k :: 2 <= k < |Bin(x)| ==> Bin(x)[k] in "01"
  {
    BinDigitsAreDigits(x);
    assert forall k :: 2 <= k < |Bin(x)| ==> Bin(x)[k] == BinDigits(x)[k - 2];
  }

  /** Counting set bits from the top agrees with peeling off the lowest bit. */
  lemma {:induction false} CountSetBitsLow(x: nat, n: nat)
    ensures CountSetBits(x, n + 1) == x % 2 + CountSetBits(x / 2, n)
  {
    if n > 0 {
      CountSetBitsLow(x, n - 1);
    }
  }

  /** `hw(x)` is the number of 1 bits of x. */
  lemma {:induction false} HwCountsSetBits(x: nat)
    ensures Hw(x) == CountSetBits(x, Bits.BitLength(x))
  {
    if x > 0 {
      HwCountsSetBits(x / 2);
      CountSetBitsLow(x, Bits.BitLength(x / 2));
    }
  }

  /** The HammingWeight model outputs the number of 1 bits of its argument. */
  lemma HammingWeightLeak(x: nat)
    ensures Apply(HammingWeight, [x]) == Ok(CountSetBits(x, Bits.BitLength(x)))
    ensures Apply(HammingWeight, [x]) == Ok(HwOfBin(x))
  {
    HwCountsSetBits(x);
  }

  // ---------------------------------------------------------------------------------------
  // Hamming distance

  lemma HammingDistanceSymmetric(a: nat, b: nat)
    ensures Apply(HammingDistance, [a, b]) == Apply(HammingDistance, [b, a])
  {
    Bits.XorComm(a, b);
  }

  lemma HammingDistanceZeroIff(a: nat, b: nat)
    ensures Apply(HammingDistance, [a, b]) == Ok(0) <==> a == b
  {
    Bits.XorZeroIff(a, b);
  }

  /** The distance to 0 is the Hamming weight. */
  lemma HammingDistanceToZero(x: nat)
    ensures Apply(HammingDistance, [x, 0]) == Apply(HammingWeight, [x])
  {
    Bits.XorZeroRight(x);
  }

  /** Two values differ in at most as many bits as the larger one has. */
  lemma HammingDistanceBound(a: nat, b: nat)
    ensures Apply(HammingDistance, [a, b]).value <= Bits.BitLength(if a < b then b else a)
  {
    var n := Bits.BitLength(if a < b then b else a);
    var d := Bits.Xor(a, b);
    Bits.Pow2Monotone(0, n);
    Bits.XorBelow(a, b, n);
    Bits.BitLengthBelow(d, n);
  }

  // ---------------------------------------------------------------------------------------
  // Bit length

  /** The BitLength model outputs the L with 2^(L-1) <= x < 2^L, and 0 for 0. */
  lemma BitLengthLeak(x: nat)
    ensures Apply(BitLength, [x]).Ok?
    ensures var l := Apply(BitLength, [x]).value;
      (x == 0 ==> l == 0) && (x > 0 ==> 1 <= l && Bits.Pow2(l - 1) <= x < Bits.Pow2(l))
  {
  }
}
