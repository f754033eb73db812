# Leakage models of pyecsca, in Dafny

pyecsca is a toolkit for side-channel analysis of elliptic-curve code. Its attack package
has leakage models. A leakage model maps an intermediate value, or two of them, to the
small integer a power or EM measurement is assumed to reveal. The deterministic models are:

- `Identity`: the value itself.
- `Bit(which)`: one bit of the value.
- `Slice(begin, end)`: bits `begin .. end-1` of the value, as a number.
- `HammingWeight`: the number of 1 bits.
- `HammingDistance`: the number of bits in which two values differ.
- `BitLength`: the number of bits needed to write the value.

Each model declares how many arguments it takes in `num_args`. `hw`, the bit counter behind
both Hamming models, has two definitions, selected by interpreter version.

The project has two modules.

- `Bits` (bits.dfy) gives Python's operations on non-negative integers:
  - `1 << n` as `Pow2`, `x >> n` as `Shr`;
  - `&`, `|` and `^` as `And`, `Or` and `Xor`;
  - `int.bit_length` as `BitLength`.
  
  The bitwise operators are defined by halving. Each has a lemma that states it bit by bit
  against `BitAt`. `Shr` is proved to be floor division by `2^n`.
- `Leakage` (leakage_model.dfy) holds the models.
  - The abstract base class and its six subclasses become one datatype, `LeakageModel`,
    with one constructor per subclass. The `Bit` and `Slice` constructors carry the fields
    that `__init__` stores.
  - `Bit.__init__` becomes the function `MakeBit`.
  - `Slice.__init__`, which builds its mask in a loop, becomes the method `MakeSlice`. Its
    loop invariant is `mask == 2^i - 2^begin`.
  - `num_args` becomes `NumArgs`. `__call__` becomes `Apply`, which takes the positional
    arguments as a sequence.
  - The exceptions the source raises become `Err` results: `ValueError` for a negative
    `which`, for `begin > end`, and for a negative shift count; `IndexError` for a missing
    argument.

Values passed to the models are `nat`. A model's own parameters (`which`, `begin`, `end`)
are `int`, because the source handles negative ones:

- `Bit` rejects `which < 0` outright.
- `Slice` rejects `begin > end`.
- A `Slice` with `begin < 0` and `begin < end` fails inside the mask loop: `1 << i` with
  `i < 0` raises.
- A `Slice` with `begin == end < 0` is built with mask 0. Every call to it then fails at
  `>> begin`.

## Model

| member | source | states |
|---|---|---|
| `Leakage.NumArgs` | pyecsca/sca/attack/leakage_model.py:42-97 | the class attribute `num_args`: 2 exactly for `HammingDistance`, 1 for every other model; `ApplyReadsNumArgs` proves that `__call__` reads exactly that many arguments |
| `Leakage.SliceMask` | pyecsca/sca/attack/leakage_model.py:71-73 | the mask a `Slice` holds: 0 for an empty range, otherwise `2^(end-begin) - 1` shifted left by `begin`, a run of one bits; `SliceMaskBits` states which bits are set and `MakeSlice` proves the loop builds it |
| `Leakage.MakeBit` | pyecsca/sca/attack/leakage_model.py:52-56 | fails with the `which` error exactly when `which < 0`; otherwise yields a valid `Bit` model holding `which` and the mask `1 << which` |
| `Leakage.MakeSlice` | pyecsca/sca/attack/leakage_model.py:66-73 | `begin > end` fails with the order error. A negative `begin` below `end` fails with the negative-shift error. Every other pair yields a `Slice` whose mask is `2^end - 2^begin` (0 for an empty range). Proved through the loop invariant `mask == 2^i - 2^begin` |
| `Leakage.Apply` | pyecsca/sca/attack/leakage_model.py:42-100 | a call fails exactly when fewer than `num_args` arguments are given, or when a `Slice` has a negative `begin`; the first case is the missing-argument error, the second (with enough arguments) the negative-shift error of `>> begin`; every other call returns a value |
| `Leakage.ApplyReadsNumArgs` | pyecsca/sca/attack/leakage_model.py:42-100 | only the first `num_args` arguments matter: arguments past them do not change the result (2 for `HammingDistance`, 1 for every other model) |
| `Leakage.IdentityLeak` | pyecsca/sca/attack/leakage_model.py:44-45 | `Identity` returns its argument unchanged |
| `Leakage.BitLeak` | pyecsca/sca/attack/leakage_model.py:52-59 | for `which >= 0`, `Bit(which)` returns `(x / 2^which) % 2`, which is bit `which` of `x` |
| `Leakage.BitAboveBitLength` | pyecsca/sca/attack/leakage_model.py:58-59 | `Bit(which)` returns 0 whenever `which >= x.bit_length()` |
| `Leakage.ExtractBits` | pyecsca/sca/attack/leakage_model.py:71-76 | masking `x` with the slice mask and shifting right by `begin` gives `(x / 2^begin) % 2^(end-begin)` |
| `Leakage.SliceMaskBits` | pyecsca/sca/attack/leakage_model.py:71-73 | bit `i` of the slice mask is set exactly when `begin <= i < end` |
| `Leakage.SliceLeak` | pyecsca/sca/attack/leakage_model.py:66-76 | a `Slice(begin, end)` model returns `(x / 2^begin) % 2^(end-begin)`, a number below `2^(end-begin)`; when `begin == end` it returns 0 |
| `Leakage.Hw` | pyecsca/sca/attack/leakage_model.py:12-13 | `hw(x)` as `x.bit_count()`: 0 exactly for `x == 0`, and at most `x.bit_length()` |
| `Leakage.HwOfBin` | pyecsca/sca/attack/leakage_model.py:9-10 | `hw(x)` as `bin(x).count("1")` equals `Hw(x)` on every non-negative integer, so the two definitions of `hw` agree |
| `Leakage.Bin` | pyecsca/sca/attack/leakage_model.py:10 | `bin(x)` is `0b` followed by at least one character, and those characters read back as `x`; `BinShape` pins down the text itself |
| `Leakage.BinShape` | pyecsca/sca/attack/leakage_model.py:10 | `bin(x)` is `0b0` for 0; otherwise `0b` followed by exactly `x.bit_length()` characters, each `0` or `1`, the first `1` |
| `Leakage.Count` | pyecsca/sca/attack/leakage_model.py:10 | `s.count(c)` is at most `len(s)`, and 0 exactly when `c` does not occur in `s`; `CountConcat` proves it adds over concatenation |
| `Leakage.BinDigitsRoundTrip` | pyecsca/sca/attack/leakage_model.py:9-10 | the digits `bin(x)` writes after `0b` read back as `x` |
| `Leakage.BinDigits` | pyecsca/sca/attack/leakage_model.py:10 | the characters of `bin(x)` after `0b`: exactly `x.bit_length()` of them with a leading `1` for `x > 0`, and the single `0` for 0; `BinDigitsAreDigits` proves each one is `0` or `1` |
| `Leakage.BinDigitsAreDigits` | pyecsca/sca/attack/leakage_model.py:10 | every character `bin(x)` writes after `0b` is `0` or `1` |
| `Leakage.HwCountsSetBits` | pyecsca/sca/attack/leakage_model.py:12-13 | `hw(x)` is the number of positions `i < x.bit_length()` at which bit `i` of `x` is 1 |
| `Leakage.HammingWeightLeak` | pyecsca/sca/attack/leakage_model.py:83-84 | `HammingWeight` returns the number of 1 bits of its argument. This equals `bin(x).count("1")` |
| `Leakage.HammingDistanceSymmetric` | pyecsca/sca/attack/leakage_model.py:91-92 | `HammingDistance` is symmetric in its two arguments |
| `Leakage.HammingDistanceZeroIff` | pyecsca/sca/attack/leakage_model.py:91-92 | `HammingDistance` returns 0 exactly when its arguments are equal |
| `Leakage.HammingDistanceToZero` | pyecsca/sca/attack/leakage_model.py:91-92 | the Hamming distance from `x` to 0 is the Hamming weight of `x` |
| `Leakage.HammingDistanceBound` | pyecsca/sca/attack/leakage_model.py:91-92 | `HammingDistance(a, b)` is at most the bit length of the larger argument |
| `Leakage.BitLengthLeak` | pyecsca/sca/attack/leakage_model.py:99-100 | `BitLength` returns 0 for 0; for `x > 0` it returns the `L` with `2^(L-1) <= x < 2^L` |
| `Bits.Pow2` | pyecsca/sca/attack/leakage_model.py:56 | `1 << n` is at least 1; `Pow2Add` and `Pow2Monotone` prove it turns sums of exponents into products and is increasing |
| `Bits.Pow2Add` | pyecsca/sca/attack/leakage_model.py:56 | `2^(m+n) == 2^m * 2^n` |
| `Bits.Pow2Monotone` | pyecsca/sca/attack/leakage_model.py:73 | `m <= n` gives `2^m <= 2^n`, and `m < n` gives `2 * 2^m <= 2^n` |
| `Bits.Shr` | pyecsca/sca/attack/leakage_model.py:59 | `x >> n` never exceeds `x`; `ShrIsDiv` proves it is floor division by `2^n` |
| `Bits.And` | pyecsca/sca/attack/leakage_model.py:59 | `a & b` is at most each operand; `AndBit` states it bit by bit |
| `Bits.Or` | pyecsca/sca/attack/leakage_model.py:73 | `a \| b` is at least each operand and at most their sum; `OrBit` states it bit by bit |
| `Bits.Xor` | pyecsca/sca/attack/leakage_model.py:92 | `a ^ b` is at most `a + b` and has the parity of `a + b`; `XorBit` states it bit by bit |
| `Bits.BitLength` | pyecsca/sca/attack/leakage_model.py:100 | `x < 2^L`, and for `x > 0` also `2^(L-1) <= x` |
| `Bits.BitLengthUnique` | pyecsca/sca/attack/leakage_model.py:100 | those bounds determine `bit_length` uniquely |
| `Bits.ShrIsDiv` | pyecsca/sca/attack/leakage_model.py:59 | `x >> n` is floor division of `x` by `2^n` |
| `Bits.AndBit` | pyecsca/sca/attack/leakage_model.py:59 | bit `i` of `a & b` is set exactly when bit `i` is set in both operands |
| `Bits.OrBit` | pyecsca/sca/attack/leakage_model.py:73 | bit `i` of `a \| b` is set exactly when bit `i` is set in either operand |
| `Bits.OrHighBit` | pyecsca/sca/attack/leakage_model.py:73 | OR-ing `1 << n` into a value below `2^n` adds `2^n` |
| `Bits.XorBit` | pyecsca/sca/attack/leakage_model.py:92 | bit `i` of `a ^ b` is set exactly when bit `i` of the operands differs |
| `Bits.XorComm` | pyecsca/sca/attack/leakage_model.py:92 | `a ^ b == b ^ a` |
| `Bits.XorZeroIff` | pyecsca/sca/attack/leakage_model.py:92 | `a ^ b == 0` exactly when `a == b` |
| `Bits.XorZeroRight` | pyecsca/sca/attack/leakage_model.py:92 | `x ^ 0 == x` |
| `Bits.XorBelow` | pyecsca/sca/attack/leakage_model.py:92 | two values below `2^n` have their XOR below `2^n` |

## Left out

- `NormalNoice` (pyecsca/sca/attack/leakage_model.py:16-28) is not modelled. It adds Gaussian noise drawn from a NumPy random generator. The result is a float and is nondeterministic.
- Negative values passed to the models are not modelled. Python's `&`, `^`, `>>`, `bin` and `bit_count` on negative integers follow two's-complement or sign-magnitude rules. All arguments here are `nat`.
- The conversion `int(args[0])` of non-integer arguments (floats, strings, objects with `__int__`) is not modelled. Arguments are integers already.
- Keyword arguments to `__call__` are not modelled. The source ignores them.
- The choice between the two `hw` definitions by interpreter version (pyecsca/sca/attack/leakage_model.py:8) is not modelled. `Hw` is the `bit_count` definition. `HwOfBin` is the `bin(...).count("1")` definition. The contract of `HwOfBin` states they are equal.
- Fields changed after construction are not modelled (assigning `b.which = -1` on a `Bit` object, say). `Apply` requires a model whose fields are those its constructor stores (`Valid`).
- pyecsca/sca/target/__init__.py is not modelled. It only imports hardware adapters conditionally.
- The elliptic-curve code that test/ec/test_mult.py, test/ec/test_point.py and test/ec/test_curve.py exercise is not part of this model. This covers the scalar multipliers, points, curves and modular integers.
