/**
 * The value codecs of the attribute descriptors: how a Python value
 * becomes register bits and back. Everything here is integer or bit
 * level; the floating-point scaling around the integer stages (norms,
 * rounding, filter bandwidth formulas) is outside the model, which starts
 * from the already rounded integers.
 */
module Attributes {
  import opened Common

  // ---------------------------------------------------------- masked writes

  /** The bits of `mask` taken from `v`, the others from `act`. */
  function MergeBits(act: seq<nat>, v: seq<nat>, mask: seq<nat>): (bs: seq<nat>)
    requires |act| == |v| == |mask|
    ensures |bs| == |act|
    ensures forall i :: 0 <= i < |bs| ==> bs[i] == if mask[i] == 1 then v[i] else act[i]
  {
    seq(|act|, i requires 0 <= i < |act| => if mask[i] == 1 then v[i] else act[i])
  }

  /** `act & ~mask | (v & mask)` on 32-bit words. */
  function MaskedMerge(act: U32, v: U32, mask: U32): (r: U32)
    ensures forall i :: 0 <= i < 32 ==> Bits(r)[i] == if Bits(mask)[i] == 1 then Bits(v)[i] else Bits(act)[i]
  {
    FromBits(MergeBits(Bits(act), Bits(v), Bits(mask)))
  }

  /** Merging again under the same mask changes nothing; merging a word with itself gives it back. */
  lemma MaskedMergeIdempotent(act: U32, v: U32, mask: U32)
    ensures MaskedMerge(MaskedMerge(act, v, mask), v, mask) == MaskedMerge(act, v, mask)
    ensures MaskedMerge(act, act, mask) == act
  {
    var r := MaskedMerge(act, v, mask);
    assert Bits(MaskedMerge(r, v, mask)) == Bits(r);
    FromBitsOfBits(MaskedMerge(r, v, mask));
    FromBitsOfBits(r);
    assert Bits(MaskedMerge(act, act, mask)) == Bits(act);
    FromBitsOfBits(MaskedMerge(act, act, mask));
    FromBitsOfBits(act);
  }

  /** With the full mask the new value is written as it is. */
  lemma FullMaskWritesValue(act: U32, v: U32)
    ensures MaskedMerge(act, v, TWO32 - 1) == v
  {
    AllOnes(32);
    Pow2At32();
    var ones := Bits(TWO32 - 1);
    assert ones == Digits(Pow2(32) - 1, 32, 1);
    assert forall i :: 0 <= i < 32 ==> ones[i] == 1;
    assert Bits(MaskedMerge(act, v, TWO32 - 1)) == Bits(v);
    FromBitsOfBits(MaskedMerge(act, v, TWO32 - 1));
    FromBitsOfBits(v);
  }

  /** Every one of the `n` low bits of 2^n - 1 is set. */
  lemma {:induction false} AllOnes(n: nat)
    ensures var ds := Digits(Pow2(n) - 1, n, 1); forall i :: 0 <= i < n ==> ds[i] == 1
    decreases n
  {
    if n > 0 {
      AllOnes(n - 1);
      var v := Pow2(n) - 1;
      assert Pow2(1) == 2;
      DivModUnique(v, 2, Pow2(n - 1) - 1, 1);
      var ds := Digits(v, n, 1);
      assert ds == [v % Pow2(1)] + Digits(v / Pow2(1), n - 1, 1);
      assert ds[1..] == Digits(Pow2(n - 1) - 1, n - 1, 1);
      LeadingOne(ds);
    }
  }

  /** A one followed by ones is all ones. */
  lemma LeadingOne(ds: seq<nat>)
    requires |ds| > 0 && ds[0] == 1 && forall i :: 0 <= i < |ds| - 1 ==> ds[1..][i] == 1
    ensures forall i :: 0 <= i < |ds| ==> ds[i] == 1
  {
    forall i | 0 < i < |ds|
      ensures ds[i] == 1
    {
      assert ds[i] == ds[1..][i - 1];
    }
  }

  /** Every digit of 0 is 0. */
  lemma {:induction false} ZeroDigits(n: nat, w: nat)
    ensures var ds := Digits(0, n, w); forall i :: 0 <= i < n ==> ds[i] == 0
    decreases n
  {
    if n > 0 {
      ZeroDigits(n - 1, w);
      ModBelow(0, Pow2(w));
      assert Digits(0, n, w)[1..] == Digits(0, n - 1, w);
    }
  }

  /** `w & mask` on 32-bit words. */
  function AndMask(w: U32, mask: U32): (r: U32)
    ensures forall i :: 0 <= i < 32 ==> Bits(r)[i] == if Bits(mask)[i] == 1 then Bits(w)[i] else 0
  {
    ZeroDigits(32, 1);
    var zero := Bits(0);
    assert zero == Digits(0, 32, 1);
    assert forall i :: 0 <= i < 32 ==> zero[i] == 0;
    MaskedMerge(0, w, mask)
  }

  /** A masked write read back under the same mask gives the new bits only. */
  lemma MaskedReadBack(act: U32, v: U32, mask: U32)
    ensures AndMask(MaskedMerge(act, v, mask), mask) == AndMask(v, mask)
    ensures AndMask(AndMask(v, mask), mask) == AndMask(v, mask)
  {
    var a := AndMask(MaskedMerge(act, v, mask), mask);
    var b := AndMask(v, mask);
    var c := AndMask(b, mask);
    assert Bits(a) == Bits(b);
    assert Bits(c) == Bits(b);
    FromBitsOfBits(a);
    FromBitsOfBits(b);
    FromBitsOfBits(c);
  }

  // ------------------------------------------------------------ bool registers

  /** `BoolRegister.to_python`: bit `bit` of the register, inverted when `invert`. */
  function BoolToPython(value: U32, bit: nat, invert: bool): bool
  {
    var b := BitOf(value, bit) == 1;
    if invert then !b else b
  }

  /** `BoolRegister.from_python`: the register as read, with bit `bit` set (`|`) or cleared (`& ~`). */
  function BoolFromPython(act: U32, bit: nat, val: bool, invert: bool): (r: U32)
    requires bit < 32
    ensures BoolToPython(r, bit, invert) == val
    ensures forall j :: 0 <= j < 32 && j != bit ==> Bits(r)[j] == Bits(act)[j]
  {
    var v := if invert then !val else val;
    var r := FromBits(Bits(act)[bit := if v then 1 else 0]);
    BitsAt(r, bit);
    r
  }

  /** Writing back the value read changes nothing. */
  lemma BoolRewriteUnchanged(act: U32, bit: nat, invert: bool)
    requires bit < 32
    ensures BoolFromPython(act, bit, BoolToPython(act, bit, invert), invert) == act
  {
    var r := BoolFromPython(act, bit, BoolToPython(act, bit, invert), invert);
    BitsAt(act, bit);
    BitsAt(r, bit);
    assert Bits(r)[bit] == Bits(act)[bit];
    assert Bits(r) == Bits(act);
    FromBitsOfBits(act);
    FromBitsOfBits(r);
  }

  // ----------------------------------------------------------- BoolIgnoreProperty

  /** What a BoolIgnoreProperty is given: a string, or any other value with its truth value. */
  datatype RawValue = Text(s: string) | Other(truthy: bool)

  datatype Tristate = IsTrue | IsFalse | Ignore

  /** 'true' and 'false' in any case give the booleans, other strings 'ignore', other values `bool(value)`. */
  function BoolIgnoreValidate(value: RawValue): (r: Tristate)
    ensures value.Other? ==> r == (if value.truthy then IsTrue else IsFalse)
    ensures value.Text? ==> (r == IsTrue <==> Lower(value.s) == "true")
    ensures value.Text? ==> (r == IsFalse <==> Lower(value.s) == "false")
  {
    match value
    case Text(s) =>
      if Lower(s) == "true" then IsTrue else if Lower(s) == "false" then IsFalse else Ignore
    case Other(b) => if b then IsTrue else IsFalse
  }

  lemma BoolIgnoreExamples()
    ensures BoolIgnoreValidate(Text("TRUE")) == IsTrue
    ensures BoolIgnoreValidate(Text("False")) == IsFalse
    ensures BoolIgnoreValidate(Text("yes")) == Ignore
  {
    assert Lower("TRUE") == "true";
    assert Lower("False") == "false";
    assert Lower("yes") == "yes";
  }

  // --------------------------------------------------------------- int registers

  /** An IntRegister accepts [0, 2^bits - 1] unless other bounds are given. */
  function IntRegisterValidate(v: int, bits: nat): (r: nat)
    ensures r < Pow2(bits)
    ensures 0 <= v < Pow2(bits) ==> r == v
    ensures v < 0 ==> r == 0
    ensures v >= Pow2(bits) ==> r == Pow2(bits) - 1
  {
    Clamp(v, 0, Pow2(bits) - 1)
  }

  /** An IntRegister occupies `ceil(bits / 32)` words. */
  function WordCount(bits: nat): (n: nat)
    ensures 32 * n >= bits
    ensures n > 0 ==> 32 * (n - 1) < bits
  {
    (bits + 31) / 32
  }

  /** `(v >> 32 i) & 0xFFFFFFFF` for `i < n`: the `n` low 32-bit words of `v`, least significant first. */
  function Words(v: int, n: nat): (ws: seq<U32>)
    ensures |ws| == n
  {
    Pow2At32();
    Digits(v, n, 32)
  }

  lemma WordsAt(v: int, n: nat, i: nat)
    requires i < n
    ensures Words(v, n)[i] == (v / Radix(32, i)) % TWO32
  {
    DigitsAt(v, n, 32, i);
    Pow2At32();
  }

  /** The sum of `ws[i] << 32 i`. */
  function Join(ws: seq<U32>): nat
  {
    FromDigits(ws, 32)
  }

  lemma JoinSnoc(ws: seq<U32>, w: U32)
    ensures Join(ws + [w]) == Join(ws) + w * Radix(32, |ws|)
  {
    FromDigitsSnoc(ws, w, 32);
  }

  /** Every value an IntRegister accepts is carried exactly by its words. */
  lemma LongWordsRoundTrip(v: int, bits: nat)
    requires 0 <= v < Pow2(bits)
    ensures Join(Words(v, WordCount(bits))) == v
  {
    var n := WordCount(bits);
    FromDigitsOfDigits(v, n, 32);
    RadixIsPow2(32, n);
    Pow2Monotone(bits, 32 * n);
    ModBelow(v, Radix(32, n));
  }

  /** Words read from the board give back the same words. */
  lemma LongJoinSplit(ws: seq<U32>)
    ensures Words(Join(ws), |ws|) == ws
  {
    Pow2At32();
    DigitsOfFromDigits(ws, 32);
  }

  // ------------------------------------------------------- float register stage

  /**
   * The integer stage of `FloatRegister.from_python`. `v` is the rounded
   * scaled value and `sign` the sign of the unrounded one: a small nonzero
   * value that rounds to 0 becomes 1 or -1. Signed registers saturate to
   * [-2^(bits-1), 2^(bits-1) - 1] and store two's complement; unsigned ones
   * store the saturated absolute value.
   */
  function FloatFromInt(v: int, sign: int, bits: nat, signed: bool): (r: nat)
    requires bits >= 1
    ensures r < Pow2(bits)
  {
    var p := Pow2(bits);
    var h: int := Pow2(bits - 1);
    var v1 := if v == 0 && sign > 0 then 1 else if v == 0 && sign < 0 then -1 else v;
    if signed then
      var v2 := if v1 >= h then h - 1 else if v1 < -h then -h else v1;
      if v2 < 0 then v2 + p else v2
    else
      var a := if v1 < 0 then -v1 else v1;
      if a >= p then p - 1 else a
  }

  /** The integer stage of `FloatRegister.to_python`: undoes the two's complement of signed registers. */
  function FloatToInt(value: nat, bits: nat, signed: bool): int
    requires bits >= 1
  {
    if signed && value >= Pow2(bits - 1) then value - Pow2(bits) else value
  }

  /** A value whose unrounded form is nonzero is never stored as 0. */
  lemma FloatNonzeroKept(v: int, sign: int, bits: nat, signed: bool)
    requires bits >= 2 && sign != 0
    requires sign > 0 ==> v >= 0
    requires sign < 0 ==> v <= 0
    ensures FloatFromInt(v, sign, bits, signed) != 0
  {
  }

  /** Signed registers read back the saturated value. */
  lemma FloatSignedRoundTrip(v: int, bits: nat)
    requires bits >= 1 && v != 0
    ensures FloatToInt(FloatFromInt(v, v, bits, true), bits, true)
      == Clamp(v, -(Pow2(bits - 1) as int), Pow2(bits - 1) - 1)
  {
  }

  /** Unsigned registers read back the saturated absolute value. */
  lemma FloatUnsignedRoundTrip(v: int, bits: nat)
    requires bits >= 1
    ensures FloatToInt(FloatFromInt(v, v, bits, false), bits, false)
      == Min(if v < 0 then -v else v, Pow2(bits) - 1)
  {
  }

  // --------------------------------------------------------- filter registers

  /**
   * One requested filter stage after the floating-point part: the sign of
   * the bandwidth (0 for a bypassed stage) and the rounded shift.
   */
  datatype StageRequest = StageRequest(bandwidthSign: int, shift: int)

  /** The decoded bits of one stage byte. */
  datatype StageBits = StageBits(on: bool, highpass: bool, shift: nat)

  /** The byte of stage `i`: clamped shift, +128 when on, +64 for a highpass; 0 when bypassed or absent. */
  function StageByte(reqs: seq<StageRequest>, i: nat, shiftBits: nat): (b: nat)
    ensures shiftBits <= 6 ==> b < 256
  {
    Pow2Monotone(if shiftBits <= 6 then shiftBits else 6, 6);
    if i >= |reqs| || reqs[i].bandwidthSign == 0 then 0
    else Clamp(reqs[i].shift, 0, Pow2(shiftBits) - 1) + 128 + (if reqs[i].bandwidthSign < 0 then 64 else 0)
  }

  function StageBytes(reqs: seq<StageRequest>, n: nat, shiftBits: nat): (bs: seq<nat>)
    ensures |bs| == n
    ensures forall i :: 0 <= i < n ==> bs[i] == StageByte(reqs, i, shiftBits)
  {
    seq(n, i requires 0 <= i < n => StageByte(reqs, i, shiftBits))
  }

  /** `FilterRegister.from_python`: one byte per stage, stage `i` at bits 8i..8i+7. */
  method FilterFromPython(reqs: seq<StageRequest>, filterStages: nat, shiftBits: nat) returns (fs: nat)
    ensures fs == FromDigits(StageBytes(reqs, filterStages, shiftBits), 8)
  {
    var bytes := StageBytes(reqs, filterStages, shiftBits);
    fs := 0;
    var i := 0;
    while i < filterStages
      invariant i <= filterStages
      invariant fs == FromDigits(bytes[..i], 8)
    {
      FromDigitsSnoc(bytes[..i], bytes[i], 8);
      assert bytes[..i + 1] == bytes[..i] + [bytes[i]];
      if i >= |reqs| || reqs[i].bandwidthSign == 0 {
        i := i + 1;
        continue;
      }
      var shift := reqs[i].shift;
      if shift < 0 {
        shift := 0;
      } else if shift > Pow2(shiftBits) - 1 {
        shift := Pow2(shiftBits) - 1;
      }
      shift := shift + 128;
      if reqs[i].bandwidthSign < 0 {
        shift := shift + 64;
      }
      fs := fs + shift * Radix(8, i);
      i := i + 1;
    }
    assert bytes[..filterStages] == bytes;
  }

  /** The bits of stage `i` in `fs`: on is bit 7, highpass bit 6, the shift the low `shiftBits` bits. */
  function DecodeStage(fs: nat, i: nat, shiftBits: nat): StageBits
  {
    var v := (fs / Radix(8, i)) % 256;
    StageBits(v / 128 == 1, (v / 64) % 2 == 1, v % Pow2(shiftBits))
  }

  /** `FilterRegister.to_python` up to the bandwidth formula: the stage bits of every stage. */
  method FilterToPython(fs: nat, filterStages: nat, shiftBits: nat) returns (stages: seq<StageBits>)
    ensures |stages| == filterStages
    ensures forall i :: 0 <= i < filterStages ==> stages[i] == DecodeStage(fs, i, shiftBits)
  {
    stages := [];
    var i := 0;
    while i < filterStages
      invariant i <= filterStages && |stages| == i
      invariant forall j :: 0 <= j < i ==> stages[j] == DecodeStage(fs, j, shiftBits)
    {
      var v := (fs / Radix(8, i)) % 256;
      var shift := v % Pow2(shiftBits);
      var on := v / 128 == 1;
      var highpass := (v / 64) % 2 == 1;
      stages := stages + [StageBits(on, highpass, shift)];
      i := i + 1;
    }
  }

  /** The fields of `c + 128 + 64 * hp` for a shift `c` of at most `sb <= 6` bits. */
  lemma StageArith(c: int, hp: int, sb: nat)
    requires sb <= 6 && 0 <= c < Pow2(sb) && 0 <= hp <= 1
    ensures var v := c + 128 + 64 * hp;
      v / 128 == 1 && (v / 64) % 2 == hp && v % Pow2(sb) == c
  {
    var v := c + 128 + 64 * hp;
    Pow2Monotone(sb, 6);
    assert Pow2(6) == 64;
    DivModUnique(v, 128, 1, c + 64 * hp);
    DivModUnique(v, 64, 2 + hp, c);
    DivModUnique(2 + hp, 2, 1, hp);
    Pow2Sum(sb, 6 - sb, 6);
    var q := Pow2(6 - sb) * (2 + hp);
    assert Pow2(sb) * q == 64 * (2 + hp);
    DivModUnique(v, Pow2(sb), q, c);
  }

  /** The bits a stage byte decodes to. */
  lemma StageByteBits(reqs: seq<StageRequest>, i: nat, shiftBits: nat)
    requires shiftBits <= 6
    ensures var v := StageByte(reqs, i, shiftBits);
      var on := i < |reqs| && reqs[i].bandwidthSign != 0;
      && (v / 128 == 1 <==> on)
      && ((v / 64) % 2 == 1 <==> on && reqs[i].bandwidthSign < 0)
      && v % Pow2(shiftBits) == (if on then Clamp(reqs[i].shift, 0, Pow2(shiftBits) - 1) else 0)
  {
    Pow2Monotone(shiftBits, 6);
    if i < |reqs| && reqs[i].bandwidthSign != 0 {
      StageArith(Clamp(reqs[i].shift, 0, Pow2(shiftBits) - 1), if reqs[i].bandwidthSign < 0 then 1 else 0, shiftBits);
    } else {
      ModBelow(0, Pow2(shiftBits));
    }
  }

  /**
   * Round trip of the filter register: every stage decodes to the request
   * that produced it: bypassed stages and stages beyond the request read
   * as off, the others as on, with the highpass flag of a negative
   * bandwidth and the clamped shift.
   */
  lemma FilterRoundTrip(reqs: seq<StageRequest>, filterStages: nat, shiftBits: nat, i: nat)
    requires shiftBits <= 6 && i < filterStages
    ensures var d := DecodeStage(FromDigits(StageBytes(reqs, filterStages, shiftBits), 8), i, shiftBits);
      var on := i < |reqs| && reqs[i].bandwidthSign != 0;
      && d.on == on
      && d.highpass == (on && reqs[i].bandwidthSign < 0)
      && d.shift == (if on then Clamp(reqs[i].shift, 0, Pow2(shiftBits) - 1) else 0)
  {
    var bytes := StageBytes(reqs, filterStages, shiftBits);
    assert Pow2(8) == 256;
    DigitsOfFromDigits(bytes, 8);
    DigitsAt(FromDigits(bytes, 8), filterStages, 8, i);
    StageByteBits(reqs, i, shiftBits);
  }

  // ------------------------------------------------------ select properties

  /** The options of a select property: its keys, or the single option None when it has none. */
  function Options<K>(keys: seq<K>): (opts: seq<Option<K>>)
    ensures |opts| >= 1
    ensures keys != [] ==> |opts| == |keys| && forall i :: 0 <= i < |keys| ==> opts[i] == Some(keys[i])
    ensures keys == [] ==> opts == [None]
  {
    if keys == [] then [None] else seq(|keys|, i requires 0 <= i < |keys| => Some(keys[i]))
  }

  /** `SelectProperty.get_default`: the stored default when it is an option, else the first option. */
  function SelectDefault<K(==)>(keys: seq<K>, default: Option<K>): (d: Option<K>)
    ensures d in Options(keys)
    ensures default in Options(keys) ==> d == default
    ensures default !in Options(keys) ==> d == Options(keys)[0]
  {
    if default in Options(keys) then default else Options(keys)[0]
  }

  /**
   * `SelectProperty.validate_and_normalize`: an option passes; any other
   * value raises ValueError, or becomes the default when errors are ignored.
   */
  function SelectValidate<K(==)>(keys: seq<K>, value: Option<K>, ignoreErrors: bool, default: Option<K>)
    : (r: Result<Option<K>>)
    ensures r.Ok? ==> r.value in Options(keys)
    ensures r.Fail? <==> value !in Options(keys) && !ignoreErrors
    ensures r.Fail? ==> r.error == ValueError
    ensures value in Options(keys) ==> r == Ok(value)
    ensures value !in Options(keys) && ignoreErrors ==> r == Ok(SelectDefault(keys, default))
  {
    if value in Options(keys) then Ok(value)
    else if ignoreErrors then Ok(SelectDefault(keys, default))
    else Fail(ValueError)
  }

  /** Validation is idempotent: a validated value validates to itself. */
  lemma SelectValidateIdempotent<K>(keys: seq<K>, value: Option<K>, ignoreErrors: bool, default: Option<K>)
    requires SelectValidate(keys, value, ignoreErrors, default).Ok?
    ensures var v := SelectValidate(keys, value, ignoreErrors, default).value;
      SelectValidate(keys, v, false, default) == Ok(v)
  {
  }
}
