/**
 * The IIR filter module: the overflow status text, the 64-bit fixed-point
 * split of a coefficient into two register words, the coefficient memory
 * of eight words per biquad stage, and the pole and zero lists kept in
 * step with the two master properties.
 */
module Iir {
  import opened Common
  import opened MonitorServer
  import opened Hardware
  import StemlabClient
  import PyrplUtils

  // ------------------------------------------------------------- overflow

  /** The overflow states the status text distinguishes. */
  datatype Overflow = NoOverflow | SumAndInternal | SumOnly | InternalOnly | Unknown(bitfield: nat)

  /** The status text: it starts "unknown" exactly for an unknown overflow, and reads "no overflow" only for none. */
  function OverflowText(o: Overflow): (s: string)
    ensures |s| > 0 && (o.Unknown? <==> s[0] == 'u')
    ensures o.Unknown? ==> s == "unknown overflow " + PyrplUtils.NatStr(o.bitfield)
    ensures o == NoOverflow <==> s == "no overflow"
  {
    match o
    case NoOverflow => "no overflow"
    case SumAndInternal => "sum and internal saturation"
    case SumOnly => "sum saturation"
    case InternalOnly => "internal saturation"
    case Unknown(v) => "unknown overflow " + PyrplUtils.NatStr(v)
  }

  /** The `output_saturation` property: bit 6 of the overflow bit field. */
  predicate OutputSaturation(bitfield: nat)
  {
    (bitfield / 64) % 2 == 1
  }

  /** The `internal_overflow` property: any of bits 0 to 5. */
  predicate InternalOverflow(bitfield: nat)
  {
    bitfield % 64 != 0
  }

  /**
   * `OverflowProperty.get_value` as written: the second test masks all
   * seven low bits, so it catches every case the two tests after it would.
   */
  function OverflowAsWritten(bitfield: nat): (o: Overflow)
    ensures o == NoOverflow <==> bitfield == 0
    ensures o == SumAndInternal <==> bitfield % 128 != 0
    ensures o.Unknown? ==> o.bitfield == bitfield
  {
    if bitfield == 0 then NoOverflow
    else if bitfield % 128 != 0 then SumAndInternal
    else if OutputSaturation(bitfield) then SumOnly
    else if InternalOverflow(bitfield) then InternalOnly
    else Unknown(bitfield)
  }

  /** The seven low bits are zero exactly when neither the sum nor an internal stage saturated. */
  lemma LowBits(bitfield: nat)
    ensures bitfield % 128 == 0 <==> !OutputSaturation(bitfield) && !InternalOverflow(bitfield)
  {
    var q, s := bitfield / 128, bitfield % 128;
    assert bitfield == 128 * q + s;
    DivModUnique(bitfield, 64, 2 * q + s / 64, s % 64);
    DivModUnique(bitfield / 64, 2, q, s / 64);
  }

  /**
   * As written, any saturation reads as both kinds, and the two single
   * kinds are never reported; a value with bit 6 alone shows it.
   */
  lemma OverflowAsWrittenMerges(bitfield: nat)
    ensures OverflowAsWritten(bitfield) != SumOnly && OverflowAsWritten(bitfield) != InternalOnly
    ensures OverflowAsWritten(bitfield) == SumAndInternal <==> OutputSaturation(bitfield) || InternalOverflow(bitfield)
    ensures OverflowAsWritten(64) == SumAndInternal && !InternalOverflow(64)
  {
    LowBits(bitfield);
    LowBits(64);
  }

  /** The overflow status as `output_saturation` and `internal_overflow` define its parts. */
  function OverflowStatus(bitfield: nat): (o: Overflow)
    ensures o == NoOverflow <==> bitfield == 0
    ensures o == SumAndInternal || o == SumOnly <==> OutputSaturation(bitfield)
    ensures o == SumAndInternal || o == InternalOnly <==> InternalOverflow(bitfield)
    ensures o.Unknown? ==> o.bitfield == bitfield
  {
    var sum := OutputSaturation(bitfield);
    var internal := InternalOverflow(bitfield);
    if bitfield == 0 then NoOverflow
    else if sum && internal then SumAndInternal
    else if sum then SumOnly
    else if internal then InternalOnly
    else Unknown(bitfield)
  }

  /**
   * The status reports sum saturation exactly when bit 6 is set, internal
   * saturation exactly when one of bits 0 to 5 is, and an unknown overflow
   * exactly when only higher bits are set.
   */
  lemma OverflowStatusFlags(bitfield: nat)
    ensures var o := OverflowStatus(bitfield);
      && (o == NoOverflow <==> bitfield == 0)
      && (o in {SumAndInternal, SumOnly} <==> OutputSaturation(bitfield))
      && (o in {SumAndInternal, InternalOnly} <==> InternalOverflow(bitfield))
      && (o.Unknown? <==> bitfield != 0 && bitfield % 128 == 0)
  {
    LowBits(bitfield);
    if bitfield == 0 {
      assert !OutputSaturation(0) && !InternalOverflow(0);
    }
  }

  // ------------------------------------------------- fixed-point words

  /**
   * `_from_double` on the already rounded, already scaled integer `n`: its
   * low `bitlength` bits in two's complement, split into the high and the
   * low 32-bit word.
   */
  function FromDouble(n: int, bitlength: nat): (w: (U32, U32))
    ensures bitlength <= 64 ==> w.0 * TWO32 + w.1 == n % Pow2(bitlength)
  {
    var m := n % Pow2(bitlength);
    if bitlength <= 64 then
      Pow2Monotone(bitlength, 64);
      Pow2Sum(32, 32, 64);
      Pow2At32();
      TwoWords(m);
      ((m / TWO32) % TWO32, m % TWO32)
    else ((m / TWO32) % TWO32, m % TWO32)
  }

  /** A number below 2^64 is its high word times 2^32 plus its low word. */
  lemma TwoWords(m: int)
    requires 0 <= m < TWO32 * TWO32
    ensures (m / TWO32) % TWO32 == m / TWO32 && (m / TWO32) * TWO32 + m % TWO32 == m
  {
    ModBelow(m / TWO32, TWO32);
  }

  /**
   * The integer `_to_double` reassembles: the high word keeps its low
   * `bitlength - 32` bits, and the whole reads as a `bitlength`-bit two's
   * complement number.
   */
  function ToFixed(hi: U32, lo: U32, bitlength: nat): (v: int)
    requires bitlength >= 32
    ensures -(Pow2(bitlength - 1) as int) <= v < Pow2(bitlength - 1)
  {
    var top := Pow2(bitlength - 32);
    var half := Pow2(bitlength - 1);
    Pow2At32();
    Pow2Sum(bitlength - 32, 32, bitlength);
    Pow2Sum(bitlength - 1, 1, bitlength);
    var h := hi % top;
    var u := h * TWO32 + lo;
    assert u < Pow2(bitlength) by {
      assert h <= top - 1;
      assert h * TWO32 <= (top - 1) * TWO32;
    }
    TopBit(u, half);
    if u / half != 0 then u - Pow2(bitlength) else u
  }

  /**
   * `_to_double`: a bit length below 32 makes the shift count negative,
   * which raises ValueError; otherwise the fixed-point value divided by
   * 2^shift.
   */
  function ToDouble(hi: U32, lo: U32, bitlength: nat, shift: nat): (r: Result<real>)
    ensures r.Fail? <==> bitlength < 32
    ensures r.Ok? ==> r.value == ToFixed(hi, lo, bitlength) as real / Pow2(shift) as real
  {
    if bitlength < 32 then Fail(ValueError)
    else Ok(Scaled(ToFixed(hi, lo, bitlength), shift))
  }

  /** A fixed-point number with `shift` fractional bits. */
  function Scaled(n: int, shift: nat): real
  {
    n as real / Pow2(shift) as real
  }

  /** A bit length between 32 and 64 splits 2^bitlength into two word weights. */
  lemma WordWeights(bitlength: nat)
    requires 32 <= bitlength <= 64
    ensures Pow2(bitlength) == Pow2(bitlength - 32) * TWO32
    ensures Pow2(bitlength) == 2 * Pow2(bitlength - 1)
    ensures Pow2(bitlength - 32) <= TWO32
  {
    Pow2At32();
    Pow2Sum(bitlength - 32, 32, bitlength);
    Pow2Monotone(bitlength - 32, 32);
  }

  /**
   * On the signed range of `bitlength` bits (32 to 64), `_to_double`
   * recovers what `_from_double` stored, and `_from_double` recovers the
   * significant bits of any two words.
   */
  lemma FixedRoundTrip(n: int, hi: U32, lo: U32, bitlength: nat)
    requires 32 <= bitlength <= 64
    ensures -(Pow2(bitlength - 1) as int) <= n < Pow2(bitlength - 1) ==>
      ToFixed(FromDouble(n, bitlength).0, FromDouble(n, bitlength).1, bitlength) == n
    ensures FromDouble(ToFixed(hi, lo, bitlength), bitlength) == (hi % Pow2(bitlength - 32), lo)
  {
    WordWeights(bitlength);
    var p := Pow2(bitlength);
    var top := Pow2(bitlength - 32);
    var half := Pow2(bitlength - 1);
    if -(half as int) <= n < half {
      var m := n % p;
      if n >= 0 {
        ModBelow(n, p);
      } else {
        DivModUnique(n, p, -1, n + p);
      }
      var w := FromDouble(n, bitlength);
      DivModUnique(m, TWO32, w.0, w.1);
      ModBelow(w.0, top);
      TopBit(m, half);
    }
    var h := hi % top;
    var u := h * TWO32 + lo;
    var v := ToFixed(hi, lo, bitlength);
    assert h * TWO32 <= (top - 1) * TWO32;
    TopBit(u, half);
    if v < 0 {
      DivModUnique(v, p, -1, u);
    } else {
      ModBelow(v, p);
    }
    DivModUnique(u, TWO32, h, lo);
    ModBelow(h, TWO32);
  }

  // ------------------------------------------------- coefficient memory

  /** Word address of the coefficient memory, relative to the module. */
  const COEFFICIENTS: int := 0x8000
  /** Address of the `loops` register. */
  const LOOPS: int := 0x100
  /** `_invert`: the denominator coefficients are stored negated. */
  const INVERT: bool := true

  /** Every row is one biquad stage of six coefficients b0 b1 b2 a0 a1 a2. */
  predicate Biquads(rows: seq<seq<int>>)
  {
    forall i :: 0 <= i < |rows| ==> |rows[i]| == 6
  }

  /** The column stored in word pair `k` of a stage: b0, b1, a1, a2. */
  function SlotColumn(k: nat): (j: nat)
    requires k < 4
    ensures j < 6 && j != 2 && j != 3
    ensures (if j > 3 then j - 2 else j) == k
  {
    if k < 2 then k else k + 2
  }

  /** The value written for column `j`: negated for a1 and a2 when inverting. */
  function StoredColumn(row: seq<int>, j: nat): int
    requires |row| == 6 && j < 6
  {
    if j > 3 && INVERT then -row[j] else row[j]
  }

  /**
   * Word `p` of the coefficient memory for the stages `rows`: stage `p / 8`,
   * word pair `p % 8 / 2`, the low word at even and the high word at odd
   * positions; stages past the rows are zero.
   */
  function CoefficientWord(rows: seq<seq<int>>, bitlength: nat, p: nat): U32
    requires Biquads(rows)
  {
    var i := p / 8;
    if i >= |rows| then 0
    else
      var w := FromDouble(StoredColumn(rows[i], SlotColumn(p % 8 / 2)), bitlength);
      if p % 2 == 0 then w.1 else w.0
  }

  /** Position `8 * i + s` of the memory is word `s` of stage `i`. */
  lemma StagePosition(i: nat, s: nat)
    requires s < 8
    ensures (8 * i + s) / 8 == i && (8 * i + s) % 8 == s && (8 * i + s) % 2 == s % 2
  {
    DivModUnique(8 * i + s, 8, i, s);
    DivModUnique(8 * i + s, 2, 4 * i + s / 2, s % 2);
  }

  /** The high (`high`) or low word of the value stored in word pair `k` of stage `i`. */
  function StageWord(rows: seq<seq<int>>, bitlength: nat, i: nat, k: nat, high: bool): U32
    requires Biquads(rows) && i < |rows| && k < 4
  {
    var w := FromDouble(StoredColumn(rows[i], SlotColumn(k)), bitlength);
    if high then w.0 else w.1
  }

  /** Word pair `k` of stage `i` sits at positions `8 * i + 2 * k` (low) and `8 * i + 2 * k + 1` (high). */
  lemma StageWords(rows: seq<seq<int>>, bitlength: nat, i: nat, k: nat)
    requires Biquads(rows) && k < 4
    ensures i < |rows| ==> CoefficientWord(rows, bitlength, 8 * i + 2 * k) == StageWord(rows, bitlength, i, k, false)
    ensures i < |rows| ==> CoefficientWord(rows, bitlength, 8 * i + 2 * k + 1) == StageWord(rows, bitlength, i, k, true)
    ensures i >= |rows| ==> CoefficientWord(rows, bitlength, 8 * i + 2 * k) == 0
    ensures i >= |rows| ==> CoefficientWord(rows, bitlength, 8 * i + 2 * k + 1) == 0
  {
    StagePosition(i, 2 * k);
    StagePosition(i, 2 * k + 1);
    DivModUnique(2 * k, 2, k, 0);
    DivModUnique(2 * k + 1, 2, k, 1);
  }

  /** Words holding every word pair of stage `i` hold the stage's part of the memory. */
  lemma StageFilled(rows: seq<seq<int>>, bitlength: nat, i: nat, d: seq<U32>)
    requires Biquads(rows) && i < |rows| && 8 * i + 8 <= |d|
    requires forall k :: 0 <= k < 4 ==>
      d[8 * i + 2 * k] == StageWord(rows, bitlength, i, k, false) &&
      d[8 * i + 2 * k + 1] == StageWord(rows, bitlength, i, k, true)
    ensures forall p :: 8 * i <= p < 8 * i + 8 ==> d[p] == CoefficientWord(rows, bitlength, p)
  {
    forall p | 8 * i <= p < 8 * i + 8
      ensures d[p] == CoefficientWord(rows, bitlength, p)
    {
      var k := (p - 8 * i) / 2;
      StageWords(rows, bitlength, i, k);
      assert p == 8 * i + 2 * k || p == 8 * i + 2 * k + 1;
    }
  }

  /** The whole coefficient memory the setter writes for `stages` stages. */
  function Layout(rows: seq<seq<int>>, stages: nat, bitlength: nat): (data: seq<U32>)
    requires Biquads(rows)
    ensures |data| == stages * 8
    ensures forall p :: 0 <= p < |data| ==> data[p] == CoefficientWord(rows, bitlength, p)
  {
    seq(stages * 8, p requires 0 <= p => CoefficientWord(rows, bitlength, p))
  }

  /**
   * Coefficient `j` of stage `i` as the getter computes it from the
   * written words: b2 reads 0, a0 reads 1, the others are converted back
   * and the inverted ones negated again.
   */
  function ReadColumn(data: seq<U32>, bitlength: nat, shift: nat, i: nat, j: nat): real
    requires bitlength >= 32 && j < 6 && i * 8 + 8 <= |data|
  {
    if j == 2 then 0.0
    else if j == 3 then 1.0
    else
      var k := if j > 3 then j - 2 else j;
      var x := ToDouble(data[i * 8 + 2 * k + 1], data[i * 8 + 2 * k], bitlength, shift).value;
      if j > 3 && INVERT then -x else x
  }

  function ReadRow(data: seq<U32>, bitlength: nat, shift: nat, i: nat): (row: seq<real>)
    requires bitlength >= 32 && i * 8 + 8 <= |data|
    ensures |row| == 6 && forall j :: 0 <= j < 6 ==> row[j] == ReadColumn(data, bitlength, shift, i, j)
  {
    seq(6, j requires 0 <= j < 6 => ReadColumn(data, bitlength, shift, i, j))
  }

  /** Every coefficient lies strictly inside the signed range of `bitlength` bits. */
  predicate InRange(rows: seq<seq<int>>, bitlength: nat)
    requires bitlength >= 1 && Biquads(rows)
  {
    forall i, j :: 0 <= i < |rows| && 0 <= j < 6 ==> -(Pow2(bitlength - 1) as int) < rows[i][j] < Pow2(bitlength - 1)
  }

  /**
   * Reading back the written memory gives every stored coefficient
   * divided by 2^shift, b2 as 0 and a0 as 1, and zero coefficients for
   * the stages past the rows.
   */
  lemma CoefficientsRoundTrip(rows: seq<seq<int>>, stages: nat, bitlength: nat, shift: nat, i: nat, j: nat)
    requires Biquads(rows) && |rows| <= stages && 32 <= bitlength <= 64 && InRange(rows, bitlength)
    requires i < stages && j < 6
    ensures ReadColumn(Layout(rows, stages, bitlength), bitlength, shift, i, j) ==
      if j == 2 then 0.0
      else if j == 3 then 1.0
      else if i < |rows| then rows[i][j] as real / Pow2(shift) as real
      else 0.0
  {
    if j != 2 && j != 3 {
      var k := if j > 3 then j - 2 else j;
      assert SlotColumn(k) == j;
      ConvertedColumn(rows, stages, bitlength, shift, i, j, k);
    }
  }

  /** A converted column (b0, b1, a1, a2) of the written memory read back. */
  lemma ConvertedColumn(rows: seq<seq<int>>, stages: nat, bitlength: nat, shift: nat, i: nat, j: nat, k: nat)
    requires Biquads(rows) && |rows| <= stages && 32 <= bitlength <= 64 && InRange(rows, bitlength)
    requires i < stages && k < 4 && j == SlotColumn(k) && k == (if j > 3 then j - 2 else j)
    ensures ReadColumn(Layout(rows, stages, bitlength), bitlength, shift, i, j) ==
      if i < |rows| then Scaled(rows[i][j], shift) else 0.0
  {
    var data := Layout(rows, stages, bitlength);
    LayoutPair(rows, stages, bitlength, i, k);
    ColumnFromWords(data, bitlength, shift, i, j, k);
    if i < |rows| {
      PairValue(rows, bitlength, shift, i, j, k);
    } else {
      ZeroRoundTrip(bitlength);
    }
  }

  /** Word pair `k` of stage `i` in the written memory. */
  lemma LayoutPair(rows: seq<seq<int>>, stages: nat, bitlength: nat, i: nat, k: nat)
    requires Biquads(rows) && |rows| <= stages && i < stages && k < 4
    ensures var data := Layout(rows, stages, bitlength);
      && (i < |rows| ==> data[i * 8 + 2 * k] == StageWord(rows, bitlength, i, k, false))
      && (i < |rows| ==> data[i * 8 + 2 * k + 1] == StageWord(rows, bitlength, i, k, true))
      && (i >= |rows| ==> data[i * 8 + 2 * k] == 0 && data[i * 8 + 2 * k + 1] == 0)
  {
    StageWords(rows, bitlength, i, k);
  }

  /** A converted column is the two words of its pair read back, negated again when inverted. */
  lemma ColumnFromWords(data: seq<U32>, bitlength: nat, shift: nat, i: nat, j: nat, k: nat)
    requires bitlength >= 32 && j < 6 && j != 2 && j != 3 && i * 8 + 8 <= |data|
    requires k == if j > 3 then j - 2 else j
    ensures var x := Scaled(ToFixed(data[i * 8 + 2 * k + 1], data[i * 8 + 2 * k], bitlength), shift);
      ReadColumn(data, bitlength, shift, i, j) == if j > 3 then -x else x
  {
  }

  /** The pair stored for column `j` reads back as the coefficient over 2^shift, sign restored. */
  lemma PairValue(rows: seq<seq<int>>, bitlength: nat, shift: nat, i: nat, j: nat, k: nat)
    requires Biquads(rows) && 32 <= bitlength <= 64 && InRange(rows, bitlength)
    requires i < |rows| && k < 4 && j == SlotColumn(k)
    ensures var x := Scaled(ToFixed(StageWord(rows, bitlength, i, k, true), StageWord(rows, bitlength, i, k, false), bitlength), shift);
      (if j > 3 then -x else x) == Scaled(rows[i][j], shift)
  {
    StoredRoundTrip(rows, bitlength, i, j, k);
    if j > 3 {
      NegatedQuotient(rows[i][j], Pow2(shift));
    }
  }

  /** A stored coefficient converts back to itself (negated again when inverted). */
  lemma StoredRoundTrip(rows: seq<seq<int>>, bitlength: nat, i: nat, j: nat, k: nat)
    requires Biquads(rows) && 32 <= bitlength <= 64 && InRange(rows, bitlength)
    requires i < |rows| && k < 4 && j == SlotColumn(k)
    ensures ToFixed(StageWord(rows, bitlength, i, k, true), StageWord(rows, bitlength, i, k, false), bitlength) ==
      StoredColumn(rows[i], j)
  {
    var n := StoredColumn(rows[i], j);
    assert -(Pow2(bitlength - 1) as int) <= n < Pow2(bitlength - 1);
    FixedRoundTrip(n, 0, 0, bitlength);
  }

  /** Negating the quotient of a negated numerator gives back the quotient. */
  lemma NegatedQuotient(n: int, d: nat)
    requires d > 0
    ensures -((-n) as real / d as real) == n as real / d as real
  {
  }

  /** Two zero words read as zero. */
  lemma ZeroRoundTrip(bitlength: nat)
    requires 32 <= bitlength <= 64
    ensures ToFixed(0, 0, bitlength) == 0
  {
    FixedRoundTrip(0, 0, 0, bitlength);
    ModBelow(0, Pow2(bitlength));
    assert FromDouble(0, bitlength) == (0, 0);
  }

  /**
   * The coefficient side of the IIR module: its hardware module, the
   * constant registers `_IIRBITS`, `_IIRSHIFT` and `_IIRSTAGES` as read
   * once, and `_writtendata`, the copy of the last written memory.
   */
  class IirFilter {
    const hw: HardwareModule
    const bitlength: nat
    const shift: nat
    const stages: nat
    var writtenData: Option<seq<U32>>

    predicate Valid()
      reads this
    {
      writtenData.Some? ==> |writtenData.value| == stages * 8
    }

    constructor (hw: HardwareModule, bitlength: nat, shift: nat, stages: nat)
      ensures this.hw == hw && this.bitlength == bitlength && this.shift == shift && this.stages == stages
      ensures writtenData == None && Valid()
    {
      this.hw := hw;
      this.bitlength := bitlength;
      this.shift := shift;
      this.stages := stages;
      writtenData := None;
    }

    /**
     * The `coefficients` setter: None stands for no stages; more rows than
     * stages raise before anything is written; otherwise the whole memory
     * of `stages * 8` words is written once at 0x8000 and kept.
     */
    method SetCoefficients(v: Option<seq<seq<int>>>) returns (r: Result<()>)
      requires Valid()
      requires v.Some? ==> Biquads(v.value)
      modifies this, hw
      ensures Valid()
      ensures var rows := if v.Some? then v.value else [];
        if |rows| > stages then
          && r == Fail(Exception)
          && hw.regs == old(hw.regs) && hw.writeLog == old(hw.writeLog) && writtenData == old(writtenData)
        else
          var data := Layout(rows, stages, bitlength);
          && r == Ok(())
          && hw.regs == Stored(old(hw.regs), Absolute(hw.addrBase, COEFFICIENTS), StemlabClient.WriteValues(data))
          && hw.writeLog == old(hw.writeLog) + [WriteOp(Absolute(hw.addrBase, COEFFICIENTS), StemlabClient.WriteValues(data))]
          && writtenData == Some(data)
    {
      var rows := if v.Some? then v.value else [];
      if |rows| > stages {
        return Fail(Exception);
      }
      var data := FillLayout(rows, stages, bitlength);
      hw.Writes(COEFFICIENTS, data);
      writtenData := Some(data);
      r := Ok(());
    }

    /**
     * The `coefficients` getter: no stages when `loops` is 0; otherwise
     * `loops` capped at the stage count, None before any write, and each
     * stage's six coefficients from the kept memory.
     */
    method Coefficients() returns (r: Result<Option<seq<seq<real>>>>)
      requires Valid()
      ensures r == ReadBack(Load(hw.regs, Absolute(hw.addrBase, LOOPS)))
    {
      var loops := hw.Read(LOOPS);
      if loops == 0 {
        return Ok(Some([]));
      }
      var l := if loops > stages then stages else loops;
      if writtenData.None? {
        return Ok(None);
      }
      var data := writtenData.value;
      if l > 0 && bitlength < 32 {
        return Fail(ValueError);
      }
      var rows: seq<seq<real>> := [];
      var i := 0;
      while i < l
        invariant 0 <= i <= l
        invariant |rows| == i
        invariant forall a :: 0 <= a < i ==> rows[a] == ReadRow(data, bitlength, shift, a)
      {
        var row := ReadStage(data, i);
        rows := rows + [row];
        i := i + 1;
      }
      assert l == Min(loops, stages);
      assert rows == seq(l, a requires 0 <= a < l => ReadRow(data, bitlength, shift, a));
      r := Ok(Some(rows));
    }

    /** What the getter returns for the register value `loops`. */
    function ReadBack(loops: nat): Result<Option<seq<seq<real>>>>
      requires Valid()
      reads this
    {
      var l := Min(loops, stages);
      if loops == 0 then Ok(Some([]))
      else if writtenData.None? then Ok(None)
      else if l > 0 && bitlength < 32 then Fail(ValueError)
      else if l == 0 then Ok(Some([]))
      else
        var data := writtenData.value;
        Ok(Some(seq(l, i requires 0 <= i < l => ReadRow(data, bitlength, shift, i))))
    }

    /** The inner loop of the getter: the six coefficients of stage `i`. */
    method ReadStage(data: seq<U32>, i: nat) returns (row: seq<real>)
      requires bitlength >= 32 && i * 8 + 8 <= |data|
      ensures row == ReadRow(data, bitlength, shift, i)
    {
      row := [];
      var j := 0;
      while j < 6
        invariant 0 <= j <= 6 && |row| == j
        invariant forall b :: 0 <= b < j ==> row[b] == ReadColumn(data, bitlength, shift, i, b)
      {
        var c: real;
        if j == 2 {
          c := 0.0;
        } else if j == 3 {
          c := 1.0;
        } else {
          var k := if j > 3 then j - 2 else j;
          var x := ToDouble(data[i * 8 + 2 * k + 1], data[i * 8 + 2 * k], bitlength, shift);
          c := x.value;
          if j > 3 && INVERT {
            c := -c;
          }
        }
        row := row + [c];
        j := j + 1;
      }
    }
  }

  /** The setter's nested loops over a zeroed buffer of `stages * 8` words. */
  method FillLayout(rows: seq<seq<int>>, stages: nat, bitlength: nat) returns (words: seq<U32>)
    requires Biquads(rows) && |rows| <= stages
    ensures words == Layout(rows, stages, bitlength)
  {
    var data := new U32[stages * 8](_ => 0);
    var i := 0;
    while i < |rows|
      invariant 0 <= i <= |rows|
      invariant forall p :: 0 <= p < 8 * i ==> data[p] == CoefficientWord(rows, bitlength, p)
      invariant forall p :: 8 * i <= p < data.Length ==> data[p] == 0
    {
      StoreStage(data, rows, bitlength, i);
      i := i + 1;
    }
    forall p | 8 * |rows| <= p < data.Length
      ensures CoefficientWord(rows, bitlength, p) == 0
    {
      assert p / 8 >= |rows|;
    }
    words := data[..];
  }

  /** The inner loop of the setter: the eight words of stage `i`. */
  method StoreStage(data: array<U32>, rows: seq<seq<int>>, bitlength: nat, i: nat)
    requires Biquads(rows) && i < |rows| && 8 * i + 8 <= data.Length
    modifies data
    ensures forall p :: 8 * i <= p < 8 * i + 8 ==> data[p] == CoefficientWord(rows, bitlength, p)
    ensures forall p :: 0 <= p < data.Length && !(8 * i <= p < 8 * i + 8) ==> data[p] == old(data[p])
  {
    var j := 0;
    while j < 6
      invariant 0 <= j <= 6
      invariant forall k :: 0 <= k < 4 && SlotColumn(k) < j ==>
        data[8 * i + 2 * k] == StageWord(rows, bitlength, i, k, false) &&
        data[8 * i + 2 * k + 1] == StageWord(rows, bitlength, i, k, true)
      invariant forall p :: 0 <= p < data.Length && !(8 * i <= p < 8 * i + 8) ==> data[p] == old(data[p])
    {
      if j != 2 && j != 3 {
        var k := if j > 3 then j - 2 else j;
        assert SlotColumn(k) == j;
        var hi, lo := StageWord(rows, bitlength, i, k, true), StageWord(rows, bitlength, i, k, false);
        data[8 * i + 2 * k + 1] := hi;
        data[8 * i + 2 * k] := lo;
      }
      j := j + 1;
    }
    StageFilled(rows, bitlength, i, data[..]);
  }
}
