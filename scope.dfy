/**
 * The scope: the option validators of its duration and sampling time, the
 * sign fix of its raw 14-bit samples, the start of an acquisition (the
 * ordered register writes) and the readiness test of a curve.
 */
module Scope {
  import opened Common
  import opened MonitorServer
  import opened Hardware
  import opened Attributes
  import opened Registers

  /** `data_length`: samples per channel in one trace. */
  const DATA_LENGTH: nat := 16384

  /** `addr_base` of the scope. */
  const SCOPE_BASE: int := 0x4010_0000

  // ------------------------------------------------------ option validators

  /** The smallest option not below `value`, if there is one. */
  function LeastAtLeast(options: seq<real>, value: real): (r: Option<real>)
    ensures r.None? <==> forall i :: 0 <= i < |options| ==> options[i] < value
    ensures r.Some? ==> r.value in options && value <= r.value
    ensures r.Some? ==> forall i :: 0 <= i < |options| && value <= options[i] ==> r.value <= options[i]
  {
    if options == [] then None
    else
      var rest := LeastAtLeast(options[1..], value);
      assert forall i :: 1 <= i < |options| ==> options[i] == options[1..][i - 1];
      if options[0] < value then rest
      else if rest.Some? && rest.value < options[0] then rest
      else Some(options[0])
  }

  /** The largest option not above `value`, if there is one. */
  function GreatestAtMost(options: seq<real>, value: real): (r: Option<real>)
    ensures r.None? <==> forall i :: 0 <= i < |options| ==> value < options[i]
    ensures r.Some? ==> r.value in options && r.value <= value
    ensures r.Some? ==> forall i :: 0 <= i < |options| && options[i] <= value ==> options[i] <= r.value
  {
    if options == [] then None
    else
      var rest := GreatestAtMost(options[1..], value);
      assert forall i :: 1 <= i < |options| ==> options[i] == options[1..][i - 1];
      if value < options[0] then rest
      else if rest.Some? && options[0] < rest.value then rest
      else Some(options[0])
  }

  /** `max(options)`. */
  function Largest(options: seq<real>): (r: real)
    requires options != []
    ensures r in options && forall i :: 0 <= i < |options| ==> options[i] <= r
  {
    if |options| == 1 then options[0]
    else
      var rest := Largest(options[1..]);
      assert forall i :: 1 <= i < |options| ==> options[i] == options[1..][i - 1];
      if options[0] < rest then rest else options[0]
  }

  /** `min(options)`. */
  function Smallest(options: seq<real>): (r: real)
    requires options != []
    ensures r in options && forall i :: 0 <= i < |options| ==> r <= options[i]
  {
    if |options| == 1 then options[0]
    else
      var rest := Smallest(options[1..]);
      assert forall i :: 1 <= i < |options| ==> options[i] == options[1..][i - 1];
      if rest < options[0] then rest else options[0]
  }

  /**
   * `DurationProperty.validate_and_normalize`: the next-higher option, or
   * the longest option when the request exceeds them all. With no options
   * the options mapping is `{None: None}`, and comparing None with the
   * request raises TypeError.
   */
  function ValidateDuration(options: seq<real>, value: real): (r: Result<real>)
    ensures r.Fail? <==> options == []
    ensures r.Fail? ==> r.error == TypeError
    ensures r.Ok? ==> r.value in options
    ensures r.Ok? && (exists i :: 0 <= i < |options| && value <= options[i]) ==>
      value <= r.value && forall i :: 0 <= i < |options| && value <= options[i] ==> r.value <= options[i]
    ensures r.Ok? && (forall i :: 0 <= i < |options| ==> options[i] < value) ==>
      r.value < value && forall i :: 0 <= i < |options| ==> options[i] <= r.value
  {
    var above := LeastAtLeast(options, value);
    if above.Some? then Ok(above.value)
    else if options == [] then Fail(TypeError)
    else Ok(Largest(options))
  }

  /**
   * `SamplingTimeProperty.validate_and_normalize`: the next-lower option,
   * or the shortest option when the request is below them all. With no
   * options the options mapping is `{None: None}`, and comparing None with
   * the request raises TypeError.
   */
  function ValidateSamplingTime(options: seq<real>, value: real): (r: Result<real>)
    ensures r.Fail? <==> options == []
    ensures r.Fail? ==> r.error == TypeError
    ensures r.Ok? ==> r.value in options
    ensures r.Ok? && (exists i :: 0 <= i < |options| && options[i] <= value) ==>
      r.value <= value && forall i :: 0 <= i < |options| && options[i] <= value ==> options[i] <= r.value
    ensures r.Ok? && (forall i :: 0 <= i < |options| ==> value < options[i]) ==>
      value < r.value && forall i :: 0 <= i < |options| ==> r.value <= options[i]
  {
    var below := GreatestAtMost(options, value);
    if below.Some? then Ok(below.value)
    else if options == [] then Fail(TypeError)
    else Ok(Smallest(options))
  }

  /** An option is its own duration and its own sampling time. */
  lemma ValidateOption(options: seq<real>, i: nat)
    requires i < |options|
    ensures ValidateDuration(options, options[i]) == Ok(options[i])
    ensures ValidateSamplingTime(options, options[i]) == Ok(options[i])
  {
    var d := ValidateDuration(options, options[i]);
    assert d.value <= options[i];
    var s := ValidateSamplingTime(options, options[i]);
    assert options[i] <= s.value;
  }

  /** A longer request never gets a shorter duration, nor a shorter sampling time. */
  lemma ValidateMonotone(options: seq<real>, v: real, w: real)
    requires options != [] && v <= w
    ensures ValidateDuration(options, v).value <= ValidateDuration(options, w).value
    ensures ValidateSamplingTime(options, v).value <= ValidateSamplingTime(options, w).value
  {
    var dv, dw := ValidateDuration(options, v).value, ValidateDuration(options, w).value;
    var j :| 0 <= j < |options| && options[j] == dw;
    if exists i :: 0 <= i < |options| && w <= options[i] {
      assert v <= options[j];
    }
    var sv, sw := ValidateSamplingTime(options, v).value, ValidateSamplingTime(options, w).value;
    var k :| 0 <= k < |options| && options[k] == sv;
    if exists i :: 0 <= i < |options| && options[i] <= v {
      assert options[k] <= w;
    }
  }

  /** `decimations`: the powers of two up to 2^16. */
  function Decimation(n: nat): nat
  {
    Pow2(n)
  }

  /** The sampling time of decimation 2^n: 8 ns per decimated sample. */
  function SamplingTime(n: nat): real
  {
    0.000000008 * Decimation(n) as real
  }

  /** The duration of a full trace at decimation 2^n. */
  function Duration(n: nat): real
  {
    SamplingTime(n) * DATA_LENGTH as real
  }

  /** `sampling_times`. */
  const SAMPLING_TIMES: seq<real> := seq(17, n requires 0 <= n < 17 => SamplingTime(n))

  /** `durations`. */
  const DURATIONS: seq<real> := seq(17, n requires 0 <= n < 17 => Duration(n))

  /**
   * Setting an available duration sets the sampling time of the same
   * index (`duration / data_length`), and that the decimation 2^n
   * (`sampling_time / 8 ns`).
   */
  lemma DurationSetsDecimation(n: nat)
    requires n < 17
    ensures ValidateDuration(DURATIONS, Duration(n)) == Ok(Duration(n))
    ensures ValidateSamplingTime(SAMPLING_TIMES, Duration(n) / DATA_LENGTH as real) == Ok(SamplingTime(n))
    ensures SamplingTime(n) / 0.000000008 == Decimation(n) as real
  {
    assert DURATIONS[n] == Duration(n);
    ValidateOption(DURATIONS, n);
    SamplingTimeOfDuration(n);
    assert SAMPLING_TIMES[n] == SamplingTime(n);
    ValidateOption(SAMPLING_TIMES, n);
    Rescale(Decimation(n) as real, 0.000000008);
  }

  lemma SamplingTimeOfDuration(n: nat)
    ensures Duration(n) / DATA_LENGTH as real == SamplingTime(n)
  {
    Rescale(SamplingTime(n), DATA_LENGTH as real);
  }

  lemma Rescale(x: real, f: real)
    requires f != 0.0
    ensures x * f / f == x && f * x / f == x
  {
  }

  // ------------------------------------------------------------ raw samples

  /** `np.array(..., dtype=np.int16)` of a register word: its low 16 bits in two's complement. */
  function Int16(w: U32): (x: int)
    ensures -32768 <= x < 32768
  {
    SmallPowers();
    ToPyInt(w, 16)
  }

  lemma SmallPowers()
    ensures Pow2(13) == 8192 && Pow2(14) == 16384 && Pow2(15) == 32768 && Pow2(16) == 65536
  {
    assert Pow2(8) == 256 by {
      Pow2Add(4, 4);
      assert Pow2(4) == 16;
    }
    Pow2Add(8, 5);
    assert Pow2(5) == 32;
    Pow2Add(8, 6);
    Pow2Add(8, 7);
    Pow2Add(8, 8);
  }

  /**
   * `x[x >= 2 ** 13] -= 2 ** 14`: on a 14-bit value, its reading as a
   * 14-bit two's complement number.
   */
  function SignFix(x: int): (y: int)
    ensures 0 <= x < 16384 ==> -8192 <= y < 8192 && (x - y) % 16384 == 0
  {
    if x >= 8192 then x - 16384 else x
  }

  /** One raw sample as `_rawdata_ch1` returns it. */
  function RawSample(w: U32): int
  {
    SignFix(Int16(w))
  }

  /**
   * On the 14-bit samples the board produces, the fix reads the word as a
   * 14-bit two's complement number, the same as `_to_pyint(v, 14)`, and
   * stays in [-2^13, 2^13).
   */
  lemma RawSampleIsSigned14(w: U32)
    requires w < 16384
    ensures RawSample(w) == ToPyInt(w, 14)
    ensures -8192 <= RawSample(w) < 8192
  {
    SmallPowers();
    assert Int16(w) == w;
  }

  function RawSamples(ws: seq<U32>): (xs: seq<int>)
    ensures |xs| == |ws|
    ensures forall i :: 0 <= i < |ws| ==> xs[i] == RawSample(ws[i])
  {
    seq(|ws|, i requires 0 <= i < |ws| => RawSample(ws[i]))
  }

  // --------------------------------------------------------- trigger delay

  /**
   * The value written to the trigger-delay register: `data_length` when
   * triggering immediately; otherwise the rounded delay in samples
   * (`counts`) plus half a trace, raised to 1 (a delay of 0 does not
   * work on the board) and capped at 2^32 - 1.
   */
  function TriggerDelayWord(source: string, counts: int): (d: U32)
    ensures source == "immediately" ==> d == DATA_LENGTH
    ensures source != "immediately" ==> 1 <= d
    ensures source != "immediately" && 1 <= counts + DATA_LENGTH / 2 < TWO32 ==> d == counts + DATA_LENGTH / 2
    ensures source != "immediately" && counts + DATA_LENGTH / 2 <= 0 ==> d == 1
    ensures source != "immediately" && counts + DATA_LENGTH / 2 >= TWO32 ==> d == TWO32 - 1
  {
    if source == "immediately" then DATA_LENGTH
    else
      var delay := counts + DATA_LENGTH / 2;
      if delay <= 0 then 1
      else if delay > TWO32 - 1 then TWO32 - 1
      else delay
  }

  /** `_trigger_sources`: option names and register values, by value. */
  const TRIGGER_SOURCES: seq<(string, U32)> := [
    ("off", 0), ("immediately", 1), ("ch1_positive_edge", 2), ("ch1_negative_edge", 3),
    ("ch2_positive_edge", 4), ("ch2_negative_edge", 5), ("ext_positive_edge", 6),
    ("ext_negative_edge", 7), ("asg0", 8), ("asg1", 9), ("dsp", 10)]

  /** The register values are the positions, so the names are distinct. */
  lemma TriggerSourcesDistinct()
    ensures NoDuplicatesKeys(TRIGGER_SOURCES)
  {
    forall i, j | 0 <= i < j < |TRIGGER_SOURCES|
      ensures TRIGGER_SOURCES[i].0 != TRIGGER_SOURCES[j].0
    {
      TriggerSourcesAt(i);
      TriggerSourcesAt(j);
    }
  }

  lemma TriggerSourcesAt(i: nat)
    requires i < |TRIGGER_SOURCES|
    ensures TRIGGER_SOURCES[i].1 == i
  {
  }

  // ------------------------------------------------------- register layout

  /** The absolute addresses of the control word, the trigger source and the trigger delay. */
  const CONTROL: U32 := 0x4010_0000
  const SOURCE: U32 := 0x4010_0004
  const DELAY: U32 := 0x4010_0010

  lemma ScopeAddresses()
    ensures Absolute(SCOPE_BASE, 0x0) == CONTROL
    ensures Absolute(SCOPE_BASE, 0x4) == SOURCE
    ensures Absolute(SCOPE_BASE, 0x10) == DELAY
  {
  }

  /** `_trigger_armed`: bit 0 of the control word. */
  function Armed(regs: Memory): bool
  {
    BoolToPython(Load(regs, CONTROL), 0, false)
  }

  /** `_trigger_delay_running`: bit 2 of the control word. */
  function DelayRunning(regs: Memory): bool
  {
    BoolToPython(Load(regs, CONTROL), 2, false)
  }

  /** The control word with the write-state-machine reset bit (bit 1) set. */
  function ResetWord(regs: Memory): U32
  {
    BoolFromPython(Load(regs, CONTROL), 1, true, false)
  }

  /**
   * The control word after the trigger is armed: bit 0 set on top of the
   * reset word, so bit 1 stays set, and every other bit as read.
   */
  function ArmWord(regs: Memory): (w: U32)
    ensures BoolToPython(w, 0, false) && BoolToPython(w, 1, false)
    ensures forall j :: 2 <= j < 32 ==> Bits(w)[j] == Bits(Load(regs, CONTROL))[j]
  {
    var w := BoolFromPython(ResetWord(regs), 0, true, false);
    BitsAt(ResetWord(regs), 1);
    BitsAt(w, 1);
    w
  }

  /**
   * The writes of `_start_acquisition`, in order, one word each: the reset
   * bit to the control register, the delay, the arm word (see `ArmWord`)
   * to the control register, and the source.
   */
  function StartWrites(regs: Memory, source: string, sourceValue: U32, counts: int): (w: seq<WriteOp>)
    ensures |w| == 4 && forall i :: 0 <= i < 4 ==> |w[i].values| == 1
    ensures w[0].addr == CONTROL && w[2] == WriteOp(CONTROL, [ArmWord(regs)])
    ensures w[1] == WriteOp(DELAY, [TriggerDelayWord(source, counts)])
    ensures w[3] == WriteOp(SOURCE, [sourceValue])
  {
    [WriteOp(CONTROL, [ResetWord(regs)]),
     WriteOp(DELAY, [TriggerDelayWord(source, counts)]),
     WriteOp(CONTROL, [ArmWord(regs)]),
     WriteOp(SOURCE, [sourceValue])]
  }

  /**
   * The board after those writes, registers reading back the last word
   * written: the control register holds the arm word, the delay and source
   * registers their values, and no other register changes.
   */
  function StartRegs(regs: Memory, source: string, sourceValue: U32, counts: int): (r: Memory)
    ensures Load(r, CONTROL) == ArmWord(regs)
    ensures Load(r, DELAY) == TriggerDelayWord(source, counts)
    ensures Load(r, SOURCE) == sourceValue
    ensures forall a :: a != CONTROL && a != DELAY && a != SOURCE ==> Load(r, a) == Load(regs, a)
  {
    regs[CONTROL := ResetWord(regs)][DELAY := TriggerDelayWord(source, counts)]
      [CONTROL := ArmWord(regs)][SOURCE := sourceValue]
  }

  /**
   * The first start write sets the reset bit; with the registers read back
   * as written, the trigger is armed after the start writes, so no curve is
   * ready and one is being acquired, the delay register reads back the
   * clamped delay and the source register the source's value.
   */
  lemma StartArms(regs: Memory, source: string, sourceValue: U32, counts: int, setupCalled: bool)
    ensures BoolToPython(StartWrites(regs, source, sourceValue, counts)[0].values[0], 1, false)
    ensures var after := StartRegs(regs, source, sourceValue, counts);
      && Armed(after)
      && Load(after, DELAY) == TriggerDelayWord(source, counts)
      && Load(after, SOURCE) == sourceValue
      && !CurveReady(after, setupCalled)
      && CurveAcquiring(after, setupCalled) == setupCalled
  {
    var reset := ResetWord(regs);
    BitsAt(reset, 1);
    BitsAt(ArmWord(regs), 1);
    assert Load(StartRegs(regs, source, sourceValue, counts), CONTROL) == ArmWord(regs);
  }

  lemma AppendFour(log: seq<WriteOp>, ops: seq<WriteOp>)
    requires |ops| == 4
    ensures log + [ops[0]] + [ops[1]] + [ops[2]] + [ops[3]] == log + ops
  {
    assert ops == [ops[0], ops[1], ops[2], ops[3]];
  }

  /** Without a setup, or with an armed trigger or a running delay, there is no curve. */
  predicate CurveReady(regs: Memory, setupCalled: bool): (b: bool)
    ensures b ==> setupCalled && !Armed(regs)
  {
    !Armed(regs) && !DelayRunning(regs) && setupCalled
  }

  /** After a setup, a curve is being acquired exactly when none is ready. */
  predicate CurveAcquiring(regs: Memory, setupCalled: bool): (b: bool)
    ensures b ==> setupCalled
    ensures setupCalled ==> (b <==> !CurveReady(regs, setupCalled))
  {
    (Armed(regs) || DelayRunning(regs)) && setupCalled
  }

  /** After a setup, a curve is either ready or being acquired, never both. */
  lemma ReadyOrAcquiring(regs: Memory, setupCalled: bool)
    ensures !(CurveReady(regs, setupCalled) && CurveAcquiring(regs, setupCalled))
    ensures setupCalled ==> CurveReady(regs, setupCalled) || CurveAcquiring(regs, setupCalled)
  {
  }

  // ------------------------------------------------------------ the module

  class Scope {
    const hw: HardwareModule
    /** `_trigger_sources`, the options of the source register. */
    const sources: seq<(string, U32)>
    /** `_trigger_source_register`. */
    const sourceRegister: SelectRegister<string>
    /** `trigger_source`, a validated option name. */
    var triggerSource: string
    var setupCalled: bool
    var lastTimeSetup: real

    ghost predicate Valid()
      reads this, sourceRegister
    {
      && hw.addrBase == SCOPE_BASE
      && sourceRegister.address == 0x4 && sourceRegister.bitmask == None
      && sourceRegister.options == sources && NoDuplicatesKeys(sources)
      && |sources| > 0 && sources[0] == ("off", 0)
      && triggerSource in Keys(sources)
    }

    constructor (board: Memory)
      ensures Valid() && fresh(hw) && fresh(sourceRegister)
      ensures sources == TRIGGER_SOURCES && hw.regs == board && hw.writeLog == []
      ensures triggerSource == "immediately" && !setupCalled
    {
      TriggerSourcesDistinct();
      hw := new HardwareModule(SCOPE_BASE, board);
      sources := TRIGGER_SOURCES;
      sourceRegister := new SelectRegister(0x4, None, TRIGGER_SOURCES, false, None);
      triggerSource := "immediately";
      setupCalled := false;
      lastTimeSetup := 0.0;
      new;
      assert Keys(TRIGGER_SOURCES)[1] == "immediately";
    }

    /** The register value of the selected trigger source. */
    function SourceValue(): (v: U32)
      requires Valid()
      reads this, sourceRegister
      ensures OptionValue(sources, Some(triggerSource)) == Some(v)
    {
      OptionValue(sources, Some(triggerSource)).value
    }

    /**
     * `_start_acquisition`: marks the setup as called, resets the write
     * state machine, writes the trigger delay (`counts` is the delay in
     * samples, rounded), arms the trigger and writes the trigger source,
     * in this order, and records the time `now`.
     */
    method StartAcquisition(counts: int, now: real)
      requires Valid()
      modifies this, hw, sourceRegister
      ensures Valid() && triggerSource == old(triggerSource)
      ensures setupCalled && lastTimeSetup == now
      ensures hw.writeLog == old(hw.writeLog) + StartWrites(old(hw.regs), triggerSource, SourceValue(), counts)
      ensures hw.regs == StartRegs(old(hw.regs), triggerSource, SourceValue(), counts)
      ensures sourceRegister.stored == Some(Some(triggerSource))
    {
      ghost var regs, log := hw.regs, hw.writeLog;
      setupCalled := true;
      SetControlBit(1);
      var delay := TriggerDelayWord(triggerSource, counts);
      WriteDelay(delay);
      assert Load(hw.regs, CONTROL) == ResetWord(regs);
      SetControlBit(0);
      ghost var armed := hw.regs;
      WriteSource(triggerSource);
      lastTimeSetup := now;
      assert hw.regs == armed[SOURCE := SourceValue()];
      ghost var ops := StartWrites(regs, triggerSource, SourceValue(), counts);
      assert hw.writeLog == log + [ops[0]] + [ops[1]] + [ops[2]] + [ops[3]];
      AppendFour(log, ops);
    }

    /** A BoolRegister on the control word, set to True. */
    method SetControlBit(bit: nat)
      requires Valid() && bit < 32
      modifies hw
      ensures var w := BoolFromPython(Load(old(hw.regs), CONTROL), bit, true, false);
        hw.regs == old(hw.regs)[CONTROL := w] && hw.writeLog == old(hw.writeLog) + [WriteOp(CONTROL, [w])]
    {
      ScopeAddresses();
      SetBool(hw, 0x0, bit, None, false, true);
    }

    /** `_trigger_delay_register`, a 32-bit IntRegister. */
    method WriteDelay(d: U32)
      requires Valid()
      modifies hw
      ensures hw.regs == old(hw.regs)[DELAY := d] && hw.writeLog == old(hw.writeLog) + [WriteOp(DELAY, [d])]
    {
      ScopeAddresses();
      Pow2At32();
      SetInt(hw, 0x10, 32, None, d);
    }

    /** Writes a trigger source through `_trigger_source_register`. */
    method WriteSource(name: string)
      requires Valid() && name in Keys(sources)
      modifies hw, sourceRegister
      ensures Valid() && sourceRegister.stored == Some(Some(name))
      ensures var v := OptionValue(sources, Some(name)).value;
        && hw.regs == old(hw.regs)[SOURCE := v]
        && hw.writeLog == old(hw.writeLog) + [WriteOp(SOURCE, [v])]
    {
      ScopeAddresses();
      var r := sourceRegister.Set(hw, Some(name));
    }

    /**
     * `_start_acquisition_rolling_mode`: a start, then the trigger source
     * register set to 'off' and the trigger armed once more.
     */
    method StartRollingAcquisition(counts: int, now: real)
      requires Valid()
      modifies this, hw, sourceRegister
      ensures Valid() && triggerSource == old(triggerSource) && setupCalled
      ensures hw.writeLog == old(hw.writeLog) + StartWrites(old(hw.regs), triggerSource, SourceValue(), counts)
        + [WriteOp(SOURCE, [0]), WriteOp(CONTROL, [BoolFromPython(ArmWord(old(hw.regs)), 0, true, false)])]
      ensures sourceRegister.stored == Some(Some("off")) && lastTimeSetup == now
      ensures hw.regs == StartRegs(old(hw.regs), triggerSource, SourceValue(), counts)
        [SOURCE := 0][CONTROL := BoolFromPython(ArmWord(old(hw.regs)), 0, true, false)]
      ensures Armed(hw.regs)
    {
      ghost var regs := hw.regs;
      StartAcquisition(counts, now);
      ghost var started := hw.regs;
      assert Load(started, CONTROL) == ArmWord(regs);
      assert Keys(sources)[0] == "off";
      WriteSource("off");
      assert hw.regs == started[SOURCE := 0];
      assert Load(hw.regs, CONTROL) == ArmWord(regs);
      SetControlBit(0);
    }

    /** `curve_ready`. */
    method IsCurveReady() returns (ready: bool)
      requires Valid()
      ensures ready == CurveReady(hw.regs, setupCalled)
    {
      var armed := GetBool(hw, 0x0, 0, None, false);
      var running := GetBool(hw, 0x0, 2, None, false);
      ready := !armed && !running && setupCalled;
    }

    /** `_curve_acquiring`. */
    method IsCurveAcquiring() returns (acquiring: bool)
      requires Valid()
      ensures acquiring == CurveAcquiring(hw.regs, setupCalled)
    {
      var armed := GetBool(hw, 0x0, 0, None, false);
      var running := GetBool(hw, 0x0, 2, None, false);
      acquiring := (armed || running) && setupCalled;
    }

    /** `_rawdata_ch1` (offset 0x10000) and `_rawdata_ch2` (offset 0x20000). */
    method RawData(address: int) returns (xs: seq<int>)
      ensures xs == RawSamples(Loaded(hw.regs, Absolute(hw.addrBase, address), DATA_LENGTH))
    {
      var ws := hw.Reads(address, DATA_LENGTH);
      xs := RawSamples(ws);
    }
  }
}
