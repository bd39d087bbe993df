/**
 * The register descriptors: how reading and assigning an attribute of a
 * hardware module turns into register reads and writes on the board.
 * A descriptor keeps no state of its own; what it remembers lives in the
 * module (the cached constant, the selected option).
 */
module Registers {
  import opened Common
  import opened MonitorServer
  import opened Hardware
  import opened Attributes
  import StemlabClient

  // ---------------------------------------------------------- BaseRegister

  /** What `BaseRegister.get_value` reads: the word at `address`, under the bitmask when there is one. */
  function RegisterValue(regs: Memory, base: int, address: int, bitmask: Option<U32>): U32
  {
    var w := Load(regs, Absolute(base, address));
    if bitmask.None? then w else AndMask(w, bitmask.value)
  }

  /** What `BaseRegister.set_value` writes for the converted value `v` when the register holds `act`. */
  function RegisterWord(act: U32, v: U32, bitmask: Option<U32>): U32
  {
    if bitmask.None? then v else MaskedMerge(act, v, bitmask.value)
  }

  method GetRegister(hw: HardwareModule, address: int, bitmask: Option<U32>) returns (raw: U32)
    ensures raw == RegisterValue(hw.regs, hw.addrBase, address, bitmask)
  {
    var w := hw.Read(address);
    if bitmask.None? {
      raw := w;
    } else {
      raw := AndMask(w, bitmask.value);
    }
  }

  /** Writes without a bitmask, and reads then writes with one. */
  method SetRegister(hw: HardwareModule, address: int, bitmask: Option<U32>, v: U32)
    modifies hw
    ensures var a := Absolute(hw.addrBase, address);
      hw.regs == old(hw.regs)[a := RegisterWord(Load(old(hw.regs), a), v, bitmask)]
      && hw.writeLog == old(hw.writeLog) + [WriteOp(a, [RegisterWord(Load(old(hw.regs), a), v, bitmask)])]
  {
    if bitmask.None? {
      hw.Write(address, v);
    } else {
      var act := hw.Read(address);
      hw.Write(address, MaskedMerge(act, v, bitmask.value));
    }
  }

  /**
   * A register reads back the value written to it (its bits under the
   * mask when there is one), and every other register keeps its word.
   */
  lemma SetThenGet(regs: Memory, base: int, address: int, bitmask: Option<U32>, v: U32, other: int)
    ensures var a := Absolute(base, address);
      var after := regs[a := RegisterWord(Load(regs, a), v, bitmask)];
      && RegisterValue(after, base, address, bitmask) == (if bitmask.None? then v else AndMask(v, bitmask.value))
      && (Absolute(base, other) != a ==> Load(after, Absolute(base, other)) == Load(regs, Absolute(base, other)))
  {
    if bitmask.Some? {
      MaskedReadBack(Load(regs, Absolute(base, address)), v, bitmask.value);
    }
  }

  // ---------------------------------------------------------- BoolRegister

  method GetBool(hw: HardwareModule, address: int, bit: nat, bitmask: Option<U32>, invert: bool)
    returns (b: bool)
    ensures b == BoolToPython(RegisterValue(hw.regs, hw.addrBase, address, bitmask), bit, invert)
  {
    var raw := GetRegister(hw, address, bitmask);
    b := BoolToPython(raw, bit, invert);
  }

  /**
   * `BoolRegister.set_value`: `from_python` reads the register and sets or
   * clears the bit; with a bitmask the register is read a second time for
   * the merge.
   */
  method SetBool(hw: HardwareModule, address: int, bit: nat, bitmask: Option<U32>, invert: bool, val: bool)
    requires bit < 32
    modifies hw
    ensures var a := Absolute(hw.addrBase, address);
      var act := Load(old(hw.regs), a);
      hw.regs == old(hw.regs)[a := RegisterWord(act, BoolFromPython(act, bit, val, invert), bitmask)]
      && hw.writeLog == old(hw.writeLog) + [WriteOp(a, [RegisterWord(act, BoolFromPython(act, bit, val, invert), bitmask)])]
  {
    var act := hw.Read(address);
    var towrite := BoolFromPython(act, bit, val, invert);
    SetRegister(hw, address, bitmask, towrite);
  }

  /**
   * A bool register reads back the value assigned, whenever its bit is not
   * masked out, and the other bits of the word stay as they were.
   */
  lemma BoolSetThenGet(regs: Memory, base: int, address: int, bit: nat, bitmask: Option<U32>, invert: bool, val: bool)
    requires bit < 32
    requires bitmask.Some? ==> Bits(bitmask.value)[bit] == 1
    ensures var a := Absolute(base, address);
      var act := Load(regs, a);
      var after := regs[a := RegisterWord(act, BoolFromPython(act, bit, val, invert), bitmask)];
      && BoolToPython(RegisterValue(after, base, address, bitmask), bit, invert) == val
      && (bitmask.None? ==> forall j :: 0 <= j < 32 && j != bit ==> Bits(Load(after, a))[j] == Bits(act)[j])
  {
    var a := Absolute(base, address);
    var act := Load(regs, a);
    var w := BoolFromPython(act, bit, val, invert);
    if bitmask.Some? {
      var r := AndMask(MaskedMerge(act, w, bitmask.value), bitmask.value);
      BitsAt(r, bit);
      BitsAt(w, bit);
    }
  }

  // ----------------------------------------------------------- IntRegister

  /** The register word of an IntRegister of at most 32 bits: the value saturated to its range. */
  function IntWord(value: int, bits: nat): (w: U32)
    requires 1 <= bits <= 32
    ensures w == Clamp(value, 0, Pow2(bits) - 1)
  {
    Pow2Monotone(bits, 32);
    Pow2At32();
    IntRegisterValidate(value, bits)
  }

  /** `IntRegister.__set__` with the default bounds: saturate to [0, 2^bits - 1], then write. */
  method SetInt(hw: HardwareModule, address: int, bits: nat, bitmask: Option<U32>, value: int)
    requires 1 <= bits <= 32
    modifies hw
    ensures var a := Absolute(hw.addrBase, address);
      hw.regs == old(hw.regs)[a := RegisterWord(Load(old(hw.regs), a), IntWord(value, bits), bitmask)]
      && hw.writeLog == old(hw.writeLog) + [WriteOp(a, [RegisterWord(Load(old(hw.regs), a), IntWord(value, bits), bitmask)])]
  {
    var v := IntWord(value, bits);
    SetRegister(hw, address, bitmask, v);
  }

  /** A ConstantIntRegister: read from the board once, then answered from the module. */
  class ConstantIntRegister {
    const address: int
    const bitmask: Option<U32>
    var cached: Option<U32>

    constructor (address: int, bitmask: Option<U32>)
      ensures this.address == address && this.bitmask == bitmask && cached == None
    {
      this.address := address;
      this.bitmask := bitmask;
      cached := None;
    }

    method Get(hw: HardwareModule) returns (v: U32)
      modifies this
      ensures old(cached).Some? ==> v == old(cached).value
      ensures old(cached).None? ==> v == RegisterValue(hw.regs, hw.addrBase, address, bitmask)
      ensures cached == Some(v)
    {
      if cached.Some? {
        v := cached.value;
      } else {
        v := GetRegister(hw, address, bitmask);
        cached := Some(v);
      }
    }
  }

  // ---------------------------------------------------------- LongRegister

  /** Each word under its own mask word. */
  function MaskWords(ws: seq<U32>, masks: seq<U32>): (r: seq<U32>)
    requires |ws| == |masks|
    ensures |r| == |ws|
    ensures forall i :: 0 <= i < |ws| ==> r[i] == AndMask(ws[i], masks[i])
  {
    seq(|ws|, i requires 0 <= i < |ws| => AndMask(ws[i], masks[i]))
  }

  /** The loop of `LongRegister.get_value`: `value += values[i] << (32 * i)`. */
  method JoinWords(values: seq<U32>) returns (value: nat)
    ensures value == Join(values)
  {
    value := 0;
    var i := 0;
    while i < |values|
      invariant i <= |values|
      invariant value == Join(values[..i])
    {
      JoinSnoc(values[..i], values[i]);
      assert values[..i + 1] == values[..i] + [values[i]];
      value := value + values[i] * Radix(32, i);
      i := i + 1;
    }
    assert values[..|values|] == values;
  }

  /**
   * `LongRegister.get_value`: the `ceil(bits / 32)` words from `address`
   * on, joined into one number, each word under its part of the mask. A
   * register wider than one read can return fails on the missing word.
   */
  method GetLong(hw: HardwareModule, address: int, bits: nat, bitmask: Option<nat>) returns (r: Result<nat>)
    ensures var n := WordCount(bits);
      var ws := Loaded(hw.regs, Absolute(hw.addrBase, address), n);
      && (r.Fail? <==> n > StemlabClient.MAX_READ_WORDS)
      && (r.Fail? ==> r.error == IndexError)
      && (r.Ok? && bitmask.None? ==> r.value == Join(ws))
      && (r.Ok? && bitmask.Some? ==> r.value == Join(MaskWords(ws, Words(bitmask.value, n))))
  {
    var n := WordCount(bits);
    var values := hw.Reads(address, n);
    if n > StemlabClient.MAX_READ_WORDS {
      return Fail(IndexError);
    }
    if bitmask.Some? {
      values := MaskWords(values, Words(bitmask.value, n));
    }
    var value := JoinWords(values);
    r := Ok(value);
  }

  /** The words `LongRegister.set_value` writes: the value's words, merged with the board's under the mask. */
  function LongWords(val: int, n: nat, bitmask: Option<nat>, act: seq<U32>): (ws: seq<U32>)
    requires bitmask.Some? ==> |act| >= n
    ensures |ws| == n
    ensures bitmask.None? ==> ws == Words(val, n)
    ensures bitmask.Some? ==> forall i :: 0 <= i < n ==>
      ws[i] == MaskedMerge(act[i], Words(val, n)[i], Words(bitmask.value, n)[i])
  {
    if bitmask.None? then Words(val, n)
    else
      var vs := Words(val, n);
      var ms := Words(bitmask.value, n);
      seq(n, i requires 0 <= i < n => MaskedMerge(act[i], vs[i], ms[i]))
  }

  /** The loop of `LongRegister.set_value`, word by word with shifts and masks. */
  method SplitWords(val: int, n: nat, bitmask: Option<nat>, act: seq<U32>) returns (values: seq<U32>)
    requires bitmask.Some? ==> |act| >= n
    ensures values == LongWords(val, n, bitmask, act)
  {
    ghost var target := LongWords(val, n, bitmask, act);
    values := [];
    var i := 0;
    while i < n
      invariant i <= n && |values| == i
      invariant forall j :: 0 <= j < i ==> values[j] == target[j]
    {
      WordsAt(val, n, i);
      var word := (val / Radix(32, i)) % TWO32;
      if bitmask.Some? {
        WordsAt(bitmask.value, n, i);
        var localmask := (bitmask.value / Radix(32, i)) % TWO32;
        word := MaskedMerge(act[i], word, localmask);
      }
      values := values + [word];
      i := i + 1;
    }
  }

  /**
   * `LongRegister.set_value`: one transfer of the value's words; with a
   * bitmask the current words are read first.
   */
  method SetLong(hw: HardwareModule, address: int, bits: nat, bitmask: Option<nat>, val: int)
    returns (r: Result<()>)
    modifies hw
    ensures var n := WordCount(bits);
      var a := Absolute(hw.addrBase, address);
      var act := Loaded(old(hw.regs), a, Min(n, StemlabClient.MAX_READ_WORDS));
      && (r.Fail? <==> bitmask.Some? && n > StemlabClient.MAX_READ_WORDS)
      && (r.Fail? ==> r.error == IndexError && hw.regs == old(hw.regs))
      && (r.Ok? ==> hw.regs == Stored(old(hw.regs), a, StemlabClient.WriteValues(LongWords(val, n, bitmask, act))))
  {
    var n := WordCount(bits);
    var act: seq<U32> := [];
    if bitmask.Some? {
      act := hw.Reads(address, n);
      if n > StemlabClient.MAX_READ_WORDS {
        return Fail(IndexError);
      }
    }
    var values := SplitWords(val, n, bitmask, act);
    hw.Writes(address, values);
    r := Ok(());
  }

  /**
   * A long register without bitmask reads back every value in its range,
   * as long as its words fit into one transfer.
   */
  lemma LongSetThenGet(regs: Memory, a: nat, bits: nat, val: int)
    requires 0 <= val < Pow2(bits)
    requires WordCount(bits) <= StemlabClient.MAX_WRITE_WORDS
    ensures var n := WordCount(bits);
      Join(Loaded(Stored(regs, a, StemlabClient.WriteValues(LongWords(val, n, None, []))), a, n)) == val
  {
    var n := WordCount(bits);
    var ws := LongWords(val, n, None, []);
    assert StemlabClient.WriteValues(ws) == ws;
    ReadAfterWrite(regs, a, ws);
    LongWordsRoundTrip(val, bits);
  }

  // -------------------------------------------------------- SelectRegister

  /** The keys of an ordered option dictionary. */
  function Keys<K>(options: seq<(K, U32)>): (ks: seq<K>)
    ensures |ks| == |options|
    ensures forall i :: 0 <= i < |options| ==> ks[i] == options[i].0
  {
    seq(|options|, i requires 0 <= i < |options| => options[i].0)
  }

  /** `options[key]`: the register value of a key; None for the stand-in option None or a missing key. */
  function OptionValue<K(==)>(options: seq<(K, U32)>, key: Option<K>): (v: Option<U32>)
    ensures v.Some? <==> key.Some? && key.value in Keys(options)
    ensures v.Some? ==> exists i :: 0 <= i < |options| && options[i] == (key.value, v.value)
    decreases |options|
  {
    if key.None? || options == [] then None
    else if options[0].0 == key.value then Some(options[0].1)
    else
      var r := OptionValue(options[1..], key);
      assert r.Some? ==> (exists i :: 0 <= i < |options[1..]| && options[1..][i] == (key.value, r.value));
      assert Keys(options) == [options[0].0] + Keys(options[1..]);
      r
  }

  /** `keys()[values().index(raw)]`: the first key whose register value is `raw`. */
  function KeyOfValue<K>(options: seq<(K, U32)>, raw: U32): (k: Option<K>)
    ensures k.None? <==> forall i :: 0 <= i < |options| ==> options[i].1 != raw
    ensures k.Some? ==> exists i :: 0 <= i < |options| && options[i] == (k.value, raw)
    decreases |options|
  {
    if options == [] then None
    else if options[0].1 == raw then Some(options[0].0)
    else
      var r := KeyOfValue(options[1..], raw);
      assert forall i :: 1 <= i < |options| ==> options[i] == options[1..][i - 1];
      r
  }

  /** With distinct keys, a key found for a register value maps back to that value. */
  lemma KeyOfValueInverse<K>(options: seq<(K, U32)>, raw: U32)
    requires NoDuplicatesKeys(options)
    requires KeyOfValue(options, raw).Some?
    ensures OptionValue(options, KeyOfValue(options, raw)) == Some(raw)
  {
    var k := KeyOfValue(options, raw).value;
    var i :| 0 <= i < |options| && options[i] == (k, raw);
    var v := OptionValue(options, Some(k));
    assert Keys(options)[i] == k;
    var j :| 0 <= j < |options| && options[j] == (k, v.value);
  }

  /** A dictionary: no key twice. */
  predicate NoDuplicatesKeys<K(==)>(options: seq<(K, U32)>)
  {
    forall i, j :: 0 <= i < j < |options| ==> options[i].0 != options[j].0
  }

  /**
   * A SelectRegister: options map keys to register values. The module
   * remembers the selected key; the board holds the value.
   */
  class SelectRegister<K(==)> {
    const address: int
    const bitmask: Option<U32>
    const ignoreErrors: bool
    const default: Option<K>
    var options: seq<(K, U32)>
    /** The key stored on the module, once there is one. */
    var stored: Option<Option<K>>

    predicate Valid()
      reads this
    {
      NoDuplicatesKeys(options)
    }

    constructor (address: int, bitmask: Option<U32>, options: seq<(K, U32)>, ignoreErrors: bool, default: Option<K>)
      requires NoDuplicatesKeys(options)
      ensures Valid()
      ensures this.address == address && this.bitmask == bitmask && this.options == options
      ensures this.ignoreErrors == ignoreErrors && this.default == default && stored == None
    {
      this.address := address;
      this.bitmask := bitmask;
      this.options := options;
      this.ignoreErrors := ignoreErrors;
      this.default := default;
      stored := None;
    }

    /** `change_options`: new options take effect at once. */
    method ChangeOptions(newOptions: seq<(K, U32)>)
      requires NoDuplicatesKeys(newOptions)
      modifies this
      ensures Valid() && options == newOptions && stored == old(stored)
    {
      options := newOptions;
    }

    /**
     * `SelectRegister.get_default`: the stored default when it is an
     * option, else the first option. Only without options is that None;
     * the source then searches the options for the register's value, finds
     * none, and the result stays None, so that read is not modelled.
     */
    function Default(): (d: Option<K>)
      reads this
      ensures d in Options(Keys(options))
    {
      SelectDefault(Keys(options), default)
    }

    /** The key the module currently holds, storing the default on first use. */
    function Current(): Option<K>
      reads this
    {
      if stored.Some? then stored.value else Default()
    }

    /**
     * `SelectRegister.get_value`: the held key, validated; when the board
     * holds a different value, the board wins: the first key with the
     * board's value is selected (and written back), or ValueError when no
     * key has it.
     */
    method Get(hw: HardwareModule) returns (r: Result<Option<K>>)
      requires Valid()
      modifies this, hw
      ensures Valid() && options == old(options)
      ensures var v := SelectValidate(Keys(options), old(Current()), ignoreErrors, default);
        var raw := RegisterValue(old(hw.regs), hw.addrBase, address, bitmask);
        var key := KeyOfValue(options, raw);
        var a := Absolute(hw.addrBase, address);
        var w := RegisterWord(Load(old(hw.regs), a), raw, bitmask);
        var adopts := v.Ok? && OptionValue(options, v.value) != Some(raw) && key.Some?;
        && (v.Fail? ==> r == Fail(ValueError))
        && (v.Ok? && OptionValue(options, v.value) == Some(raw) ==> r == v)
        && (v.Ok? && OptionValue(options, v.value) != Some(raw) && key.None? ==> r == Fail(ValueError))
        && (!adopts ==> stored == Some(old(Current())) && hw.regs == old(hw.regs) && hw.writeLog == old(hw.writeLog))
        && (adopts ==>
              && r == Ok(Some(key.value)) && stored == Some(Some(key.value))
              && hw.regs == old(hw.regs)[a := w] && hw.writeLog == old(hw.writeLog) + [WriteOp(a, [w])])
      ensures r.Fail? ==> r.error == ValueError
      ensures r.Ok? ==> OptionValue(options, r.value) == Some(RegisterValue(hw.regs, hw.addrBase, address, bitmask))
    {
      if stored.None? {
        stored := Some(Default());
      }
      var v := SelectValidate(Keys(options), stored.value, ignoreErrors, default);
      if v.Fail? {
        return Fail(ValueError);
      }
      var expected := OptionValue(options, v.value);
      var raw := GetRegister(hw, address, bitmask);
      if expected == Some(raw) {
        return v;
      }
      r := Adopt(hw, raw);
    }

    /** The board differs from the held key: select the first key with the board's value. */
    method Adopt(hw: HardwareModule, raw: U32) returns (r: Result<Option<K>>)
      requires Valid()
      requires raw == RegisterValue(hw.regs, hw.addrBase, address, bitmask)
      modifies this, hw
      ensures Valid() && options == old(options)
      ensures r == (if KeyOfValue(options, raw).None? then Fail(ValueError) else Ok(Some(KeyOfValue(options, raw).value)))
      ensures r.Fail? ==> stored == old(stored) && hw.regs == old(hw.regs) && hw.writeLog == old(hw.writeLog)
      ensures r.Ok? ==>
        var a := Absolute(hw.addrBase, address);
        var w := RegisterWord(Load(old(hw.regs), a), raw, bitmask);
        && stored == Some(r.value)
        && hw.regs == old(hw.regs)[a := w] && hw.writeLog == old(hw.writeLog) + [WriteOp(a, [w])]
        && OptionValue(options, r.value) == Some(RegisterValue(hw.regs, hw.addrBase, address, bitmask))
    {
      var key := KeyOfValue(options, raw);
      if key.None? {
        return Fail(ValueError);
      }
      KeyOfValueInverse(options, raw);
      ghost var before := hw.regs;
      var s := Set(hw, Some(key.value));
      SetThenGet(before, hw.addrBase, address, bitmask, raw, address);
      if bitmask.Some? {
        var w := Load(before, Absolute(hw.addrBase, address));
        MaskedReadBack(w, w, bitmask.value);
      }
      r := Ok(Some(key.value));
    }

    /**
     * `SelectRegister.__set__`: validation (ValueError, or the default when
     * errors are ignored), then the key is stored on the module and its
     * value written to the board. The stand-in option None has no register
     * value, and writing it raises TypeError.
     */
    method Set(hw: HardwareModule, value: Option<K>) returns (r: Result<()>)
      requires Valid()
      modifies this, hw
      ensures Valid() && options == old(options)
      ensures var v := SelectValidate(Keys(options), value, ignoreErrors, default);
        && (v.Fail? ==> r == Fail(ValueError) && stored == old(stored) && hw.regs == old(hw.regs))
        && (v.Ok? ==> stored == Some(v.value))
        && (v.Ok? && OptionValue(options, v.value).None? ==> r == Fail(TypeError) && hw.regs == old(hw.regs))
        && (v.Ok? && OptionValue(options, v.value).Some? ==>
              var a := Absolute(hw.addrBase, address);
              var w := RegisterWord(Load(old(hw.regs), a), OptionValue(options, v.value).value, bitmask);
              r == Ok(()) && hw.regs == old(hw.regs)[a := w] && hw.writeLog == old(hw.writeLog) + [WriteOp(a, [w])])
      ensures r.Fail? ==> hw.writeLog == old(hw.writeLog)
    {
      var v := SelectValidate(Keys(options), value, ignoreErrors, default);
      if v.Fail? {
        return Fail(ValueError);
      }
      stored := Some(v.value);
      var ov := OptionValue(options, v.value);
      if ov.None? {
        return Fail(TypeError);
      }
      SetRegister(hw, address, bitmask, ov.value);
      r := Ok(());
    }
  }
}
