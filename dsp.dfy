/**
 * The DSP multiplexer: the numbers of the sixteen DSP signals, the base
 * address of each DSP module, the resolution of logical input signals to
 * DSP signals, the input shortcut by suffix and the output-direct options.
 */
module Dsp {
  import opened Common
  import Attributes
  import PyrplUtils

  // ------------------------------------------------------------ DSP inputs

  /** The keys of `DSP_INPUTS`, in declaration order. */
  const DSP_NAMES: seq<string> := [
    "in1", "in2", "out1", "out2", "iq0", "iq1", "iq2", "iq2_2",
    "pid0", "pid1", "pid2", "asg0", "asg1", "trig", "iir", "off"]

  /** `DSP_INPUTS[name]`: the DSP signal number of `name`, if it is a key. */
  function DspNumber(name: string): Option<nat>
  {
    if name == "in1" then Some(10) else if name == "in2" then Some(11)
    else if name == "out1" then Some(12) else if name == "out2" then Some(13)
    else if name == "iq0" then Some(5) else if name == "iq1" then Some(6)
    else if name == "iq2" then Some(7) else if name == "iq2_2" then Some(14)
    else if name == "pid0" then Some(0) else if name == "pid1" then Some(1)
    else if name == "pid2" then Some(2) else if name == "asg0" then Some(8)
    else if name == "asg1" then Some(9) else if name == "trig" then Some(3)
    else if name == "iir" then Some(4) else if name == "off" then Some(15)
    else None
  }

  /** The key with DSP number `n`. */
  function DspName(n: nat): string
    requires n < 16
  {
    if n == 0 then "pid0" else if n == 1 then "pid1" else if n == 2 then "pid2"
    else if n == 3 then "trig" else if n == 4 then "iir" else if n == 5 then "iq0"
    else if n == 6 then "iq1" else if n == 7 then "iq2" else if n == 8 then "asg0"
    else if n == 9 then "asg1" else if n == 10 then "in1" else if n == 11 then "in2"
    else if n == 12 then "out1" else if n == 13 then "out2" else if n == 14 then "iq2_2"
    else "off"
  }

  /**
   * The table numbers its keys one to one with 0 to 15: every number
   * below 16 belongs to exactly the key `DspName` gives.
   */
  lemma DspNumbering(name: string)
    ensures DspNumber(name).Some? ==> DspNumber(name).value < 16 && DspName(DspNumber(name).value) == name
  {
  }

  /** The keys in declaration order are exactly the names the table numbers. */
  lemma DspNamesAreKeys(name: string)
    ensures DspNumber(name).Some? <==> name in DSP_NAMES
  {
  }

  lemma DspNamesNumbered(n: nat)
    requires n < 16
    ensures DspNumber(DspName(n)) == Some(n)
  {
  }

  /** Two keys with the same number are the same key. */
  lemma DspNumberInjective(a: string, b: string)
    requires DspNumber(a).Some? && DspNumber(a) == DspNumber(b)
    ensures a == b
  {
    DspNumbering(a);
    DspNumbering(b);
  }

  const DSP_BASE: nat := 0x4030_0000
  const DSP_STRIDE: nat := 0x1_0000

  /**
   * `dsp_addr_base`: KeyError for a name outside the table, else
   * 0x40300000 plus 0x10000 per signal number, inside the DSP region.
   */
  function DspAddrBase(name: string): (r: Result<nat>)
    ensures r.Fail? <==> DspNumber(name).None?
    ensures r.Fail? ==> r.error == KeyError
    ensures r.Ok? ==> DSP_BASE <= r.value && r.value % DSP_STRIDE == 0
  {
    var n := DspNumber(name);
    if n.None? then Fail(KeyError)
    else
      DivModUnique(DSP_BASE + n.value * DSP_STRIDE, DSP_STRIDE, 0x4030 + n.value, 0);
      Ok(DSP_BASE + n.value * DSP_STRIDE)
  }

  /**
   * Every DSP module's 0x10000-byte register window lies in
   * [0x40300000, 0x40400000), and the windows of two different modules
   * do not overlap.
   */
  lemma DspWindowsDisjoint(a: string, b: string)
    requires DspAddrBase(a).Ok? && DspAddrBase(b).Ok?
    ensures DspAddrBase(a).value + DSP_STRIDE <= DSP_BASE + 16 * DSP_STRIDE
    ensures a != b ==>
      (DspAddrBase(a).value + DSP_STRIDE <= DspAddrBase(b).value
       || DspAddrBase(b).value + DSP_STRIDE <= DspAddrBase(a).value)
  {
    DspNumbering(a);
    DspNumbering(b);
  }

  // ------------------------------------------------------------ all_inputs

  /** A signal's setting: a DSP number, or the name of another signal. */
  datatype SigValue<K> = Number(n: nat) | Name(s: K)

  /** The name a signal pointing at itself is rewritten to. */
  const OFF: string := "off"

  /**
   * The signals `all_inputs` collects from the keys `all_inputs_keys`
   * returns: a DSP key gets its number; another key gets what its
   * `signal()` returns (`signalOf`), and is skipped when the lookup
   * raises AttributeError (a key absent from `signalOf`). `order` is the
   * dictionary's key order: first insertion.
   */
  function Collect(keys: seq<string>, signalOf: map<string, SigValue<string>>)
    : (r: (seq<string>, map<string, SigValue<string>>))
    ensures PyrplUtils.NoDuplicates(r.0)
    ensures forall k :: k in r.0 <==> k in r.1
    ensures forall k :: k in r.1 <==> k in keys && (DspNumber(k).Some? || k in signalOf)
    ensures forall k :: k in r.1 && DspNumber(k).Some? ==> r.1[k] == Number(DspNumber(k).value)
    ensures forall k :: k in r.1 && DspNumber(k).None? ==> r.1[k] == signalOf[k]
  {
    if keys == [] then ([], map[])
    else
      var k := keys[|keys| - 1];
      var prev := Collect(keys[..|keys| - 1], signalOf);
      var v := if DspNumber(k).Some? then Some(Number(DspNumber(k).value))
        else if k in signalOf then Some(signalOf[k]) else None;
      assert forall x :: x in keys <==> x in keys[..|keys| - 1] || x == k;
      if v.None? then prev
      else if k in prev.1 then (prev.0, prev.1[k := v.value])
      else
        (prev.0 + [k], prev.1[k := v.value])
  }

  /**
   * The loop body: resolves one signal's pointer in place. A pointer to a
   * signal is replaced by that signal's current value, a pointer to the
   * signal itself by the name `off`.
   */
  function Step<K(==)>(vals: map<K, SigValue<K>>, k: K, off: K): (r: map<K, SigValue<K>>)
    requires k in vals
    ensures r.Keys == vals.Keys
    ensures forall x :: x in vals && x != k ==> r[x] == vals[x]
  {
    var v := vals[k];
    if !(v.Name? && v.s in vals) then vals
    else if v.s == k then vals[k := Name(off)]
    else vals[k := vals[v.s]]
  }

  /** The inner loop of one round over the first `i` keys. */
  function Pass<K(==)>(order: seq<K>, vals: map<K, SigValue<K>>, i: nat, off: K): (r: map<K, SigValue<K>>)
    requires i <= |order| && forall k :: k in order ==> k in vals
    ensures r.Keys == vals.Keys
  {
    if i == 0 then vals
    else
      var prev := Pass(order, vals, i - 1, off);
      Step(prev, order[i - 1], off)
  }

  /** `r` rounds over all keys. */
  function Rounds<K(==)>(order: seq<K>, vals: map<K, SigValue<K>>, r: nat, off: K): (res: map<K, SigValue<K>>)
    requires forall k :: k in order ==> k in vals
    ensures res.Keys == vals.Keys
  {
    if r == 0 then vals else Pass(order, Rounds(order, vals, r - 1, off), |order|, off)
  }

  /** The four rounds of pointer resolution, rewriting the dictionary in place. */
  method ResolvePointers<K(==)>(order: seq<K>, vals: map<K, SigValue<K>>, off: K) returns (res: map<K, SigValue<K>>)
    requires forall k :: k in order ==> k in vals
    ensures res == Rounds(order, vals, 4, off)
  {
    res := vals;
    var round := 0;
    while round < 4
      invariant 0 <= round <= 4
      invariant res == Rounds(order, vals, round, off)
    {
      res := ResolveRound(order, res, off);
      round := round + 1;
    }
  }

  /** One round: every key in order, each seeing the values the earlier steps wrote. */
  method ResolveRound<K(==)>(order: seq<K>, vals: map<K, SigValue<K>>, off: K) returns (res: map<K, SigValue<K>>)
    requires forall k :: k in order ==> k in vals
    ensures res == Pass(order, vals, |order|, off)
  {
    res := vals;
    var i := 0;
    while i < |order|
      invariant 0 <= i <= |order|
      invariant res == Pass(order, vals, i, off)
    {
      res := Step(res, order[i], off);
      i := i + 1;
    }
  }

  /** `all_inputs`: the collected signals with their pointers resolved. */
  method AllInputs(keys: seq<string>, signalOf: map<string, SigValue<string>>)
    returns (order: seq<string>, vals: map<string, SigValue<string>>)
    ensures var c := Collect(keys, signalOf);
      order == c.0 && vals == Rounds(c.0, c.1, 4, OFF)
  {
    var c := Collect(keys, signalOf);
    order := c.0;
    vals := ResolvePointers(order, c.1, OFF);
  }

  /** A value that is a number, or names no signal, is never rewritten. */
  predicate Terminal<K(==)>(vals: map<K, SigValue<K>>, v: SigValue)
  {
    !(v.Name? && v.s in vals)
  }

  lemma {:induction false} PassKeepsTerminal<K(!new)>(order: seq<K>, vals: map<K, SigValue<K>>, i: nat, k: K, off: K)
    requires i <= |order| && forall x :: x in order ==> x in vals
    requires k in vals && Terminal(vals, vals[k])
    ensures Pass(order, vals, i, off)[k] == vals[k]
  {
    if i > 0 {
      PassKeepsTerminal(order, vals, i - 1, k, off);
    }
  }

  /** A value that is terminal after `a` rounds stays through any later round. */
  lemma {:induction false} TerminalFrom<K(!new)>(order: seq<K>, vals: map<K, SigValue<K>>, a: nat, b: nat, k: K, off: K)
    requires forall x :: x in order ==> x in vals
    requires a <= b && k in vals
    requires Terminal(vals, Rounds(order, vals, a, off)[k])
    ensures Rounds(order, vals, b, off)[k] == Rounds(order, vals, a, off)[k]
    decreases b
  {
    if b > a {
      TerminalFrom(order, vals, a, b - 1, k, off);
      var prev := Rounds(order, vals, b - 1, off);
      PassKeepsTerminal(order, prev, |order|, k, off);
    }
  }

  /**
   * Over one pass, the key at position `j` changes at its own step only:
   * it enters the step with its value before the pass and leaves the
   * pass with what the step wrote.
   */
  lemma KeyAfterPass<K(!new)>(order: seq<K>, vals: map<K, SigValue<K>>, j: nat, off: K)
    requires forall x :: x in order ==> x in vals
    requires PyrplUtils.NoDuplicates(order) && j < |order|
    ensures var k := order[j];
      && Pass(order, vals, j, off)[k] == vals[k]
      && Pass(order, vals, |order|, off)[k] == Step(Pass(order, vals, j, off), k, off)[k]
  {
    PassBefore(order, vals, j, order[j], off);
    PassAfter(order, vals, |order|, j, off);
  }

  /** The keys after position `i` are not touched by the steps up to `i`. */
  lemma {:induction false} PassBefore<K(!new)>(order: seq<K>, vals: map<K, SigValue<K>>, i: nat, k: K, off: K)
    requires i <= |order| && forall x :: x in order ==> x in vals
    requires k in vals && forall x :: 0 <= x < i ==> order[x] != k
    ensures Pass(order, vals, i, off)[k] == vals[k]
  {
    if i > 0 {
      PassBefore(order, vals, i - 1, k, off);
    }
  }

  /** Steps after the one for `order[j]` leave it alone when the keys are distinct. */
  lemma {:induction false} PassAfter<K(!new)>(order: seq<K>, vals: map<K, SigValue<K>>, i: nat, j: nat, off: K)
    requires j < i <= |order| && forall x :: x in order ==> x in vals
    requires forall x :: j < x < |order| ==> order[x] != order[j]
    ensures Pass(order, vals, i, off)[order[j]] == Step(Pass(order, vals, j, off), order[j], off)[order[j]]
  {
    if i > j + 1 {
      PassAfter(order, vals, i - 1, j, off);
      assert order[i - 1] != order[j];
    }
  }

  /**
   * A signal pointing at its own key becomes 'off', and so resolves to
   * DSP signal 15 when 'off' is a signal holding that number.
   */
  lemma SelfPointerOff<K(!new)>(order: seq<K>, vals: map<K, SigValue<K>>, j: nat, off: K)
    requires forall x :: x in order ==> x in vals
    requires PyrplUtils.NoDuplicates(order) && j < |order|
    requires vals[order[j]] == Name(order[j]) && order[j] != off
    requires off in vals && vals[off] == Number(15)
    ensures Rounds(order, vals, 4, off)[order[j]] == Number(15)
  {
    var k := order[j];
    KeyAfterPass(order, vals, j, off);
    var p := Pass(order, vals, j, off);
    assert k in p && p[k] == Name(k);
    assert Step(p, k, off)[k] == Name(off);
    assert Rounds(order, vals, 0, off) == vals;
    var r1 := Rounds(order, vals, 1, off);
    assert r1 == Pass(order, vals, |order|, off);
    TerminalFrom(order, vals, 0, 1, off, off);
    KeyAfterPass(order, r1, j, off);
    PassKeepsTerminal(order, r1, j, off, off);
    assert Rounds(order, vals, 2, off)[k] == Number(15);
    TerminalFrom(order, vals, 2, 4, k, off);
  }

  /** A signal pointing at another signal that holds a DSP number resolves to that number. */
  lemma OneHop<K(!new)>(order: seq<K>, vals: map<K, SigValue<K>>, j: nat, n: nat, off: K)
    requires forall x :: x in order ==> x in vals
    requires PyrplUtils.NoDuplicates(order) && j < |order|
    requires vals[order[j]].Name? && vals[order[j]].s in vals && vals[order[j]].s != order[j]
    requires vals[vals[order[j]].s] == Number(n)
    ensures Rounds(order, vals, 4, off)[order[j]] == Number(n)
  {
    var k, t := order[j], vals[order[j]].s;
    KeyAfterPass(order, vals, j, off);
    PassKeepsTerminal(order, vals, j, t, off);
    assert Rounds(order, vals, 1, off)[k] == Number(n);
    TerminalFrom(order, vals, 1, 4, k, off);
  }

  // ------------------------------------------------------ input shortcut

  /** `o.endswith(v)`: the last `|v|` characters of `o` are those of `v`. */
  predicate EndsWith(o: string, v: string): (b: bool)
    ensures b <==> |v| <= |o| && forall i :: 0 <= i < |v| ==> o[|o| - |v| + i] == v[i]
  {
    |v| <= |o| && o[|o| - |v|..] == v
  }

  /** The first option ending with `value`, if any. */
  function FirstEndingWith(options: seq<string>, value: string): (i: Option<nat>)
    ensures i.Some? ==> i.value < |options| && EndsWith(options[i.value], value)
    ensures i.Some? ==> forall j :: 0 <= j < i.value ==> !EndsWith(options[j], value)
    ensures i.None? ==> forall j :: 0 <= j < |options| ==> !EndsWith(options[j], value)
  {
    if options == [] then None
    else if EndsWith(options[0], value) then Some(0)
    else
      var r := FirstEndingWith(options[1..], value);
      if r.None? then None else Some(r.value + 1)
  }

  /**
   * The value `InputSelectProperty.validate_and_normalize` hands on to
   * select validation: an option as it is; otherwise the first option
   * that ends with it; otherwise the value unchanged.
   */
  function Shortcut(options: seq<string>, value: string): (v: string)
    ensures value in options ==> v == value
    ensures v == value || (value !in options && v in options && EndsWith(v, value))
  {
    if value in options then value
    else
      var i := FirstEndingWith(options, value);
      if i.Some? then options[i.value] else value
  }

  /**
   * The input register's validation: the shortcut, then select validation.
   * With no options the options mapping is `{None: None}`, and the shortcut
   * search calls `endswith` on None, which raises AttributeError.
   */
  function ValidateInput(options: seq<string>, value: string, ignoreErrors: bool, default: Option<string>)
    : (r: Result<Option<string>>)
    ensures options == [] ==> r == Fail(AttributeError)
    ensures options != [] ==> (r.Fail? <==> !ignoreErrors && Shortcut(options, value) !in options)
    ensures value in options ==> r == Ok(Some(value))
    ensures r.Ok? && r.value.Some? && value !in options && r.value.value != value ==>
      r.value.value in options && (EndsWith(r.value.value, value) || ignoreErrors)
  {
    if options == [] then Fail(AttributeError)
    else Attributes.SelectValidate(options, Some(Shortcut(options, value)), ignoreErrors, default)
  }

  /**
   * A value that is no option but the suffix of one selects the first
   * option with that suffix; with no such option it is an error unless
   * errors are ignored.
   */
  lemma ShortcutFirst(options: seq<string>, value: string, i: nat)
    requires value !in options && i < |options| && EndsWith(options[i], value)
    requires forall j :: 0 <= j < i ==> !EndsWith(options[j], value)
    ensures ValidateInput(options, value, false, None) == Ok(Some(options[i]))
  {
    var f := FirstEndingWith(options, value);
    assert f == Some(i);
  }

  lemma NoShortcut(options: seq<string>, value: string)
    requires value !in options && forall j :: 0 <= j < |options| ==> !EndsWith(options[j], value)
    ensures ValidateInput(options, value, false, None) == Fail(if options == [] then AttributeError else ValueError)
  {
  }

  // -------------------------------------------------- all_output_directs

  const OUTPUT_DIRECTS: seq<PyrplUtils.Entry> := [PyrplUtils.Entry("off", 0),
    PyrplUtils.Entry("out1", 1), PyrplUtils.Entry("out2", 2), PyrplUtils.Entry("both", 3)]

  /** `all_output_directs`: the four output options ordered by value. */
  function OutputDirects(): (r: seq<PyrplUtils.Entry>)
    ensures PyrplUtils.SortedBy(r, true)
  {
    PyrplUtils.SortedDictSorted(OUTPUT_DIRECTS, true);
    PyrplUtils.SortedDict(OUTPUT_DIRECTS, true)
  }

  /** The options are declared in value order, which sorting keeps. */
  lemma OutputDirectsOrder()
    ensures OutputDirects() == OUTPUT_DIRECTS
  {
    PyrplUtils.SortedDictOfSorted(OUTPUT_DIRECTS, true);
  }
}
