/**
 * The module lifecycle: the `_setup_ongoing` guard kept by `DoSetup` and
 * by the generated `setup`, `value_updated`'s call of setup, the owner
 * state machine behind `free` and the context manager, the class-level
 * list of setup attributes the metaclass composes, and the nested record of
 * setup attribute values.
 */
module Modules {
  import opened Common
  import PyrplUtils

  // --------------------------------------------------------------- setup keys

  /**
   * The keys the generated `setup` assigns, in assignment order: each key
   * of `order` that is still among the keyword arguments `avail`, which
   * `setup` pops as it goes.
   */
  function SetupKeys(order: seq<string>, avail: set<string>): (ks: seq<string>)
    ensures forall k :: k in ks ==> k in order && k in avail
    ensures forall k :: k in order && k in avail ==> k in ks
    ensures forall i, j :: 0 <= i < j < |ks| ==> ks[i] != ks[j]
  {
    if order == [] then []
    else if order[0] in avail then [order[0]] + SetupKeys(order[1..], avail - {order[0]})
    else SetupKeys(order[1..], avail)
  }

  /** The keyword arguments left over after `setup` has popped the keys of `order`. */
  function Unused(order: seq<string>, avail: set<string>): (rest: set<string>)
    ensures forall k :: k in rest <==> k in avail && k !in order
  {
    if order == [] then avail else Unused(order[1..], avail - {order[0]})
  }

  /** One step of `setup`'s walk over its keys. */
  lemma SetupKeysStep(order: seq<string>, i: nat, avail: set<string>)
    requires i < |order|
    ensures SetupKeys(order[i..], avail) ==
      if order[i] in avail then [order[i]] + SetupKeys(order[i + 1..], avail - {order[i]})
      else SetupKeys(order[i + 1..], avail)
    ensures Unused(order[i..], avail) == Unused(order[i + 1..], avail - {order[i]})
  {
    assert order[i..][1..] == order[i + 1..];
  }

  /**
   * What `setup`'s assignments come to: walking `order`, each key still
   * among the keyword arguments is popped and assigned; the first whose
   * assignment raises ends the walk with its error. Where no key raises
   * it succeeds.
   */
  function Walk<V>(order: seq<string>, kwds: map<string, V>, failing: map<string, PyError>): (r: Result<seq<(string, V)>>)
    ensures failing == map[] ==> r.Ok?
  {
    if order == [] then Ok([])
    else
      var key := order[0];
      if key in kwds then
        if key in failing then Fail(failing[key])
        else After([(key, kwds[key])], Walk(order[1..], kwds - {key}, failing))
      else Walk(order[1..], kwds, failing)
  }

  /**
   * The walk succeeds iff no assigned key raises; it then assigns exactly
   * the keys `SetupKeys` names, with their values, and otherwise fails
   * with the error of the first key that raises.
   */
  lemma WalkSpec<V>(order: seq<string>, kwds: map<string, V>, failing: map<string, PyError>)
    ensures var ks := SetupKeys(order, kwds.Keys);
      var r := Walk(order, kwds, failing);
      && (r.Ok? <==> forall k :: k in ks ==> k !in failing)
      && (r.Ok? ==> |r.value| == |ks| && forall j :: 0 <= j < |ks| ==> r.value[j] == (ks[j], kwds[ks[j]]))
      && (r.Fail? ==> exists i :: FirstFailing(ks, failing, i) && r.error == failing[ks[i]])
  {
    var ks := SetupKeys(order, kwds.Keys);
    WalkSucceeds(order, kwds, failing);
    WalkFails(order, kwds, failing);
    if Walk(order, kwds, failing).Fail? {
      var i :| FirstFailing(ks, failing, i);
      assert ks[i] in ks;
    }
  }

  /** A walk that succeeds assigns the keys `SetupKeys` names, none of which raises. */
  lemma {:induction false} WalkSucceeds<V>(order: seq<string>, kwds: map<string, V>, failing: map<string, PyError>)
    ensures var ks := SetupKeys(order, kwds.Keys);
      var r := Walk(order, kwds, failing);
      r.Ok? ==> && (forall k :: k in ks ==> k !in failing)
                && |r.value| == |ks| && forall j :: 0 <= j < |ks| ==> r.value[j] == (ks[j], kwds[ks[j]])
  {
    if order != [] {
      var key := order[0];
      var ks := SetupKeys(order, kwds.Keys);
      if key in kwds {
        assert ks == [key] + SetupKeys(order[1..], kwds.Keys - {key});
        if key !in failing {
          WalkSucceeds(order[1..], kwds - {key}, failing);
          assert (kwds - {key}).Keys == kwds.Keys - {key};
          var rest := Walk(order[1..], kwds - {key}, failing);
          if rest.Ok? {
            var r := Walk(order, kwds, failing);
            assert r.value == [(key, kwds[key])] + rest.value;
            forall j | 0 <= j < |ks| ensures r.value[j] == (ks[j], kwds[ks[j]]) {
              if j > 0 {
                assert r.value[j] == rest.value[j - 1];
              }
            }
          }
        }
      } else {
        WalkSucceeds(order[1..], kwds, failing);
      }
    }
  }

  /** A walk that fails raises the error of the first key of `SetupKeys` that raises. */
  lemma {:induction false} WalkFails<V>(order: seq<string>, kwds: map<string, V>, failing: map<string, PyError>)
    ensures Walk(order, kwds, failing).Fail? ==>
      exists i :: FirstFailing(SetupKeys(order, kwds.Keys), failing, i) && Walk(order, kwds, failing).error == failing[SetupKeys(order, kwds.Keys)[i]]
  {
    if order != [] {
      var key := order[0];
      var ks := SetupKeys(order, kwds.Keys);
      if key in kwds {
        assert ks == [key] + SetupKeys(order[1..], kwds.Keys - {key});
        if key in failing {
          assert Walk(order, kwds, failing) == Fail(failing[key]);
          assert ks[0] == key && FirstFailing(ks, failing, 0);
        } else {
          WalkFails(order[1..], kwds - {key}, failing);
          assert (kwds - {key}).Keys == kwds.Keys - {key};
          var rest := Walk(order[1..], kwds - {key}, failing);
          var ks' := SetupKeys(order[1..], kwds.Keys - {key});
          if rest.Fail? {
            var i :| FirstFailing(ks', failing, i) && rest.error == failing[ks'[i]];
            assert FirstFailing(ks, failing, i + 1);
          }
        }
      } else {
        WalkFails(order[1..], kwds, failing);
      }
    }
  }

  /** `ks[i]` is the first of `ks` whose assignment raises. */
  predicate FirstFailing(ks: seq<string>, failing: map<string, PyError>, i: int)
  {
    0 <= i < |ks| && ks[i] in failing && forall j :: 0 <= j < i ==> ks[j] !in failing
  }

  /** The walk after some assignments `out` have already been made. */
  function After<V>(out: seq<(string, V)>, r: Result<seq<(string, V)>>): Result<seq<(string, V)>>
  {
    if r.Fail? then r else Ok(out + r.value)
  }

  /** One key of the walk: assigned and popped when still present, skipped otherwise. */
  lemma WalkStep<V>(order: seq<string>, i: nat, kwds: map<string, V>, failing: map<string, PyError>)
    requires i < |order|
    ensures var key := order[i];
      Walk(order[i..], kwds, failing) ==
        if key !in kwds then Walk(order[i + 1..], kwds, failing)
        else if key in failing then Fail(failing[key])
        else After([(key, kwds[key])], Walk(order[i + 1..], kwds - {key}, failing))
  {
    assert order[i..][1..] == order[i + 1..];
  }

  /** `setup`'s loop over the setup attributes, popping and assigning keyword arguments. */
  method AssignKeys<V>(order: seq<string>, kwds: map<string, V>, failing: map<string, PyError>)
    returns (r: Result<seq<(string, V)>>, leftover: set<string>)
    ensures r == Walk(order, kwds, failing)
    ensures r.Ok? ==> leftover == Unused(order, kwds.Keys)
  {
    var remaining := kwds;
    var out: seq<(string, V)> := [];
    var i := 0;
    assert order[0..] == order;
    assert Walk(order, kwds, failing).Ok? ==> [] + Walk(order, kwds, failing).value == Walk(order, kwds, failing).value;
    while i < |order|
      invariant 0 <= i <= |order|
      invariant Walk(order, kwds, failing) == After(out, Walk(order[i..], remaining, failing))
      invariant Unused(order, kwds.Keys) == Unused(order[i..], remaining.Keys)
    {
      var key := order[i];
      WalkStep(order, i, remaining, failing);
      assert order[i..][1..] == order[i + 1..];
      assert (remaining - {key}).Keys == remaining.Keys - {key};
      if key in remaining {
        if key in failing {
          return Fail(failing[key]), {};
        }
        ghost var rest := Walk(order[i + 1..], remaining - {key}, failing);
        assert rest.Ok? ==> (out + [(key, remaining[key])]) + rest.value == out + ([(key, remaining[key])] + rest.value);
        out := out + [(key, remaining[key])];
        remaining := remaining - {key};
      }
      i := i + 1;
    }
    assert out + [] == out;
    leftover := remaining.Keys;
    r := Ok(out);
  }

  /** Events of a module that the model records in order. */
  datatype Event =
    | OwnershipChanged(previous: Option<string>, next: Option<string>)
    | LoadSetupAttributes
    | ChangeOwnershipSignal
    | SetupException

  /**
   * A module instance: its class's setup attributes, the `_setup_ongoing`
   * flag, the number of times `_setup` has run, its owner and autosave
   * flag, and the events it has caused.
   */
  class Module {
    const setupAttributes: seq<string>
    var setupOngoing: bool
    var setupCalls: nat
    var owner: Option<string>
    var autosaveActive: bool
    var events: seq<Event>

    constructor (setupAttributes: seq<string>)
      ensures this.setupAttributes == setupAttributes
      ensures !setupOngoing && setupCalls == 0 && owner == None && events == []
    {
      this.setupAttributes := setupAttributes;
      setupOngoing := false;
      setupCalls := 0;
      owner := None;
      autosaveActive := true;
      events := [];
    }

    /** `DoSetup.__enter__`: setup is in progress from now on. */
    method DoSetupEnter()
      modifies this
      ensures setupOngoing
      ensures setupCalls == old(setupCalls) && owner == old(owner)
      ensures autosaveActive == old(autosaveActive) && events == old(events)
    {
      setupOngoing := true;
    }

    /**
     * `DoSetup.__exit__`: setup is over, however deeply the context
     * managers were nested; an exception is logged and not suppressed.
     */
    method DoSetupExit(raised: bool)
      modifies this
      ensures !setupOngoing
      ensures setupCalls == old(setupCalls) && owner == old(owner) && autosaveActive == old(autosaveActive)
      ensures events == old(events) + (if raised then [SetupException] else [])
    {
      setupOngoing := false;
      if raised {
        events := events + [SetupException];
      }
    }

    /**
     * The generated `setup(**kwds)`: assigns the keyword arguments that are
     * setup attributes, in the order of the setup attributes, then runs
     * `_setup`. Assigning a key in `failing` raises that key's error, and
     * then `_setup` does not run; `_setup` itself raises `setupError` when
     * one is given, after every key has been assigned. Whatever happens,
     * setup is no longer in progress afterwards. Once the keys are assigned
     * it also yields the keys it warns about, those that are not setup
     * attributes.
     */
    method Setup<V>(kwds: map<string, V>, failing: map<string, PyError>, setupError: Option<PyError>)
      returns (r: Result<seq<(string, V)>>, leftover: set<string>)
      modifies this
      ensures !setupOngoing
      ensures owner == old(owner) && autosaveActive == old(autosaveActive) && events == old(events)
      ensures var w := Walk(setupAttributes, kwds, failing);
        && (w.Fail? ==> r == w && setupCalls == old(setupCalls))
        && (w.Ok? ==>
              && leftover == Unused(setupAttributes, kwds.Keys)
              && setupCalls == old(setupCalls) + 1
              && r == (if setupError.Some? then Fail(setupError.value) else w))
    {
      setupOngoing := true;
      r, leftover := AssignKeys(setupAttributes, kwds, failing);
      if r.Ok? {
        setupCalls := setupCalls + 1;
        if setupError.Some? {
          r := Fail(setupError.value);
        }
      }
      setupOngoing := false;
    }

    /**
     * `BaseProperty.value_updated`: a property with `call_setup` runs
     * the whole setup, with no keywords, unless setup is already in
     * progress. `_setup` is taken to succeed here.
     */
    method ValueUpdated(callSetup: bool)
      modifies this
      ensures setupOngoing == old(setupOngoing)
      ensures setupCalls == old(setupCalls) + (if callSetup && !old(setupOngoing) then 1 else 0)
      ensures owner == old(owner) && autosaveActive == old(autosaveActive) && events == old(events)
    {
      if callSetup && !setupOngoing {
        WalkSpec<int>(setupAttributes, map[], map[]);
        var _, _ := Setup<int>(map[], map[], None);
      }
    }

    /**
     * The `owner` setter: stores the owner, keeps autosave only for a free
     * module, reports the change, reloads the saved setup attributes when
     * the module becomes free and always signals the change.
     */
    method SetOwner(val: Option<string>)
      modifies this
      ensures owner == val && autosaveActive == val.None?
      ensures events == old(events) + [OwnershipChanged(old(owner), val)]
        + (if val.None? then [LoadSetupAttributes] else []) + [ChangeOwnershipSignal]
      ensures setupOngoing == old(setupOngoing) && setupCalls == old(setupCalls)
    {
      var previous := owner;
      owner := val;
      autosaveActive := val.None?;
      events := events + [OwnershipChanged(previous, val)];
      if val.None? {
        events := events + [LoadSetupAttributes];
      }
      events := events + [ChangeOwnershipSignal];
    }

    /** `free`: the module has no owner afterwards. */
    method Free()
      modifies this
      ensures owner == None && autosaveActive
      ensures events == old(events) + [OwnershipChanged(old(owner), None), LoadSetupAttributes, ChangeOwnershipSignal]
      ensures setupOngoing == old(setupOngoing) && setupCalls == old(setupCalls)
    {
      SetOwner(None);
    }

    /** `__exit__` of the module as a context manager frees it. */
    method ContextExit()
      modifies this
      ensures owner == None && autosaveActive
      ensures events == old(events) + [OwnershipChanged(old(owner), None), LoadSetupAttributes, ChangeOwnershipSignal]
      ensures setupOngoing == old(setupOngoing) && setupCalls == old(setupCalls)
    {
      Free();
    }
  }

  /** A key of `setup` is assigned exactly when it is a setup attribute; the rest are warned about. */
  lemma SetupKeysPartition(order: seq<string>, kwds: set<string>, k: string)
    requires k in kwds
    ensures k in SetupKeys(order, kwds) <==> k !in Unused(order, kwds)
  {
  }

  // ------------------------------------------------- class lists (metaclass)

  /** The two lists the metaclass keeps per class. */
  datatype ClassLists = ClassLists(setupAttributes: seq<string>, moduleAttributes: seq<string>)

  /** The bases' setup attribute lists, concatenated in reversed base order. */
  function BaseSetup(bases: seq<ClassLists>): seq<string>
  {
    if bases == [] then [] else BaseSetup(bases[1..]) + bases[0].setupAttributes
  }

  /** The bases' submodule lists, concatenated in reversed base order. */
  function BaseModules(bases: seq<ClassLists>): seq<string>
  {
    if bases == [] then [] else BaseModules(bases[1..]) + bases[0].moduleAttributes
  }

  /** A name is among the concatenated lists iff some base lists it. */
  lemma {:induction false} BaseListsMembers(bases: seq<ClassLists>, x: string)
    ensures x in BaseSetup(bases) <==> exists b :: b in bases && x in b.setupAttributes
    ensures x in BaseModules(bases) <==> exists b :: b in bases && x in b.moduleAttributes
  {
    if bases != [] {
      BaseListsMembers(bases[1..], x);
      assert bases == [bases[0]] + bases[1..];
      if x in bases[0].setupAttributes {
        assert bases[0] in bases;
      }
      if x in bases[0].moduleAttributes {
        assert bases[0] in bases;
      }
    }
  }

  /**
   * `ModuleMetaClass.__init__`, steps 1a to 1d: the bases' lists in
   * reversed order, then the class's own setup attributes, then its
   * submodules, each list deduplicated by `unique_list`.
   */
  method ComposeClassLists(bases: seq<ClassLists>, own: seq<string>, submodules: seq<string>)
    returns (r: ClassLists)
    ensures r.moduleAttributes == PyrplUtils.Dedup(BaseModules(bases) + submodules)
    ensures r.setupAttributes == PyrplUtils.Dedup(BaseSetup(bases) + own + r.moduleAttributes)
  {
    var setup: seq<string> := [];
    var modules: seq<string> := [];
    var i := |bases|;
    while i > 0
      invariant 0 <= i <= |bases|
      invariant setup == BaseSetup(bases[i..]) && modules == BaseModules(bases[i..])
    {
      i := i - 1;
      assert bases[i..][1..] == bases[i + 1..];
      setup := setup + bases[i].setupAttributes;
      modules := modules + bases[i].moduleAttributes;
    }
    assert bases[0..] == bases;
    setup := setup + own;
    modules := modules + submodules;
    var uniqueModules := PyrplUtils.UniqueList(modules);
    var j := 0;
    while j < |uniqueModules|
      invariant 0 <= j <= |uniqueModules|
      invariant setup == BaseSetup(bases) + own + uniqueModules[..j]
    {
      assert uniqueModules[..j + 1] == uniqueModules[..j] + [uniqueModules[j]];
      setup := setup + [uniqueModules[j]];
      j := j + 1;
    }
    assert uniqueModules[..j] == uniqueModules;
    var uniqueSetup := PyrplUtils.UniqueList(setup);
    r := ClassLists(uniqueSetup, uniqueModules);
  }

  /**
   * The composed setup attributes list every setup attribute of every
   * base, every own setup attribute and every submodule of the class or of
   * a base, each once, and nothing else.
   */
  lemma ComposedSetupAttributes(bases: seq<ClassLists>, own: seq<string>, submodules: seq<string>, x: string)
    ensures var mods := PyrplUtils.Dedup(BaseModules(bases) + submodules);
      var attrs := PyrplUtils.Dedup(BaseSetup(bases) + own + mods);
      && PyrplUtils.NoDuplicates(attrs) && PyrplUtils.NoDuplicates(mods)
      && (x in attrs <==> || (exists b :: b in bases && (x in b.setupAttributes || x in b.moduleAttributes))
                          || x in own || x in submodules)
  {
    var mods := PyrplUtils.Dedup(BaseModules(bases) + submodules);
    PyrplUtils.DedupSpec(BaseModules(bases) + submodules);
    PyrplUtils.DedupSpec(BaseSetup(bases) + own + mods);
    BaseListsMembers(bases, x);
  }

  // ------------------------------------------------------ setup_attributes

  /** A module's state: its setup attributes, their values and its submodules. */
  datatype ModuleState<V> = ModuleState(setupAttributes: seq<string>, values: map<string, V>, submodules: seq<Submodule<V>>)
  datatype Submodule<V> = Submodule(name: string, state: ModuleState<V>)

  /** A value of the `setup_attributes` record: a value, or a submodule's own record. */
  datatype SetupValue<V> = Leaf(value: V) | Nested(entries: seq<(string, SetupValue<V>)>)

  /** The position of the submodule called `name`, if there is one. */
  function SubIndex<V>(subs: seq<Submodule<V>>, name: string): (j: Option<nat>)
    ensures j.Some? ==> j.value < |subs| && subs[j.value].name == name
    ensures j.None? ==> forall s :: s in subs ==> s.name != name
  {
    if subs == [] then None
    else if subs[0].name == name then Some(0)
    else match SubIndex(subs[1..], name)
      case None => None
      case Some(j) => Some(j + 1)
  }

  /** Every plain setup attribute has a value, at every level. */
  predicate Complete<V>(m: ModuleState<V>)
    decreases m, 2
  {
    CompleteFrom(m, 0)
  }

  /** The attributes from position `i` on have values, at every level. */
  predicate CompleteFrom<V>(m: ModuleState<V>, i: nat)
    requires i <= |m.setupAttributes|
    decreases m, 1, |m.setupAttributes| - i
  {
    i == |m.setupAttributes| || (CompleteAt(m, i) && CompleteFrom(m, i + 1))
  }

  predicate CompleteAt<V>(m: ModuleState<V>, i: nat)
    requires i < |m.setupAttributes|
    decreases m, 0
  {
    match SubIndex(m.submodules, m.setupAttributes[i])
    case Some(j) => Complete(m.submodules[j].state)
    case None => m.setupAttributes[i] in m.values
  }

  /**
   * The `setup_attributes` property: one entry per setup attribute, in
   * order, a submodule contributing its own record; an attribute without a
   * value raises AttributeError.
   */
  function SetupAttributesOf<V>(m: ModuleState<V>): (r: Result<seq<(string, SetupValue<V>)>>)
    decreases m, 2
    ensures r.Ok? <==> Complete(m)
    ensures r.Ok? ==> (|r.value| == |m.setupAttributes|
      && forall i :: 0 <= i < |r.value| ==> r.value[i].0 == m.setupAttributes[i])
    ensures r.Ok? ==> forall i :: 0 <= i < |r.value| ==> EntryHolds(m, m.setupAttributes[i], r.value[i].1)
  {
    EntriesFrom(m, 0)
  }

  /**
   * What the record holds for attribute `a`: a submodule's own (complete)
   * record, or else the attribute's value.
   */
  ghost predicate EntryHolds<V>(m: ModuleState<V>, a: string, e: SetupValue<V>)
    decreases m, 0
  {
    match SubIndex(m.submodules, a)
    case Some(j) => SetupAttributesOf(m.submodules[j].state).Ok? && e == Nested(SetupAttributesOf(m.submodules[j].state).value)
    case None => a in m.values && e == Leaf(m.values[a])
  }

  function EntriesFrom<V>(m: ModuleState<V>, i: nat): (r: Result<seq<(string, SetupValue<V>)>>)
    requires i <= |m.setupAttributes|
    decreases m, 1, |m.setupAttributes| - i
    ensures r.Ok? <==> CompleteFrom(m, i)
    ensures r.Ok? ==> (|r.value| == |m.setupAttributes| - i
      && forall k :: 0 <= k < |r.value| ==> r.value[k].0 == m.setupAttributes[i + k])
    ensures r.Ok? ==> forall k :: 0 <= k < |r.value| ==> EntryHolds(m, m.setupAttributes[i + k], r.value[k].1)
  {
    if i == |m.setupAttributes| then Ok([])
    else
      var a := m.setupAttributes[i];
      var j := SubIndex(m.submodules, a);
      var head: Result<SetupValue<V>> :=
        if j.Some? then
          var sub := SetupAttributesOf(m.submodules[j.value].state);
          if sub.Fail? then Fail(sub.error) else Ok(Nested(sub.value))
        else if a in m.values then Ok(Leaf(m.values[a]))
        else Fail(AttributeError);
      assert head.Ok? <==> CompleteAt(m, i);
      if head.Fail? then Fail(head.error)
      else
        var rest := EntriesFrom(m, i + 1);
        if rest.Fail? then
          Fail(rest.error)
        else Ok([(a, head.value)] + rest.value)
  }
}
