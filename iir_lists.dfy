/**
 * The pole and zero lists of the IIR module: the two master properties
 * `poles` and `zeros` are kept as four slave lists (the real and the
 * complex part of each), every element normalised for stability, and at
 * most one element of the four lists is selected at a time.
 */
module IirLists {
  import opened Common
  import opened AttributeLists
  import Modules

  /** A complex number; a real value is a complex one with imaginary part 0. */
  datatype Complex = Complex(re: real, im: real)

  /** The two master properties. */
  datatype Kind = Poles | Zeros

  /** The four slave lists, in the order the selection handler visits them. */
  datatype ListName = RealPoles | RealZeros | ComplexPoles | ComplexZeros

  const ALL_LISTS: seq<ListName> := [RealPoles, RealZeros, ComplexPoles, ComplexZeros]

  /** The slave lists behind a master property. */
  function RealListOf(kind: Kind): ListName
  {
    if kind == Poles then RealPoles else RealZeros
  }

  function ComplexListOf(kind: Kind): ListName
  {
    if kind == Poles then ComplexPoles else ComplexZeros
  }

  // -------------------------------------------------------- the pole test

  /** The attribute name of each slave list: `real_poles`, `real_zeros`, `complex_poles`, `complex_zeros`. */
  function NameOf(n: ListName): string
  {
    KindName(n) + "_" + MasterName(n)
  }

  function KindName(n: ListName): string
  {
    if n == RealPoles || n == RealZeros then "real" else "complex"
  }

  /** The name of the master property a slave belongs to. */
  function MasterName(n: ListName): string
  {
    if n == RealPoles || n == ComplexPoles then "poles" else "zeros"
  }

  /** The text after the first `sep`; empty when there is none. */
  function After(s: string, sep: char): (t: string)
    ensures |t| <= |s|
  {
    if s == [] then [] else if s[0] == sep then s[1..] else After(s[1..], sep)
  }

  /** The text before the first `sep`, all of `s` when there is none. */
  function UpTo(s: string, sep: char): (t: string)
    ensures sep !in t && |t| <= |s|
  {
    if s == [] || s[0] == sep then [] else [s[0]] + UpTo(s[1..], sep)
  }

  lemma {:induction false} AfterSplit(a: string, sep: char, b: string)
    requires sep !in a
    ensures After(a + [sep] + b, sep) == b
  {
    if a != [] {
      assert (a + [sep] + b)[1..] == a[1..] + [sep] + b;
      AfterSplit(a[1..], sep, b);
    }
  }

  lemma {:induction false} UpToWhole(b: string, sep: char)
    requires sep !in b
    ensures UpTo(b, sep) == b
  {
    if b != [] {
      UpToWhole(b[1..], sep);
    }
  }

  /** `self.name.split('_')[1]`: the part of a slave's name the normalisations take for 'pole' or 'zero'. */
  function PoleOrZero(n: ListName): string
  {
    UpTo(After(NameOf(n), '_'), '_')
  }

  /** The second part of a slave's name is the name of its master, which `value_updated` relies on. */
  lemma PoleOrZeroIsMaster(n: ListName)
    ensures PoleOrZero(n) == MasterName(n)
  {
    AfterSplit(KindName(n), '_', MasterName(n));
    UpToWhole(MasterName(n), '_');
  }

  /** `pole_or_zero == 'pole'`, the test both normalisations make, as written: it holds for no list. */
  function PoleTest(n: ListName): (b: bool)
    ensures !b
  {
    PoleOrZeroIsMaster(n);
    PoleOrZero(n) == "pole"
  }

  // -------------------------------------------------------- normalisation

  /**
   * `IirFloatListProperty.validate_and_normalize_element` with the outcome
   * of the pole test as `pole`: a zero value becomes -1, and when the test
   * holds a positive value is negated, so that a pole is always negative.
   */
  function RealNorm(pole: bool, v: real): (r: real)
    ensures r != 0.0
    ensures pole ==> r < 0.0
    ensures v < 0.0 || (!pole && v != 0.0) ==> r == v
    ensures pole && v > 0.0 ==> r == -v
  {
    var u := if v > 0.0 && pole then -v else v;
    if u == 0.0 then -1.0 else u
  }

  /**
   * `IirComplexListProperty.validate_and_normalize_element`: the real part
   * as for a real element, and a negative imaginary part negated.
   */
  function ComplexNorm(pole: bool, c: Complex): (r: Complex)
    ensures r.re != 0.0 && r.im >= 0.0
    ensures pole ==> r.re < 0.0
    ensures c.re < 0.0 || (!pole && c.re != 0.0) ==> r.re == c.re
    ensures r.im == c.im || r.im == -c.im
    ensures r.im != 0.0 <==> c.im != 0.0
  {
    var re := if c.re > 0.0 && pole then -c.re else c.re;
    var re' := if re == 0.0 then -1.0 else re;
    var im := if c.im < 0.0 then -c.im else c.im;
    Complex(re', im)
  }

  /** As written, a positive pole is stored as it is; with the test holding it would be negated. */
  lemma PositivePoleKept()
    ensures NormReals(PoleTest(RealPoles), [5.0]) == [5.0] && NormReals(true, [5.0]) == [-5.0]
    ensures ComplexNorm(PoleTest(ComplexPoles), Complex(5.0, 3.0)) == Complex(5.0, 3.0)
    ensures ComplexNorm(true, Complex(5.0, 3.0)) == Complex(-5.0, 3.0)
  {
    assert NormReals(false, [5.0])[0] == 5.0 && NormReals(true, [5.0])[0] == -5.0;
  }

  /** Every element of a real slave list after validation. */
  function NormReals(pole: bool, rs: seq<real>): (ns: seq<real>)
    ensures |ns| == |rs| && forall i :: 0 <= i < |rs| ==> ns[i] == RealNorm(pole, rs[i])
  {
    seq(|rs|, i requires 0 <= i < |rs| => RealNorm(pole, rs[i]))
  }

  /** Every element of a complex slave list after validation. */
  function NormComplexes(pole: bool, cs: seq<Complex>): (ns: seq<Complex>)
    ensures |ns| == |cs| && forall i :: 0 <= i < |cs| ==> ns[i] == ComplexNorm(pole, cs[i])
  {
    seq(|cs|, i requires 0 <= i < |cs| => ComplexNorm(pole, cs[i]))
  }

  /**
   * Where a master element ends up, normalised by the slave list it goes
   * to: still real exactly when it was, never zero in its real part, with
   * a non-negative imaginary part of the same size.
   */
  function NormElement(pole: bool, v: Complex): (r: Complex)
    ensures r.re != 0.0 && r.im >= 0.0
    ensures r.im == 0.0 <==> v.im == 0.0
    ensures r.im == v.im || r.im == -v.im
    ensures v.re < 0.0 || (!pole && v.re != 0.0) ==> r.re == v.re
  {
    if v.im == 0.0 then Complex(RealNorm(pole, v.re), 0.0) else ComplexNorm(pole, v)
  }

  function NormElements(pole: bool, vs: seq<Complex>): (ns: seq<Complex>)
    ensures |ns| == |vs| && forall i :: 0 <= i < |vs| ==> ns[i] == NormElement(pole, vs[i])
  {
    seq(|vs|, i requires 0 <= i < |vs| => NormElement(pole, vs[i]))
  }

  /** Normalising twice is normalising once, element by element and list by list. */
  lemma NormsIdempotent(pole: bool, rs: seq<real>, cs: seq<Complex>)
    ensures NormReals(pole, NormReals(pole, rs)) == NormReals(pole, rs)
    ensures NormComplexes(pole, NormComplexes(pole, cs)) == NormComplexes(pole, cs)
  {
    forall i | 0 <= i < |rs|
      ensures RealNorm(pole, RealNorm(pole, rs[i])) == RealNorm(pole, rs[i])
    {
    }
    forall i | 0 <= i < |cs|
      ensures ComplexNorm(pole, ComplexNorm(pole, cs[i])) == ComplexNorm(pole, cs[i])
    {
    }
  }

  // ------------------------------------------------------ split and join

  /** The real parts of the elements with imaginary part 0, in order. */
  function RealParts(vs: seq<Complex>): seq<real>
  {
    if vs == [] then []
    else
      var v := vs[|vs| - 1];
      RealParts(vs[..|vs| - 1]) + (if v.im == 0.0 then [v.re] else [])
  }

  /** The elements with a nonzero imaginary part, in order. */
  function ComplexParts(vs: seq<Complex>): seq<Complex>
  {
    if vs == [] then []
    else
      var v := vs[|vs| - 1];
      ComplexParts(vs[..|vs| - 1]) + (if v.im == 0.0 then [] else [v])
  }

  /** The real list as the master getter adds it: each value as a complex one. */
  function Embed(rs: seq<real>): (cs: seq<Complex>)
    ensures |cs| == |rs| && forall i :: 0 <= i < |rs| ==> cs[i] == Complex(rs[i], 0.0)
  {
    seq(|rs|, i requires 0 <= i < |rs| => Complex(rs[i], 0.0))
  }

  /** The master getter: the complex list followed by the real list. */
  function Join(cs: seq<Complex>, rs: seq<real>): seq<Complex>
  {
    cs + Embed(rs)
  }

  /** Splitting distributes over concatenation. */
  lemma {:induction false} PartsAppend(a: seq<Complex>, b: seq<Complex>)
    ensures RealParts(a + b) == RealParts(a) + RealParts(b)
    ensures ComplexParts(a + b) == ComplexParts(a) + ComplexParts(b)
    decreases |b|
  {
    if b == [] {
      assert a + b == a;
    } else {
      var k := |b| - 1;
      assert (a + b)[..|a + b| - 1] == a + b[..k];
      assert (a + b)[|a + b| - 1] == b[k];
      PartsAppend(a, b[..k]);
    }
  }

  /** The master setter walks the value once, sorting each element into one of the two lists. */
  method Split(vals: seq<Complex>) returns (reals: seq<real>, complexes: seq<Complex>)
    ensures reals == RealParts(vals) && complexes == ComplexParts(vals)
  {
    reals, complexes := [], [];
    var i := 0;
    while i < |vals|
      invariant 0 <= i <= |vals|
      invariant reals == RealParts(vals[..i]) && complexes == ComplexParts(vals[..i])
    {
      var v := vals[i];
      assert vals[..i + 1][..i] == vals[..i];
      if v.im == 0.0 {
        reals := reals + [v.re];
      } else {
        complexes := complexes + [v];
      }
      i := i + 1;
    }
    assert vals[..i] == vals;
  }

  /** Joining the two parts of a value gives back the value up to order. */
  lemma {:induction false} JoinSplit(vs: seq<Complex>)
    ensures multiset(Join(ComplexParts(vs), RealParts(vs))) == multiset(vs)
    decreases |vs|
  {
    if vs != [] {
      var k := |vs| - 1;
      var v := vs[k];
      var init := vs[..k];
      JoinSplit(init);
      assert vs == init + [v];
      if v.im == 0.0 {
        assert Embed(RealParts(vs)) == Embed(RealParts(init)) + [v];
      } else {
        assert Embed(RealParts(vs)) == Embed(RealParts(init));
        assert multiset(ComplexParts(vs)) == multiset(ComplexParts(init)) + multiset{v};
      }
    }
  }

  /** Splitting the joined lists gives back both lists when no complex element has imaginary part 0. */
  lemma SplitJoin(cs: seq<Complex>, rs: seq<real>)
    requires forall i :: 0 <= i < |cs| ==> cs[i].im != 0.0
    ensures ComplexParts(Join(cs, rs)) == cs && RealParts(Join(cs, rs)) == rs
  {
    PartsAppend(cs, Embed(rs));
    ComplexPartsOfComplex(cs);
    RealPartsOfEmbed(rs);
  }

  lemma {:induction false} ComplexPartsOfComplex(cs: seq<Complex>)
    requires forall i :: 0 <= i < |cs| ==> cs[i].im != 0.0
    ensures ComplexParts(cs) == cs && RealParts(cs) == []
    decreases |cs|
  {
    if cs != [] {
      ComplexPartsOfComplex(cs[..|cs| - 1]);
    }
  }

  lemma {:induction false} RealPartsOfEmbed(rs: seq<real>)
    ensures RealParts(Embed(rs)) == rs && ComplexParts(Embed(rs)) == []
    decreases |rs|
  {
    if rs != [] {
      var k := |rs| - 1;
      assert Embed(rs)[..k] == Embed(rs[..k]);
      RealPartsOfEmbed(rs[..k]);
      assert rs == rs[..k] + [rs[k]];
    }
  }

  /** Normalising the parts is taking the parts of the normalised value. */
  lemma {:induction false} PartsOfNormElements(pole: bool, vs: seq<Complex>)
    ensures NormReals(pole, RealParts(vs)) == RealParts(NormElements(pole, vs))
    ensures NormComplexes(pole, ComplexParts(vs)) == ComplexParts(NormElements(pole, vs))
    decreases |vs|
  {
    if vs != [] {
      var k := |vs| - 1;
      var ns := NormElements(pole, vs);
      assert ns[..k] == NormElements(pole, vs[..k]);
      PartsOfNormElements(pole, vs[..k]);
      var rs, cs := RealParts(vs[..k]), ComplexParts(vs[..k]);
      if vs[k].im == 0.0 {
        assert NormReals(pole, rs + [vs[k].re]) == NormReals(pole, rs) + [RealNorm(pole, vs[k].re)];
      } else {
        assert NormComplexes(pole, cs + [vs[k]]) == NormComplexes(pole, cs) + [ComplexNorm(pole, vs[k])];
      }
    }
  }

  /**
   * What the master getter returns after the master setter: the value
   * normalised element by element, complex elements first.
   */
  lemma MasterAfterSet(pole: bool, vs: seq<Complex>)
    ensures multiset(Join(NormComplexes(pole, ComplexParts(vs)), NormReals(pole, RealParts(vs)))) ==
      multiset(NormElements(pole, vs))
  {
    PartsOfNormElements(pole, vs);
    JoinSplit(NormElements(pole, vs));
  }

  /**
   * Setting a master property to what it returns leaves its two lists as
   * they are, provided no complex element has imaginary part 0.
   */
  lemma ReassignKeepsLists(pole: bool, cs: seq<Complex>, rs: seq<real>)
    requires forall i :: 0 <= i < |cs| ==> cs[i].im != 0.0
    ensures var c, r := NormComplexes(pole, cs), NormReals(pole, rs);
      NormComplexes(pole, ComplexParts(Join(c, r))) == c && NormReals(pole, RealParts(Join(c, r))) == r
  {
    var c, r := NormComplexes(pole, cs), NormReals(pole, rs);
    SplitJoin(c, r);
    NormsIdempotent(pole, rs, cs);
  }

  /** Every element goes to exactly one of the two lists. */
  lemma {:induction false} PartsLength(vs: seq<Complex>)
    ensures |RealParts(vs)| + |ComplexParts(vs)| == |vs|
    decreases |vs|
  {
    if vs != [] {
      PartsLength(vs[..|vs| - 1]);
    }
  }

  // ------------------------------------------------------ the four lists

  /** One value per slave list. */
  datatype Quad<T> = Quad(rp: T, rz: T, cp: T, cz: T)
  {
    function Get(n: ListName): T
    {
      match n
      case RealPoles => rp
      case RealZeros => rz
      case ComplexPoles => cp
      case ComplexZeros => cz
    }

    function With(n: ListName, v: T): (q: Quad<T>)
      ensures q.Get(n) == v && forall m :: m != n ==> q.Get(m) == Get(m)
    {
      match n
      case RealPoles => this.(rp := v)
      case RealZeros => this.(rz := v)
      case ComplexPoles => this.(cp := v)
      case ComplexZeros => this.(cz := v)
    }
  }

  /** The selections when only list `n` has one, `s`. */
  function Only(n: ListName, s: Option<nat>): (q: Quad<Option<nat>>)
    ensures q.Get(n) == s && forall m :: m != n ==> q.Get(m) == None
  {
    Quad(None, None, None, None).With(n, s)
  }

  /** The elements of the four lists. */
  datatype Lists = Lists(rp: seq<real>, rz: seq<real>, cp: seq<Complex>, cz: seq<Complex>)

  /**
   * The pole and zero state of an IIR module: the four slave list
   * properties (each forwards `value_updated` to its master, which calls
   * setup, and hands its selections to the module's handler), the
   * `_selecting` guard, the recorded selection and the number of
   * `update_plot` signals.
   */
  class PoleZeroLists {
    const host: Modules.Module
    const realPoles: ListProperty<real>
    const realZeros: ListProperty<real>
    const complexPoles: ListProperty<Complex>
    const complexZeros: ListProperty<Complex>
    var selecting: bool
    /** `_selected_pole_or_zero` and `_selected_index`. */
    var selectedList: Option<ListName>
    var selectedIndex: Option<int>
    var plotUpdates: nat

    /**
     * How the four properties are declared on the module. Each list
     * validates with the outcome of its own pole test (`PoleTest`), which
     * fails for all four names, so no normalisation negates.
     */
    ghost predicate Wired()
    {
      Distinct() && Forwarding() && Normalising()
    }

    /** The four properties, and their lists, are distinct objects. */
    ghost predicate Distinct()
    {
      && realPoles != realZeros && complexPoles != complexZeros
      && realPoles.list != realZeros.list && complexPoles.list != complexZeros.list
    }

    /** Each property belongs to the module, forwards to its master and hands selections to the module. */
    ghost predicate Forwarding()
    {
      && realPoles.host == host && realZeros.host == host
      && complexPoles.host == host && complexZeros.host == host
      && realPoles.forwardsToMaster && realPoles.ownerHandlesSelect
      && realZeros.forwardsToMaster && realZeros.ownerHandlesSelect
      && complexPoles.forwardsToMaster && complexPoles.ownerHandlesSelect
      && complexZeros.forwardsToMaster && complexZeros.ownerHandlesSelect
    }

    /** Each list normalises its elements with the negating option off. */
    ghost predicate Normalising()
    {
      && (forall v: real :: realPoles.list.norm(v) == RealNorm(false, v))
      && (forall v: real :: realZeros.list.norm(v) == RealNorm(false, v))
      && (forall c: Complex :: complexPoles.list.norm(c) == ComplexNorm(false, c))
      && (forall c: Complex :: complexZeros.list.norm(c) == ComplexNorm(false, c))
    }

    /** None of the four slave properties runs setup itself. */
    ghost predicate SetupOff()
      reads realPoles, realZeros, complexPoles, complexZeros
    {
      !realPoles.callSetup && !realZeros.callSetup && !complexPoles.callSetup && !complexZeros.callSetup
    }

    /** Between calls the selection guard is down. */
    ghost predicate Valid()
      reads this, realPoles, realZeros, complexPoles, complexZeros
    {
      Wired() && SetupOff() && !selecting
    }

    /** The module's lists start empty, with the declared default elements. */
    constructor (host: Modules.Module)
      ensures this.host == host && Valid()
      ensures selectedList == None && selectedIndex == None && plotUpdates == 0
      ensures Items() == Lists([], [], [], [])
    {
      var rp := new AttributeList<real>(v => RealNorm(PoleTest(RealPoles), v), -10000.0, []);
      var rz := new AttributeList<real>(v => RealNorm(PoleTest(RealZeros), v), -10000.0, []);
      var cp := new AttributeList<Complex>(c => ComplexNorm(PoleTest(ComplexPoles), c), Complex(-1000.0, 10000.0), []);
      var cz := new AttributeList<Complex>(c => ComplexNorm(PoleTest(ComplexZeros), c), Complex(-1000.0, 10000.0), []);
      this.host := host;
      realPoles := new ListProperty(rp, host, false, true, true);
      realZeros := new ListProperty(rz, host, false, true, true);
      complexPoles := new ListProperty(cp, host, false, true, true);
      complexZeros := new ListProperty(cz, host, false, true, true);
      selecting := false;
      selectedList := None;
      selectedIndex := None;
      plotUpdates := 0;
    }

    function Items(): Lists
      reads realPoles.list, realZeros.list, complexPoles.list, complexZeros.list
    {
      Lists(realPoles.list.items, realZeros.list.items, complexPoles.list.items, complexZeros.list.items)
    }

    function RealItems(kind: Kind): seq<real>
      reads realPoles.list, realZeros.list
    {
      if kind == Poles then realPoles.list.items else realZeros.list.items
    }

    function ComplexItems(kind: Kind): seq<Complex>
      reads complexPoles.list, complexZeros.list
    {
      if kind == Poles then complexPoles.list.items else complexZeros.list.items
    }

    /** The master getter `poles` or `zeros`. */
    function Master(kind: Kind): seq<Complex>
      reads realPoles.list, realZeros.list, complexPoles.list, complexZeros.list
    {
      Join(ComplexItems(kind), RealItems(kind))
    }

    /** The `selected` position of each of the four lists. */
    function Selections(): Quad<Option<nat>>
      reads realPoles.list, realZeros.list, complexPoles.list, complexZeros.list
    {
      Quad(realPoles.list.selected, realZeros.list.selected, complexPoles.list.selected, complexZeros.list.selected)
    }

    function Selected(n: ListName): Option<nat>
      reads realPoles.list, realZeros.list, complexPoles.list, complexZeros.list
    {
      Selections().Get(n)
    }

    /** The `list_changed` calls each of the four lists has made. */
    function Logs(): Quad<seq<Change>>
      reads realPoles.list, realZeros.list, complexPoles.list, complexZeros.list
    {
      Quad(realPoles.list.changes, realZeros.list.changes, complexPoles.list.changes, complexZeros.list.changes)
    }

    function ChangesOf(n: ListName): seq<Change>
      reads realPoles.list, realZeros.list, complexPoles.list, complexZeros.list
    {
      Logs().Get(n)
    }

    /** What the `selected` setter of list `n` keeps for `index`. */
    function SelectionFor(n: ListName, index: Option<int>): Option<nat>
      reads realPoles.list, realZeros.list, complexPoles.list, complexZeros.list
    {
      match n
      case RealPoles => UniqueIndex(realPoles.list.items, index)
      case RealZeros => UniqueIndex(realZeros.list.items, index)
      case ComplexPoles => UniqueIndex(complexPoles.list.items, index)
      case ComplexZeros => UniqueIndex(complexZeros.list.items, index)
    }

    /** The selection state a handler run for list `n` that recorded `index` leaves. */
    ghost predicate SelectedOnly(n: ListName, index: Option<int>)
      reads this, realPoles.list, realZeros.list, complexPoles.list, complexZeros.list
    {
      selectedList == Some(n) && selectedIndex == index && Selections() == Only(n, Selected(n))
    }

    /** As `SelectedOnly`, with the position list `n` keeps as the one recorded. */
    ghost predicate SelectedOwn(n: ListName)
      reads this, realPoles.list, realZeros.list, complexPoles.list, complexZeros.list
    {
      selectedList == Some(n) && Selections() == Only(n, Selected(n))
      && selectedIndex.Some? == Selected(n).Some? && (selectedIndex.Some? ==> selectedIndex.value == Selected(n).value)
    }

    /** No list's selection and no recorded selection changed. */
    twostate predicate SelectionKept()
      reads this, realPoles.list, realZeros.list, complexPoles.list, complexZeros.list
    {
      selectedList == old(selectedList) && selectedIndex == old(selectedIndex) && Selections() == old(Selections())
    }

    /**
     * The master setter: splits the value by imaginary part, assigns the
     * complex and then the real list inside `do_setup`, so that neither
     * calls setup, and then calls setup once as the master's
     * `value_updated`. The lists of the other master are untouched. Every
     * element placed reports a selection to the handler, and a pop may
     * report one more per list; when the value has a real element the real
     * list's selection is the one recorded.
     */
    method SetMaster(kind: Kind, vals: seq<Complex>)
      requires Valid()
      modifies this, realPoles, realZeros, complexPoles, complexZeros, realPoles.list, realZeros.list, complexPoles.list, complexZeros.list, host
      ensures Valid()
      ensures ComplexItems(kind) == NormComplexes(false, ComplexParts(vals))
      ensures RealItems(kind) == NormReals(false, RealParts(vals))
      ensures multiset(Master(kind)) == multiset(NormElements(false, vals))
      ensures var other := if kind == Poles then Zeros else Poles;
        ComplexItems(other) == old(ComplexItems(other)) && RealItems(other) == old(RealItems(other))
      ensures !host.setupOngoing && host.setupCalls == old(host.setupCalls) + 1
      ensures old(plotUpdates) + |vals| <= plotUpdates <= old(plotUpdates) + |vals| + 2
      ensures RealParts(vals) != [] ==> SelectedOwn(RealListOf(kind))
      ensures RealParts(vals) == [] && ComplexParts(vals) != [] && old(RealItems(kind)) == [] ==>
        SelectedOwn(ComplexListOf(kind))
      ensures vals == [] && old(RealItems(kind)) == [] && old(ComplexItems(kind)) == [] ==>
        SelectionKept() && plotUpdates == old(plotUpdates)
    {
      var reals, complexes := Split(vals);
      PartsLength(vals);
      host.DoSetupEnter();
      AssignSlaves(kind, reals, complexes);
      host.DoSetupExit(false);
      host.ValueUpdated(true);
      MasterAfterSet(false, vals);
      if vals == [] {
        assert reals == [] && complexes == [];
      }
    }

    /** The two assignments inside `do_setup`: the complex list, then the real list. */
    method AssignSlaves(kind: Kind, reals: seq<real>, complexes: seq<Complex>)
      requires Valid() && host.setupOngoing
      modifies this, realPoles, realZeros, complexPoles, complexZeros, realPoles.list, realZeros.list, complexPoles.list, complexZeros.list, host
      ensures Valid() && host.setupOngoing && host.setupCalls == old(host.setupCalls)
      ensures ComplexItems(kind) == NormComplexes(false, complexes) && RealItems(kind) == NormReals(false, reals)
      ensures var other := if kind == Poles then Zeros else Poles;
        ComplexItems(other) == old(ComplexItems(other)) && RealItems(other) == old(RealItems(other))
      ensures old(plotUpdates) + |reals| + |complexes| <= plotUpdates <= old(plotUpdates) + |reals| + |complexes| + 2
      ensures reals != [] ==> SelectedOwn(RealListOf(kind))
      ensures reals == [] && complexes != [] && old(RealItems(kind)) == [] ==> SelectedOwn(ComplexListOf(kind))
      ensures reals == [] && complexes == [] && old(RealItems(kind)) == [] && old(ComplexItems(kind)) == [] ==>
        SelectionKept() && plotUpdates == old(plotUpdates)
    {
      if kind == Poles {
        AssignComplex(ComplexPoles, complexes);
        AssignReal(RealPoles, reals);
      } else {
        AssignComplex(ComplexZeros, complexes);
        AssignReal(RealZeros, reals);
      }
    }

    /** `setattr(obj, 'real_' + name, value)`, each selection the list reports going to the handler. */
    method AssignReal(n: ListName, val: seq<real>)
      requires Valid() && host.setupOngoing && (n == RealPoles || n == RealZeros)
      modifies this, realPoles, realZeros, realPoles.list, realZeros.list, complexPoles.list, complexZeros.list, host
      ensures Valid() && host.setupOngoing && host.setupCalls == old(host.setupCalls)
      ensures Items() == if n == RealPoles then old(Items()).(rp := NormReals(false, val))
        else old(Items()).(rz := NormReals(false, val))
      ensures var k := plotUpdates - old(plotUpdates);
        |val| <= k <= |val| + (if |val| < old(|RealItems(if n == RealPoles then Poles else Zeros)|) then 1 else 0)
      ensures plotUpdates == old(plotUpdates) ==> SelectionKept()
      ensures plotUpdates > old(plotUpdates) ==> SelectedOwn(n)
    {
      ghost var before := |RealItems(if n == RealPoles then Poles else Zeros)|;
      var p := if n == RealPoles then realPoles else realZeros;
      var from, log := AssignInSetup(p, val);
      MapRealNorm(p.list.norm, val);
      AssignedSlave(n, from, log, |val|, before);
    }

    /** `setattr(obj, 'complex_' + name, value)`, each selection the list reports going to the handler. */
    method AssignComplex(n: ListName, val: seq<Complex>)
      requires Valid() && host.setupOngoing && (n == ComplexPoles || n == ComplexZeros)
      modifies this, complexPoles, complexZeros, realPoles.list, realZeros.list, complexPoles.list, complexZeros.list, host
      ensures Valid() && host.setupOngoing && host.setupCalls == old(host.setupCalls)
      ensures Items() == if n == ComplexPoles then old(Items()).(cp := NormComplexes(false, val))
        else old(Items()).(cz := NormComplexes(false, val))
      ensures var k := plotUpdates - old(plotUpdates);
        |val| <= k <= |val| + (if |val| < old(|ComplexItems(if n == ComplexPoles then Poles else Zeros)|) then 1 else 0)
      ensures plotUpdates == old(plotUpdates) ==> SelectionKept()
      ensures plotUpdates > old(plotUpdates) ==> SelectedOwn(n)
    {
      ghost var before := |ComplexItems(if n == ComplexPoles then Poles else Zeros)|;
      var p := if n == ComplexPoles then complexPoles else complexZeros;
      var from, log := AssignInSetup(p, val);
      MapComplexNorm(p.list.norm, val);
      AssignedSlave(n, from, log, |val|, before);
    }

    /**
     * The handler's part of a slave assignment: list `n` has just logged
     * `log`, which reports between `placed` and `placed + 1` selections
     * (`placed + 1` only when the list was longer than the value), and
     * leaves its last reported selection as the list's own.
     */
    method AssignedSlave(n: ListName, from: nat, ghost log: seq<Change>, placed: nat, ghost before: nat)
      requires Valid() && from <= |ChangesOf(n)| && ChangesOf(n)[from..] == log
      requires placed <= Selects(log) <= placed + (if placed < before then 1 else 0)
      requires Selects(log) > 0 ==> LastSelect(log) == Some(Selected(n))
      modifies this, realPoles.list, realZeros.list, complexPoles.list, complexZeros.list, host
      ensures Valid() && Items() == old(Items())
      ensures host.setupOngoing == old(host.setupOngoing)
      ensures host.setupCalls == old(host.setupCalls) + (if host.setupOngoing then 0 else Selects(log))
      ensures plotUpdates == old(plotUpdates) + Selects(log)
      ensures var k := plotUpdates - old(plotUpdates); placed <= k <= placed + (if placed < before then 1 else 0)
      ensures plotUpdates == old(plotUpdates) ==> SelectionKept()
      ensures plotUpdates > old(plotUpdates) ==> SelectedOwn(n)
    {
      DispatchSelects(n, from);
    }

    /**
     * The IIR lists' `list_changed` for the changes list `n` logged from
     * position `from` on: each selection goes to the handler, in order
     * (the other changes reach `value_updated` as the list property passes
     * them on). The last selection reported is the one recorded.
     */
    method DispatchSelects(n: ListName, from: nat)
      requires Valid() && from <= |ChangesOf(n)|
      modifies this, realPoles.list, realZeros.list, complexPoles.list, complexZeros.list, host
      ensures Valid() && Items() == old(Items())
      ensures ChangesOf(n) == old(ChangesOf(n)) && Selected(n) == old(Selected(n))
      ensures host.setupOngoing == old(host.setupOngoing)
      ensures Dispatched(old(plotUpdates), old(host.setupCalls), ChangesOf(n)[from..])
      ensures Selects(ChangesOf(n)[from..]) == 0 ==> SelectionKept()
      ensures Selects(ChangesOf(n)[from..]) > 0 ==> SelectedOnly(n, LastSelect(ChangesOf(n)[from..]).value)
    {
      var j := from;
      while j < |ChangesOf(n)|
        invariant from <= j <= |ChangesOf(n)|
        invariant Valid() && Items() == old(Items())
        invariant ChangesOf(n) == old(ChangesOf(n)) && Selected(n) == old(Selected(n))
        invariant host.setupOngoing == old(host.setupOngoing)
        invariant Dispatched(old(plotUpdates), old(host.setupCalls), ChangesOf(n)[from..j])
        invariant Selects(ChangesOf(n)[from..j]) == 0 ==> SelectionKept()
        invariant Selects(ChangesOf(n)[from..j]) > 0 ==> SelectedOnly(n, LastSelect(ChangesOf(n)[from..j]).value)
      {
        var c := ChangesOf(n)[j];
        SelectsStep(ChangesOf(n), from, j);
        DispatchChange(n, c);
        j := j + 1;
      }
      assert ChangesOf(n)[from..j] == ChangesOf(n)[from..];
    }

    /** One change of list `n`'s log reaching the handler: only a selection does anything. */
    method DispatchChange(n: ListName, c: Change)
      requires Valid()
      modifies this, realPoles.list, realZeros.list, complexPoles.list, complexZeros.list, host
      ensures Valid() && Items() == old(Items())
      ensures ChangesOf(n) == old(ChangesOf(n)) && Selected(n) == old(Selected(n))
      ensures host.setupOngoing == old(host.setupOngoing)
      ensures plotUpdates == old(plotUpdates) + (if c.op == Select then 1 else 0)
      ensures host.setupCalls == old(host.setupCalls) + (if c.op == Select && !host.setupOngoing then 1 else 0)
      ensures c.op != Select ==> SelectionKept()
      ensures c.op == Select ==> SelectedOnly(n, c.index)
    {
      if c.op == Select {
        SelectChanged(n, c.index);
      }
    }

    /** After handling `log`, one plot update and (outside `do_setup`) one setup per selection in it. */
    ghost predicate Dispatched(plot0: nat, setup0: nat, log: seq<Change>)
      reads this, host
    {
      plotUpdates == plot0 + Selects(log)
      && host.setupCalls == setup0 + (if host.setupOngoing then 0 else Selects(log))
    }

    /**
     * The `selected` setter of list `n` on an IIR list: the list keeps the
     * position, then the handler clears every other list's selection and
     * records this one; its generic `list_changed` runs setup once.
     */
    method SelectIn(n: ListName, index: Option<int>)
      requires Valid()
      modifies this, realPoles.list, realZeros.list, complexPoles.list, complexZeros.list, host
      ensures Valid() && Items() == old(Items())
      ensures Selected(n) == old(SelectionFor(n, index))
      ensures SelectedOwn(n)
      ensures plotUpdates == old(plotUpdates) + 1
      ensures host.setupOngoing == old(host.setupOngoing)
      ensures host.setupCalls == old(host.setupCalls) + (if host.setupOngoing then 0 else 1)
    {
      match n {
        case RealPoles => realPoles.list.SetSelected(index);
        case RealZeros => realZeros.list.SetSelected(index);
        case ComplexPoles => complexPoles.list.SetSelected(index);
        case ComplexZeros => complexZeros.list.SetSelected(index);
      }
      SelectChanged(n, Selected(n));
    }

    /**
     * `list_changed` for a selection: when the guard is down, raises it,
     * clears the other three lists (whose own handlers then find the guard
     * up and do nothing), records the selection, lowers the guard, passes
     * the selection to the generic `list_changed` and signals the plot.
     */
    method SelectChanged(n: ListName, index: Option<int>)
      requires Wired() && SetupOff()
      modifies this, realPoles.list, realZeros.list, complexPoles.list, complexZeros.list, host
      decreases if selecting then 0 else 1, 1
      ensures selecting == old(selecting) && Items() == old(Items())
      ensures ChangesOf(n) == old(ChangesOf(n))
      ensures host.setupOngoing == old(host.setupOngoing)
      ensures old(selecting) ==> SelectionKept() && Logs() == old(Logs())
      ensures old(selecting) ==> plotUpdates == old(plotUpdates) && host.setupCalls == old(host.setupCalls)
      ensures !old(selecting) ==>
        && Selections() == Only(n, old(Selected(n)))
        && selectedList == Some(n) && selectedIndex == index
        && plotUpdates == old(plotUpdates) + 1
        && host.setupCalls == old(host.setupCalls) + (if host.setupOngoing then 0 else 1)
    {
      if !selecting {
        HandleSelect(n, index);
      }
    }

    /** The handler's work once it finds the guard down. */
    method HandleSelect(n: ListName, index: Option<int>)
      requires Wired() && SetupOff() && !selecting
      modifies this, realPoles.list, realZeros.list, complexPoles.list, complexZeros.list, host
      decreases 1, 0
      ensures !selecting && Items() == old(Items())
      ensures ChangesOf(n) == old(ChangesOf(n))
      ensures host.setupOngoing == old(host.setupOngoing)
      ensures Selections() == Only(n, old(Selected(n)))
      ensures selectedList == Some(n) && selectedIndex == index
      ensures plotUpdates == old(plotUpdates) + 1
      ensures host.setupCalls == old(host.setupCalls) + (if host.setupOngoing then 0 else 1)
    {
      Exclusive(n, index);
      SelectReported(n);
      plotUpdates := plotUpdates + 1;
    }

    /** The guarded block: with the guard up, clears the other lists and records the selection, then lowers the guard. */
    method Exclusive(n: ListName, index: Option<int>)
      requires Wired() && SetupOff() && !selecting
      modifies this, realPoles.list, realZeros.list, complexPoles.list, complexZeros.list, host
      decreases 0, 4
      ensures !selecting && Items() == old(Items())
      ensures ChangesOf(n) == old(ChangesOf(n))
      ensures host.setupOngoing == old(host.setupOngoing) && host.setupCalls == old(host.setupCalls)
      ensures Selections() == Only(n, old(Selected(n)))
      ensures selectedList == Some(n) && selectedIndex == index
      ensures plotUpdates == old(plotUpdates)
    {
      selecting := true;
      DeselectOthers(n);
      selectedList := Some(n);
      selectedIndex := index;
      selecting := false;
    }

    /** The generic `list_changed` the handler ends with: as written a selection reaches `value_updated`, and through it the master's setup. */
    method SelectReported(n: ListName)
      requires Forwarding() && SetupOff()
      modifies host
      ensures host.setupOngoing == old(host.setupOngoing)
      ensures host.setupCalls == old(host.setupCalls) + (if host.setupOngoing then 0 else 1)
    {
      match n {
        case RealPoles => realPoles.ListChanged(Select);
        case RealZeros => realZeros.ListChanged(Select);
        case ComplexPoles => complexPoles.ListChanged(Select);
        case ComplexZeros => complexZeros.ListChanged(Select);
      }
    }

    /** The handler's loop over the four list names, clearing all but `n`. */
    method DeselectOthers(n: ListName)
      requires Wired() && SetupOff() && selecting
      modifies this, realPoles.list, realZeros.list, complexPoles.list, complexZeros.list, host
      decreases if selecting then 0 else 1, 3
      ensures selecting && Items() == old(Items())
      ensures ChangesOf(n) == old(ChangesOf(n))
      ensures host.setupCalls == old(host.setupCalls) && host.setupOngoing == old(host.setupOngoing)
      ensures Selections() == Only(n, old(Selected(n)))
      ensures selectedList == old(selectedList) && selectedIndex == old(selectedIndex)
      ensures plotUpdates == old(plotUpdates)
    {
      var i := 0;
      while i < |ALL_LISTS|
        invariant 0 <= i <= |ALL_LISTS|
        invariant selecting && Items() == old(Items())
        invariant ChangesOf(n) == old(ChangesOf(n))
        invariant host.setupCalls == old(host.setupCalls) && host.setupOngoing == old(host.setupOngoing)
        invariant selectedList == old(selectedList) && selectedIndex == old(selectedIndex)
        invariant plotUpdates == old(plotUpdates)
        invariant Selections() == Cleared(old(Selections()), n, i)
      {
        if ALL_LISTS[i] != n {
          Deselect(ALL_LISTS[i]);
        }
        i := i + 1;
      }
      ClearedAll(old(Selections()), n);
    }

    /** `getattr(module, name).selected = None` while the guard is up. */
    method Deselect(n: ListName)
      requires Wired() && SetupOff() && selecting
      modifies this, realPoles.list, realZeros.list, complexPoles.list, complexZeros.list, host
      decreases if selecting then 0 else 1, 2
      ensures selecting && Items() == old(Items())
      ensures Logs() == old(Logs()).With(n, old(ChangesOf(n)) + [Change(Select, None)])
      ensures host.setupCalls == old(host.setupCalls) && host.setupOngoing == old(host.setupOngoing)
      ensures Selections() == old(Selections()).With(n, None)
      ensures selectedList == old(selectedList) && selectedIndex == old(selectedIndex)
      ensures plotUpdates == old(plotUpdates)
    {
      match n {
        case RealPoles => realPoles.list.SetSelected(None);
        case RealZeros => realZeros.list.SetSelected(None);
        case ComplexPoles => complexPoles.list.SetSelected(None);
        case ComplexZeros => complexZeros.list.SetSelected(None);
      }
      SelectChanged(n, None);
    }
  }

  /**
   * Assigning a slave list property inside `do_setup`: the list takes the
   * validated value and logs its changes, which report one selection per
   * element placed and at most one more for the pops; no setup runs.
   */
  method AssignInSetup<E>(p: ListProperty<E>, val: seq<E>) returns (from: nat, ghost log: seq<Change>)
    requires p.host.setupOngoing && p.forwardsToMaster && !p.callSetup
    modifies p, p.list, p.host
    ensures p.list.items == Map(p.list.norm, val)
    ensures from == old(|p.list.changes|) && p.list.changes == old(p.list.changes) + log
    ensures |val| <= Selects(log) <= |val| + (if |val| < old(|p.list.items|) then 1 else 0)
    ensures Selects(log) > 0 ==> LastSelect(log) == Some(p.list.selected)
    ensures Selects(log) == 0 ==> p.list.selected == old(p.list.selected)
    ensures !p.callSetup && p.host.setupOngoing && p.host.setupCalls == old(p.host.setupCalls)
  {
    from := |p.list.changes|;
    log := SetValueLog(p.list.items, p.list.selected, Map(p.list.norm, val));
    SetValueSelects(p.list.items, p.list.selected, Map(p.list.norm, val));
    p.Assign(val);
  }

  lemma MapRealNorm(f: real -> real, val: seq<real>)
    requires forall v :: f(v) == RealNorm(false, v)
    ensures Map(f, val) == NormReals(false, val)
  {
  }

  lemma MapComplexNorm(f: Complex -> Complex, val: seq<Complex>)
    requires forall c :: f(c) == ComplexNorm(false, c)
    ensures Map(f, val) == NormComplexes(false, val)
  {
  }

  /** The selections after the handler's loop has cleared the first `i` names other than `n`. */
  function Cleared(s: Quad<Option<nat>>, n: ListName, i: nat): Quad<Option<nat>>
    requires i <= |ALL_LISTS|
  {
    if i == 0 then s
    else
      var m := ALL_LISTS[i - 1];
      var t := Cleared(s, n, i - 1);
      if m == n then t else t.With(m, None)
  }

  /** Once the loop has been through every name, only `n` can still be selected. */
  lemma ClearedAll(s: Quad<Option<nat>>, n: ListName)
    ensures Cleared(s, n, 4) == Only(n, s.Get(n))
  {
    assert Cleared(s, n, 1) == if n == RealPoles then s else s.With(RealPoles, None);
    assert Cleared(s, n, 2) == if n == RealZeros then Cleared(s, n, 1) else Cleared(s, n, 1).With(RealZeros, None);
    assert Cleared(s, n, 3) == if n == ComplexPoles then Cleared(s, n, 2) else Cleared(s, n, 2).With(ComplexPoles, None);
    assert Cleared(s, n, 4) == if n == ComplexZeros then Cleared(s, n, 3) else Cleared(s, n, 3).With(ComplexZeros, None);
    match n {
      case RealPoles => assert Cleared(s, n, 4) == Quad(s.rp, None, None, None);
      case RealZeros => assert Cleared(s, n, 4) == Quad(None, s.rz, None, None);
      case ComplexPoles => assert Cleared(s, n, 4) == Quad(None, None, s.cp, None);
      case ComplexZeros => assert Cleared(s, n, 4) == Quad(None, None, None, s.cz);
    }
  }
}
