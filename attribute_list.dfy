/**
 * AttributeList: the list an attribute-list property hands out. Every
 * edit validates its element, edits the list in place and reports the
 * change to the owning property (`list_changed`), which may call the
 * module's setup. The list tracks a selected index.
 */
module AttributeLists {
  import opened Common
  import Modules

  // ------------------------------------------------------------ Python indices

  /** `xs[i]` for a Python index: negative indices count from the end. */
  function PyIndex(i: int, n: nat): (k: Option<nat>)
    ensures k.Some? <==> -(n as int) <= i < n
    ensures k.Some? ==> k.value < n && (if i >= 0 then k.value == i else k.value == i + n)
  {
    if 0 <= i < n then Some(i) else if -(n as int) <= i < 0 then Some(i + n) else None
  }

  /** Where `list.insert(i, x)` puts `x`: negative indices count from the end, out-of-range ones are clamped. */
  function InsertPosition(i: int, n: nat): (p: nat)
    ensures p <= n
    ensures 0 <= i <= n ==> p == i
    ensures -(n as int) <= i < 0 ==> p == i + n
    ensures i > n ==> p == n
    ensures i < -(n as int) ==> p == 0
  {
    if i > n then n else if i >= 0 then i else if i + n >= 0 then i + n else 0
  }

  /** `list.index(x)`: the first position of `x`. */
  function FirstIndex<E(==)>(xs: seq<E>, x: E): (k: nat)
    requires x in xs
    ensures k < |xs| && xs[k] == x
    ensures forall j :: 0 <= j < k ==> xs[j] != x
  {
    if xs[0] == x then 0 else 1 + FirstIndex(xs[1..], x)
  }

  /**
   * `_get_unique_index`: the first position of the element at Python index
   * `index`; None for no index and for an index out of range.
   */
  function UniqueIndex<E(==)>(xs: seq<E>, index: Option<int>): (k: Option<nat>)
    ensures k.Some? <==> index.Some? && PyIndex(index.value, |xs|).Some?
    ensures k.Some? ==> k.value < |xs| && xs[k.value] == xs[PyIndex(index.value, |xs|).value]
    ensures k.Some? ==> forall j :: 0 <= j < k.value ==> xs[j] != xs[k.value]
  {
    if index.None? || PyIndex(index.value, |xs|).None? then None
    else Some(FirstIndex(xs, xs[PyIndex(index.value, |xs|).value]))
  }

  /** `k` is the first position of its element. */
  predicate IsFirst<E(==)>(xs: seq<E>, k: nat)
  {
    k < |xs| && forall j :: 0 <= j < k ==> xs[j] != xs[k]
  }

  function Map<E>(f: E -> E, xs: seq<E>): (ys: seq<E>)
    ensures |ys| == |xs|
    ensures forall i :: 0 <= i < |xs| ==> ys[i] == f(xs[i])
  {
    seq(|xs|, i requires 0 <= i < |xs| => f(xs[i]))
  }

  /** Mapping one more element of a prefix adds its image at the end. */
  lemma {:induction false} MapSnoc<E>(f: E -> E, xs: seq<E>, i: nat)
    requires i < |xs|
    ensures Map(f, xs[..i + 1]) == Map(f, xs[..i]) + [f(xs[i])]
  {
    assert xs[..i + 1][i] == xs[i];
    assert forall j :: 0 <= j < i ==> xs[..i + 1][j] == xs[..i][j];
  }

  function Reversed<E>(xs: seq<E>): (ys: seq<E>)
    ensures |ys| == |xs|
    ensures forall i :: 0 <= i < |xs| ==> ys[i] == xs[|xs| - 1 - i]
  {
    seq(|xs|, i requires 0 <= i < |xs| => xs[|xs| - 1 - i])
  }

  // ------------------------------------------------------------ list_changed

  datatype Operation = Insert | SetItem | DelItem | Select

  /** One call of `list_changed`: the operation and the index it reports. */
  datatype Change = Change(op: Operation, index: Option<int>)

  function OperationName(op: Operation): string
  {
    match op
    case Insert => "insert"
    case SetItem => "setitem"
    case DelItem => "delitem"
    case Select => "select"
  }

  /** The number of selections a change log reports. */
  function Selects(cs: seq<Change>): (k: nat)
    ensures k <= |cs|
  {
    if cs == [] then 0 else Selects(cs[..|cs| - 1]) + (if cs[|cs| - 1].op == Select then 1 else 0)
  }

  /** The index the last selection of a log reports; None when the log selects nothing. */
  function LastSelect(cs: seq<Change>): (s: Option<Option<int>>)
    ensures s.Some? <==> Selects(cs) > 0
  {
    if cs == [] then None
    else if cs[|cs| - 1].op == Select then Some(cs[|cs| - 1].index)
    else LastSelect(cs[..|cs| - 1])
  }

  lemma {:induction false} SelectsAppend(a: seq<Change>, b: seq<Change>)
    ensures Selects(a + b) == Selects(a) + Selects(b)
    ensures LastSelect(a + b) == if Selects(b) > 0 then LastSelect(b) else LastSelect(a)
    decreases |b|
  {
    if b == [] {
      assert a + b == a;
    } else {
      var k := |b| - 1;
      assert (a + b)[..|a + b| - 1] == a + b[..k];
      SelectsAppend(a, b[..k]);
    }
  }

  /** Reading one more change of a log: a selection counts and becomes the last one; anything else changes neither. */
  lemma {:induction false} SelectsStep(log: seq<Change>, from: nat, j: nat)
    requires from <= j < |log|
    ensures Selects(log[from..j + 1]) == Selects(log[from..j]) + (if log[j].op == Select then 1 else 0)
    ensures LastSelect(log[from..j + 1]) == if log[j].op == Select then Some(log[j].index) else LastSelect(log[from..j])
  {
    assert log[from..j + 1][..j - from] == log[from..j];
  }

  /**
   * The two changes of placing position `i` by `current[i] = v` or by an
   * append: a replacement below `kept`, an insertion at or past it, each
   * followed by the selection of the first position of the element placed.
   */
  function EditStep<E(==)>(items: seq<E>, kept: nat, i: nat): seq<Change>
    requires i < |items|
  {
    [Change(if i < kept then SetItem else Insert, Some(i)), Change(Select, UniqueIndex(items, Some(i)))]
  }

  /** The changes of placing positions `lo` to `hi - 1` in turn, as `set_value`, `extend` and `reverse` do. */
  function EditLog<E(==)>(items: seq<E>, kept: nat, lo: nat, hi: nat): (log: seq<Change>)
    requires lo <= hi <= |items|
    ensures |log| == 2 * (hi - lo)
    decreases hi - lo
  {
    if lo == hi then [] else EditLog(items, kept, lo, hi - 1) + EditStep(items, kept, hi - 1)
  }

  /** Every placement reports one selection, and the last one selects the element placed last. */
  lemma {:induction false} EditLogSelects<E>(items: seq<E>, kept: nat, lo: nat, hi: nat)
    requires lo <= hi <= |items|
    ensures Selects(EditLog(items, kept, lo, hi)) == hi - lo
    ensures lo < hi ==> LastSelect(EditLog(items, kept, lo, hi)) == Some(UniqueIndex(items, Some(hi - 1)))
    decreases hi - lo
  {
    if lo < hi {
      var step := EditStep(items, kept, hi - 1);
      assert step[..1][..0] == [] && step[..1] == [step[0]];
      EditLogSelects(items, kept, lo, hi - 1);
      SelectsAppend(EditLog(items, kept, lo, hi - 1), step);
    }
  }

  /** The first position of the element at `i` depends only on the elements up to `i`. */
  lemma {:induction false} UniqueIndexPrefix<E>(xs: seq<E>, ys: seq<E>, i: nat, n: nat)
    requires i < n <= |xs| && n <= |ys| && xs[..n] == ys[..n]
    ensures UniqueIndex(xs, Some(i)) == UniqueIndex(ys, Some(i))
  {
    assert forall j :: 0 <= j < n ==> xs[j] == xs[..n][j] == ys[..n][j] == ys[j];
    var x := xs[i];
    var a := FirstIndex(xs, x);
    var b := FirstIndex(ys, x);
    assert a <= i && b <= i;
    assert ys[a] == x && xs[b] == x;
  }

  /** An edit log depends only on the elements up to `hi`. */
  lemma {:induction false} EditLogPrefix<E>(xs: seq<E>, ys: seq<E>, kept: nat, lo: nat, hi: nat)
    requires lo <= hi <= |xs| && hi <= |ys| && xs[..hi] == ys[..hi]
    ensures EditLog(xs, kept, lo, hi) == EditLog(ys, kept, lo, hi)
    decreases hi - lo
  {
    if lo < hi {
      assert xs[..hi - 1] == xs[..hi][..hi - 1] && ys[..hi - 1] == ys[..hi][..hi - 1];
      EditLogPrefix(xs, ys, kept, lo, hi - 1);
      UniqueIndexPrefix(xs, ys, hi - 1, hi);
    }
  }

  /** Placing position `i` extends the log of the positions before it, which the placement leaves alone. */
  lemma {:induction false} EditLogStep<E>(before: seq<E>, items: seq<E>, kept: nat, lo: nat, i: nat)
    requires lo <= i < |items| && i <= |before| && before[..i] == items[..i]
    ensures EditLog(items, kept, lo, i + 1) == EditLog(before, kept, lo, i) + EditStep(items, kept, i)
  {
    EditLogPrefix(before, items, kept, lo, i);
  }

  /** The last position at or after `lo` holding `x`. */
  function LastFrom<E(==)>(xs: seq<E>, lo: nat, x: E): (p: Option<nat>)
    requires lo <= |xs|
    ensures p.Some? ==> lo <= p.value < |xs| && xs[p.value] == x && forall j :: p.value < j < |xs| ==> xs[j] != x
    ensures p.None? ==> forall j :: lo <= j < |xs| ==> xs[j] != x
    decreases |xs| - lo
  {
    if lo == |xs| then None
    else match LastFrom(xs, lo + 1, x)
      case Some(p) => Some(p)
      case None => if xs[lo] == x then Some(lo) else None
  }

  /**
   * The position whose `pop()` clears the selection `sel` when a list is
   * popped from the end down to `lo` elements: only a selection that is
   * the first position of its element is ever cleared, by the pop of the
   * last position at or past `lo` holding that element.
   */
  function UnselectAt<E(==)>(xs: seq<E>, sel: Option<nat>, lo: nat): (at: Option<nat>)
    requires lo <= |xs|
    ensures at.Some? ==> lo <= at.value < |xs| && sel.Some? && IsFirst(xs, sel.value) && xs[at.value] == xs[sel.value]
    ensures sel.Some? && IsFirst(xs, sel.value) && lo <= sel.value ==> at.Some?
  {
    if sel.Some? && IsFirst(xs, sel.value) then LastFrom(xs, lo, xs[sel.value]) else None
  }

  /** The changes of one `pop()` of position `p`: clearing the selection first when `p` is `at`. */
  function PopStep(at: Option<nat>, p: nat): seq<Change>
  {
    (if at == Some(p) then [Change(Select, None)] else []) + [Change(DelItem, Some(-1))]
  }

  /** The changes of popping the last element of a list of `hi` until `lo` are left. */
  function PopLog(lo: nat, hi: nat, at: Option<nat>): (log: seq<Change>)
    requires lo <= hi
    ensures |log| == hi - lo + (if at.Some? && lo <= at.value < hi then 1 else 0)
    decreases hi - lo
  {
    if lo == hi then [] else PopLog(lo + 1, hi, at) + PopStep(at, lo)
  }

  lemma {:induction false} PopStepSelects(at: Option<nat>, p: nat)
    ensures Selects(PopStep(at, p)) == (if at == Some(p) then 1 else 0)
    ensures at == Some(p) ==> LastSelect(PopStep(at, p)) == Some(None)
  {
    var del := [Change(DelItem, Some(-1))];
    assert del[..0] == [];
    if at == Some(p) {
      var step := [Change(Select, None)] + del;
      assert step[..1] == [Change(Select, None)] && step[..1][..0] == [];
    }
  }

  /** Popping reports one selection, of nothing, exactly when it reaches `at`. */
  lemma {:induction false} PopLogSelects(lo: nat, hi: nat, at: Option<nat>)
    requires lo <= hi
    ensures Selects(PopLog(lo, hi, at)) == (if at.Some? && lo <= at.value < hi then 1 else 0)
    ensures Selects(PopLog(lo, hi, at)) > 0 ==> LastSelect(PopLog(lo, hi, at)) == Some(None)
    decreases hi - lo
  {
    if lo < hi {
      var rest := PopLog(lo + 1, hi, at);
      var step := PopStep(at, lo);
      assert PopLog(lo, hi, at) == rest + step;
      PopStepSelects(at, lo);
      PopLogSelects(lo + 1, hi, at);
      SelectsAppend(rest, step);
    }
  }

  /**
   * The selection `set_value(ys)` leaves on a list holding `xs` with
   * selection `sel`: for a non-empty `ys`, nothing or the first position
   * of the last element placed.
   */
  function SetValueSelection<E(==)>(xs: seq<E>, sel: Option<nat>, ys: seq<E>): (s: Option<nat>)
    ensures ys == [] ==> s == sel || s == None
    ensures ys != [] && s.Some? ==> s.value < |ys| && ys[s.value] == ys[|ys| - 1]
    ensures ys != [] && s.Some? ==> forall j :: 0 <= j < s.value ==> ys[j] != ys[s.value]
  {
    var mid := Overwritten(xs, ys);
    var placed := if ys == [] then sel else UniqueIndex(mid, Some(|ys| - 1));
    if UnselectAt(mid, placed, |ys|).Some? then None else placed
  }

  /**
   * The changes `set_value(ys)` reports on a list holding `xs` with
   * selection `sel`: two for each placement, then one for each pop, and
   * at most one clearing of the selection.
   */
  function SetValueLog<E(==)>(xs: seq<E>, sel: Option<nat>, ys: seq<E>): (log: seq<Change>)
    ensures var base := 2 * |ys| + (if |ys| < |xs| then |xs| - |ys| else 0);
      base <= |log| <= base + 1
  {
    var mid := Overwritten(xs, ys);
    var placed := if ys == [] then sel else UniqueIndex(mid, Some(|ys| - 1));
    EditLog(mid, |xs|, 0, |ys|) + PopLog(|ys|, |mid|, UnselectAt(mid, placed, |ys|))
  }

  /**
   * What `set_value` reports about the selection: placing elements selects
   * at least once, and the last selection it reports is the one it leaves.
   */
  lemma {:induction false} SetValueSelects<E>(xs: seq<E>, sel: Option<nat>, ys: seq<E>)
    ensures |ys| <= Selects(SetValueLog(xs, sel, ys)) <= |ys| + (if |ys| < |xs| then 1 else 0)
    ensures Selects(SetValueLog(xs, sel, ys)) == 0 ==> SetValueSelection(xs, sel, ys) == sel
    ensures Selects(SetValueLog(xs, sel, ys)) > 0 ==> LastSelect(SetValueLog(xs, sel, ys)) == Some(SetValueSelection(xs, sel, ys))
  {
    var mid := Overwritten(xs, ys);
    var placed := if ys == [] then sel else UniqueIndex(mid, Some(|ys| - 1));
    var at := UnselectAt(mid, placed, |ys|);
    EditLogSelects(mid, |xs|, 0, |ys|);
    PopLogSelects(|ys|, |mid|, at);
    SelectsAppend(EditLog(mid, |xs|, 0, |ys|), PopLog(|ys|, |mid|, at));
  }

  /**
   * One pop of position `len - 1` while the selection `s0` is still set:
   * `__delitem__` clears it exactly when the popped position is the one
   * `UnselectAt` names.
   */
  lemma {:induction false} PopUnselects<E>(xs: seq<E>, s0: Option<nat>, lo: nat, len: nat)
    requires lo < len <= |xs|
    requires var at := UnselectAt(xs, s0, lo); at.None? || at.value < len
    ensures s0 == UniqueIndex(xs[..len], Some(-1)) <==> UnselectAt(xs, s0, lo) == Some(len - 1)
  {
    var ys := xs[..len];
    assert forall j :: 0 <= j < len ==> ys[j] == xs[j];
    var f := FirstIndex(ys, ys[len - 1]);
    assert UniqueIndex(ys, Some(-1)) == Some(f);
    if s0 == Some(f) {
      assert IsFirst(xs, f);
      assert xs[len - 1] == xs[f];
    }
    if UnselectAt(xs, s0, lo) == Some(len - 1) {
      var k := s0.value;
      assert xs[len - 1] == xs[k];
      assert k <= len - 1;
      assert ys[k] == xs[k];
      assert f <= k;
    }
  }

  // ------------------------------------------------------------ AttributeList

  class AttributeList<E(==)> {
    /** `validate_and_normalize_element` of the owning property. */
    const norm: E -> E
    /** The element `insert` uses when given none. */
    const defaultElement: E
    var items: seq<E>
    var selected: Option<nat>
    /** Every `list_changed` call so far. */
    var changes: seq<Change>

    /** The list is made from the property's default as it is, without validation. */
    constructor (norm: E -> E, defaultElement: E, initial: seq<E>)
      ensures this.norm == norm && this.defaultElement == defaultElement
      ensures items == initial && selected == None && changes == []
    {
      this.norm := norm;
      this.defaultElement := defaultElement;
      items := initial;
      selected := None;
      changes := [];
    }

    /** The `selected` setter: keeps the first position of the element at `index`. */
    method SetSelected(index: Option<int>)
      modifies this
      ensures items == old(items)
      ensures selected == UniqueIndex(items, index)
      ensures changes == old(changes) + [Change(Select, selected)]
    {
      selected := UniqueIndex(items, index);
      changes := changes + [Change(Select, selected)];
    }

    /** `insert`: validates, inserts, reports, then selects `index`. */
    method InsertAt(index: int, elem: Option<E>)
      modifies this
      ensures var e := norm(if elem.Some? then elem.value else defaultElement);
        var p := InsertPosition(index, |old(items)|);
        items == old(items)[..p] + [e] + old(items)[p..]
      ensures selected == UniqueIndex(items, Some(index))
      ensures changes == old(changes) + [Change(Insert, Some(index)), Change(Select, selected)]
    {
      var e := norm(if elem.Some? then elem.value else defaultElement);
      var p := InsertPosition(index, |items|);
      items := items[..p] + [e] + items[p..];
      changes := changes + [Change(Insert, Some(index))];
      SetSelected(Some(index));
    }

    /** `__setitem__`: validates, replaces (IndexError out of range), reports, then selects `index`. */
    method SetItemAt(index: int, value: E) returns (r: Result<()>)
      modifies this
      ensures PyIndex(index, |old(items)|).None? ==>
        r == Fail(IndexError) && items == old(items) && selected == old(selected) && changes == old(changes)
      ensures PyIndex(index, |old(items)|).Some? ==>
        && r == Ok(())
        && items == old(items)[PyIndex(index, |old(items)|).value := norm(value)]
        && selected == UniqueIndex(items, Some(index))
        && changes == old(changes) + [Change(SetItem, Some(index)), Change(Select, selected)]
    {
      var e := norm(value);
      var k := PyIndex(index, |items|);
      if k.None? {
        return Fail(IndexError);
      }
      items := items[k.value := e];
      changes := changes + [Change(SetItem, Some(index))];
      SetSelected(Some(index));
      r := Ok(());
    }

    /**
     * `__delitem__`: clears the selection when it is the element at
     * `index`, then removes that element (IndexError out of range) and
     * reports. Other selections are kept as they are.
     */
    method DelItemAt(index: int) returns (r: Result<()>)
      modifies this
      ensures var unselect := old(selected) == UniqueIndex(old(items), Some(index));
        && selected == (if unselect then None else old(selected))
        && (PyIndex(index, |old(items)|).None? ==>
              r == Fail(IndexError) && items == old(items)
              && changes == old(changes) + (if unselect then [Change(Select, None)] else []))
        && (PyIndex(index, |old(items)|).Some? ==>
              var k := PyIndex(index, |old(items)|).value;
              && r == Ok(())
              && items == old(items)[..k] + old(items)[k + 1..]
              && changes == old(changes) + (if unselect then [Change(Select, None)] else []) + [Change(DelItem, Some(index))])
    {
      if selected == UniqueIndex(items, Some(index)) {
        SetSelected(None);
      }
      var k := PyIndex(index, |items|);
      if k.None? {
        return Fail(IndexError);
      }
      items := items[..k.value] + items[k.value + 1..];
      changes := changes + [Change(DelItem, Some(index))];
      r := Ok(());
    }

    /** `select` as written: `list.index` raises ValueError for a missing value, which the handler for IndexError lets through. */
    method SelectAsWritten(value: E) returns (r: Result<()>)
      modifies this
      ensures value !in old(items) ==>
        r == Fail(ValueError) && items == old(items) && selected == old(selected) && changes == old(changes)
      ensures value in old(items) ==>
        r == Ok(()) && items == old(items) && selected == Some(FirstIndex(items, value))
        && changes == old(changes) + [Change(Select, selected)]
    {
      if value !in items {
        return Fail(ValueError);
      }
      SetSelected(Some(FirstIndex(items, value)));
      r := Ok(());
    }

    /** `select` as documented: selects the first element equal to `value`, or nothing when there is none. */
    method SelectValue(value: E)
      modifies this
      ensures items == old(items)
      ensures selected == if value in items then Some(FirstIndex(items, value)) else None
      ensures changes == old(changes) + [Change(Select, selected)]
    {
      if value in items {
        SetSelected(Some(FirstIndex(items, value)));
      } else {
        SetSelected(None);
      }
    }

    /** `append`: inserts at the end and selects the first element equal to the new one. */
    method Append(elem: Option<E>)
      modifies this
      ensures items == old(items) + [norm(if elem.Some? then elem.value else defaultElement)]
      ensures selected == Some(FirstIndex(items, items[|items| - 1]))
      ensures changes == old(changes) + [Change(Insert, Some(|old(items)|)), Change(Select, selected)]
    {
      InsertAt(|items|, elem);
      assert items[..] == old(items) + [norm(if elem.Some? then elem.value else defaultElement)];
    }

    /** `extend`: appends every element in turn. */
    method Extend(xs: seq<E>)
      modifies this
      ensures items == old(items) + Map(norm, xs)
      ensures xs == [] ==> selected == old(selected)
      ensures xs != [] ==> selected == Some(FirstIndex(items, norm(xs[|xs| - 1])))
      ensures changes == old(changes) + EditLog(items, |old(items)|, |old(items)|, |items|)
    {
      var i := 0;
      while i < |xs|
        invariant i <= |xs|
        invariant Extending(old(items), Map(norm, xs[..i]), old(selected), old(changes), items, selected, changes)
      {
        ghost var before, selBefore, logBefore := items, selected, changes;
        Append(Some(xs[i]));
        ExtendingStep(old(items), Map(norm, xs[..i]), old(selected), old(changes), norm(xs[i]),
                      before, selBefore, logBefore, items, selected, changes);
        MapSnoc(norm, xs, i);
        i := i + 1;
      }
      assert xs[..i] == xs;
    }

    /** `pop`: the element at `index` (IndexError out of range), removed as by `__delitem__`. */
    method Pop(index: int) returns (r: Result<E>)
      modifies this
      ensures PyIndex(index, |old(items)|).None? ==>
        r == Fail(IndexError) && items == old(items) && selected == old(selected) && changes == old(changes)
      ensures PyIndex(index, |old(items)|).Some? ==>
        var k := PyIndex(index, |old(items)|).value;
        var unselect := old(selected) == UniqueIndex(old(items), Some(index));
        && r == Ok(old(items)[k])
        && items == old(items)[..k] + old(items)[k + 1..]
        && selected == (if unselect then None else old(selected))
        && changes == old(changes) + (if unselect then [Change(Select, None)] else []) + [Change(DelItem, Some(index))]
    {
      var k := PyIndex(index, |items|);
      if k.None? {
        return Fail(IndexError);
      }
      var item := items[k.value];
      var _ := DelItemAt(index);
      r := Ok(item);
    }

    /** `remove`: deletes the first element equal to `value`; ValueError when there is none. */
    method Remove(value: E) returns (r: Result<()>)
      modifies this
      ensures value !in old(items) ==>
        r == Fail(ValueError) && items == old(items) && selected == old(selected) && changes == old(changes)
      ensures value in old(items) ==>
        var k := FirstIndex(old(items), value);
        && r == Ok(())
        && items == old(items)[..k] + old(items)[k + 1..]
        && selected == (if old(selected) == Some(k) then None else old(selected))
        && changes == old(changes) + (if old(selected) == Some(k) then [Change(Select, None)] else []) + [Change(DelItem, Some(k))]
    {
      if value !in items {
        return Fail(ValueError);
      }
      var k := FirstIndex(items, value);
      r := DelItemAt(k);
    }

    /**
     * `clear`: deletes the last element until the list is empty. A
     * selection that is the first position of its element is cleared on
     * the way, when the last position holding that element goes; any other
     * selection is left as it was.
     */
    method Clear()
      modifies this
      ensures items == []
      ensures selected == if old(selected).Some? && IsFirst(old(items), old(selected).value) then None else old(selected)
      ensures changes == old(changes) + PopLog(0, |old(items)|, UnselectAt(old(items), old(selected), 0))
    {
      ghost var xs := items;
      ghost var s0 := selected;
      ghost var at := UnselectAt(xs, s0, 0);
      while |items| > 0
        invariant items == xs[..|items|]
        invariant selected == if at.Some? && at.value >= |items| then None else s0
        invariant changes == old(changes) + PopLog(|items|, |xs|, at)
        decreases |items|
      {
        var n := |items|;
        if !(at.Some? && at.value >= n) {
          PopUnselects(xs, s0, 0, n);
        }
        var _ := DelItemAt(-1);
        assert items == xs[..n - 1];
      }
    }

    /** `reverse`: assigns the reversed copy element by element; the last assignment selects. */
    method Reverse()
      modifies this
      ensures items == Map(norm, Reversed(old(items)))
      ensures old(items) != [] ==> selected == UniqueIndex(items, Some(|items| - 1))
      ensures old(items) == [] ==> selected == old(selected)
      ensures changes == old(changes) + EditLog(items, |items|, 0, |items|)
    {
      var copy := Reversed(items);
      var i := 0;
      while i < |copy|
        invariant i <= |copy| && |items| == |copy|
        invariant Overwriting(old(items), Map(norm, copy[..i]), old(selected), old(changes), items, selected, changes)
      {
        ghost var before, selBefore, logBefore := items, selected, changes;
        var _ := SetItemAt(i, copy[i]);
        OverwritingStep(old(items), Map(norm, copy[..i]), old(selected), old(changes), norm(copy[i]),
                        before, selBefore, logBefore, items, selected, changes);
        MapSnoc(norm, copy, i);
        i := i + 1;
      }
      assert copy[..i] == copy;
      OverwritingDone(old(items), Map(norm, copy), old(selected), old(changes), items, selected, changes);
    }
  }

  /** The list after the first loop of `set_value`: the new elements over the old ones, the old tail kept. */
  function Overwritten<E>(xs: seq<E>, ys: seq<E>): (zs: seq<E>)
    ensures |zs| == Max(|xs|, |ys|)
    ensures zs[..|ys|] == ys
    ensures forall j :: |ys| <= j < |xs| ==> zs[j] == xs[j]
  {
    if |ys| < |xs| then ys + xs[|ys|..] else ys
  }

  /**
   * The state part-way through the first loop of `set_value`, with `ys`
   * placed over the original `xs`: the list, its selection and its log.
   */
  ghost predicate Overwriting<E>(xs: seq<E>, ys: seq<E>, sel0: Option<nat>, log0: seq<Change>,
                                     items: seq<E>, sel: Option<nat>, log: seq<Change>)
  {
    && items == Overwritten(xs, ys)
    && (ys == [] ==> sel == sel0)
    && (ys != [] ==> sel == UniqueIndex(items, Some(|ys| - 1)))
    && log == log0 + EditLog(items, |xs|, 0, |ys|)
  }

  lemma {:induction false} OverwritingStep<E>(xs: seq<E>, ys: seq<E>, sel0: Option<nat>, log0: seq<Change>, e: E,
                           before: seq<E>, selBefore: Option<nat>, logBefore: seq<Change>,
                           items: seq<E>, sel: Option<nat>, log: seq<Change>)
    requires Overwriting(xs, ys, sel0, log0, before, selBefore, logBefore)
    requires items == if |ys| < |before| then before[|ys| := e] else before + [e]
    requires sel == UniqueIndex(items, Some(|ys|))
    requires log == logBefore + EditStep(items, |before|, |ys|)
    ensures Overwriting(xs, ys + [e], sel0, log0, items, sel, log)
  {
    OverwriteStep(xs, ys, e);
    OverwrittenPrefix(xs, ys, e);
    assert (|ys| < |before|) == (|ys| < |xs|);
    EditLogStep(before, items, |xs|, 0, |ys|);
    var step := EditStep(items, |xs|, |ys|);
    assert EditStep(items, |before|, |ys|) == step;
    ConcatAssoc(log0, EditLog(before, |xs|, 0, |ys|), step);
  }

  /** Once as many elements are placed as there were, the list is the placed ones. */
  lemma OverwritingDone<E>(xs: seq<E>, ys: seq<E>, sel0: Option<nat>, log0: seq<Change>,
                           items: seq<E>, sel: Option<nat>, log: seq<Change>)
    requires Overwriting(xs, ys, sel0, log0, items, sel, log) && |ys| == |xs|
    ensures items == ys && |items| == |xs|
    ensures ys == [] ==> sel == sel0
    ensures ys != [] ==> sel == UniqueIndex(items, Some(|items| - 1))
    ensures log == log0 + EditLog(items, |items|, 0, |items|)
  {
  }

  /** One more step of the first loop leaves the positions already placed alone. */
  lemma {:induction false} OverwrittenPrefix<E>(xs: seq<E>, ys: seq<E>, e: E)
    ensures Overwritten(xs, ys + [e])[..|ys|] == Overwritten(xs, ys)[..|ys|]
  {
    var n := |ys|;
    var zs := Overwritten(xs, ys + [e]);
    assert zs[..n] == zs[..n + 1][..n] == (ys + [e])[..n] == ys;
  }

  /** The state part-way through `extend`, with `ys` appended to the original `xs`. */
  ghost predicate Extending<E>(xs: seq<E>, ys: seq<E>, sel0: Option<nat>, log0: seq<Change>,
                               items: seq<E>, sel: Option<nat>, log: seq<Change>)
  {
    && items == xs + ys
    && (ys == [] ==> sel == sel0)
    && (ys != [] ==> sel == Some(FirstIndex(items, items[|items| - 1])))
    && log == log0 + EditLog(items, |xs|, |xs|, |items|)
  }

  lemma ConcatAssoc<E>(a: seq<E>, b: seq<E>, c: seq<E>)
    ensures (a + b) + c == a + (b + c)
  {
  }

  lemma {:induction false} ExtendingStep<E>(xs: seq<E>, ys: seq<E>, sel0: Option<nat>, log0: seq<Change>, e: E,
                         before: seq<E>, selBefore: Option<nat>, logBefore: seq<Change>,
                         items: seq<E>, sel: Option<nat>, log: seq<Change>)
    requires Extending(xs, ys, sel0, log0, before, selBefore, logBefore)
    requires items == before + [e]
    requires sel == Some(FirstIndex(items, items[|items| - 1]))
    requires log == logBefore + [Change(Insert, Some(|before|)), Change(Select, sel)]
    ensures Extending(xs, ys + [e], sel0, log0, items, sel, log)
  {
    ConcatAssoc(xs, ys, [e]);
    assert items[..|before|] == before;
    EditLogStep(before, items, |xs|, |xs|, |before|);
    var step := EditStep(items, |xs|, |before|);
    assert step == [Change(Insert, Some(|before|)), Change(Select, sel)];
    ConcatAssoc(log0, EditLog(before, |xs|, |xs|, |before|), step);
  }

  /** One step of the first loop of `set_value`: overwriting position `|ys|`, or appending past the end. */
  lemma {:induction false} OverwriteStep<E>(xs: seq<E>, ys: seq<E>, e: E)
    ensures var zs := Overwritten(xs, ys);
      (if |ys| < |zs| then zs[|ys| := e] else zs + [e]) == Overwritten(xs, ys + [e])
  {
    if |ys| < |xs| {
      var zs := ys + xs[|ys|..];
      assert zs[|ys| := e] == (ys + [e]) + xs[|ys| + 1..];
    }
  }

  // ---------------------------------------------- BasePropertyListProperty

  /**
   * The property that owns a list: its `call_setup` flag and the module it
   * belongs to. The list reports each change to the property's
   * `list_changed`; a method here that edits the list passes the changes
   * the edit logged on, in order. `forwardsToMaster` marks the pole and
   * zero lists of the IIR, whose `value_updated` also runs that of a master
   * property with `call_setup`; `ownerHandlesSelect` marks them too, since
   * their `list_changed` hands selections to the IIR's own handler.
   */
  class ListProperty<E(==)> {
    const list: AttributeList<E>
    const host: Modules.Module
    const forwardsToMaster: bool
    const ownerHandlesSelect: bool
    var callSetup: bool

    constructor (list: AttributeList<E>, host: Modules.Module, callSetup: bool, forwardsToMaster: bool, ownerHandlesSelect: bool)
      ensures this.list == list && this.host == host
      ensures this.callSetup == callSetup && this.forwardsToMaster == forwardsToMaster
      ensures this.ownerHandlesSelect == ownerHandlesSelect
    {
      this.list := list;
      this.host := host;
      this.callSetup := callSetup;
      this.forwardsToMaster := forwardsToMaster;
      this.ownerHandlesSelect := ownerHandlesSelect;
    }

    /** The runs of setup one `value_updated` call causes in the current state. */
    function SetupsPerUpdate(): (k: nat)
      reads this, host
      ensures k <= 2
      ensures host.setupOngoing ==> k == 0
    {
      (if callSetup && !host.setupOngoing then 1 else 0)
      + (if forwardsToMaster && !host.setupOngoing then 1 else 0)
    }

    /** The changes of a log that this property passes to `list_changed` itself: all of them, or all but the selections its owner handles. */
    function Reported(cs: seq<Change>): (k: nat)
      ensures k <= |cs|
      ensures !ownerHandlesSelect ==> k == |cs|
      ensures ownerHandlesSelect ==> k + Selects(cs) == |cs|
    {
      if ownerHandlesSelect then |cs| - Selects(cs) else |cs|
    }

    lemma ReportedSnoc(cs: seq<Change>, c: Change)
      ensures Reported(cs + [c]) == Reported(cs) + (if ownerHandlesSelect && c.op == Select then 0 else 1)
    {
      assert (cs + [c])[..|cs|] == cs;
    }

    /** `value_updated` of the property, and of the master it forwards to. */
    method ValueUpdated()
      modifies host
      ensures host.setupCalls == old(host.setupCalls) + old(SetupsPerUpdate())
      ensures host.setupOngoing == old(host.setupOngoing)
    {
      host.ValueUpdated(callSetup);
      if forwardsToMaster {
        host.ValueUpdated(true);
      }
    }

    /**
     * `list_changed` as written: it skips `value_updated` for an operation
     * called 'selecti', which no operation is, so every change reaches
     * `value_updated`, selections included.
     */
    method ListChanged(op: Operation)
      modifies host
      ensures host.setupCalls == old(host.setupCalls) + old(SetupsPerUpdate())
      ensures host.setupOngoing == old(host.setupOngoing)
    {
      if OperationName(op) != "selecti" {
        ValueUpdated();
      }
    }

    /** `list_changed` as its comment intends it: a selection only launches the signal; every edit reaches `value_updated`. */
    method ListChangedIntended(op: Operation)
      modifies host
      ensures host.setupCalls == old(host.setupCalls) + (if op == Select then 0 else old(SetupsPerUpdate()))
      ensures host.setupOngoing == old(host.setupOngoing)
    {
      if OperationName(op) != "select" {
        ValueUpdated();
      }
    }

    /** Passes the changes the list logged from position `from` on to `list_changed`, skipping the selections the owner handles. */
    method Notify(from: nat)
      requires from <= |list.changes|
      modifies host
      ensures host.setupOngoing == old(host.setupOngoing)
      ensures host.setupCalls == old(host.setupCalls) + old(SetupsPerUpdate()) * Reported(list.changes[from..])
    {
      ghost var per := SetupsPerUpdate();
      ghost var k := 0;
      var j := from;
      while j < |list.changes|
        invariant from <= j <= |list.changes|
        invariant host.setupOngoing == old(host.setupOngoing) && per == SetupsPerUpdate()
        invariant k == Reported(list.changes[from..j])
        invariant host.setupCalls == old(host.setupCalls) + per * k
      {
        var c := list.changes[j];
        ReportedSnoc(list.changes[from..j], c);
        assert list.changes[from..j + 1] == list.changes[from..j] + [c];
        if !(ownerHandlesSelect && c.op == Select) {
          ListChanged(c.op);
          assert per * (k + 1) == per * k + per;
          k := k + 1;
        }
        j := j + 1;
      }
      assert list.changes[from..j] == list.changes[from..];
    }

    /**
     * `list.insert` as seen by the property: the insertion and the
     * selection after it each reach `value_updated`, unless the owner
     * handles the selection.
     */
    method InsertElement(index: int, elem: Option<E>)
      modifies list, host
      ensures list.items == old(list.items)[..InsertPosition(index, |old(list.items)|)]
        + [list.norm(if elem.Some? then elem.value else list.defaultElement)]
        + old(list.items)[InsertPosition(index, |old(list.items)|)..]
      ensures list.selected == UniqueIndex(list.items, Some(index))
      ensures list.changes == old(list.changes) + [Change(Insert, Some(index)), Change(Select, list.selected)]
      ensures host.setupOngoing == old(host.setupOngoing)
      ensures host.setupCalls == old(host.setupCalls) + old(SetupsPerUpdate()) * (if ownerHandlesSelect then 1 else 2)
    {
      var from := |list.changes|;
      list.InsertAt(index, elem);
      ghost var log := list.changes[from..];
      assert log == [] + [log[0]] + [log[1]];
      ReportedSnoc([], log[0]);
      ReportedSnoc([log[0]], log[1]);
      Notify(from);
    }

    /** One step of `set_value`: `current[i] = v`, or an append when `i` is past the end. */
    method OverwriteAt(i: nat, v: E)
      requires i <= |list.items|
      modifies list
      ensures list.items == if i < |old(list.items)| then old(list.items)[i := list.norm(v)] else old(list.items) + [list.norm(v)]
      ensures list.selected == UniqueIndex(list.items, Some(i))
      ensures list.changes == old(list.changes) + EditStep(list.items, |old(list.items)|, i)
    {
      var r := list.SetItemAt(i, v);
      if r.Fail? {
        list.Append(Some(v));
      }
    }

    /** The loop of `set_value` that overwrites each existing element and appends the rest. */
    method OverwriteAll(val: seq<E>)
      modifies list
      ensures list.items == Overwritten(old(list.items), Map(list.norm, val))
      ensures val == [] ==> list.selected == old(list.selected)
      ensures val != [] ==> list.selected == UniqueIndex(list.items, Some(|val| - 1))
      ensures list.changes == old(list.changes) + EditLog(list.items, |old(list.items)|, 0, |val|)
    {
      ghost var xs := list.items;
      var i := 0;
      while i < |val|
        invariant i <= |val|
        invariant Overwriting(xs, Map(list.norm, val[..i]), old(list.selected), old(list.changes), list.items, list.selected, list.changes)
      {
        ghost var before, selBefore, logBefore := list.items, list.selected, list.changes;
        OverwriteAt(i, val[i]);
        OverwritingStep(xs, Map(list.norm, val[..i]), old(list.selected), old(list.changes), list.norm(val[i]),
                        before, selBefore, logBefore, list.items, list.selected, list.changes);
        MapSnoc(list.norm, val, i);
        i := i + 1;
      }
      assert val[..i] == val;
    }

    /** The loop of `set_value` that pops trailing elements until `n` are left. */
    method PopTrailing(n: nat)
      requires n <= |list.items|
      modifies list
      ensures list.items == old(list.items)[..n]
      ensures var at := UnselectAt(old(list.items), old(list.selected), n);
        && list.selected == (if at.Some? then None else old(list.selected))
        && list.changes == old(list.changes) + PopLog(n, |old(list.items)|, at)
    {
      ghost var xs := list.items;
      ghost var s0 := list.selected;
      ghost var at := UnselectAt(xs, s0, n);
      while |list.items| > n
        invariant n <= |list.items| <= |xs|
        invariant list.items == xs[..|list.items|]
        invariant list.selected == if at.Some? && at.value >= |list.items| then None else s0
        invariant list.changes == old(list.changes) + PopLog(|list.items|, |xs|, at)
        decreases |list.items|
      {
        var len := |list.items|;
        if !(at.Some? && at.value >= len) {
          PopUnselects(xs, s0, n, len);
        }
        var _ := list.Pop(-1);
        assert list.items == xs[..len - 1];
      }
    }

    /**
     * The two loops of `set_value`: overwrites the existing elements,
     * appends the rest, then pops what is left over from the end.
     */
    method Overwrite(val: seq<E>)
      modifies list
      ensures list.items == Map(list.norm, val)
      ensures list.selected == SetValueSelection(old(list.items), old(list.selected), Map(list.norm, val))
      ensures list.changes == old(list.changes) + SetValueLog(old(list.items), old(list.selected), Map(list.norm, val))
    {
      OverwriteAll(val);
      ghost var mid := list.items;
      assert mid[..|val|] == Map(list.norm, val);
      PopTrailing(|val|);
    }

    /**
     * `BasePropertyListProperty.set_value`: the two loops run with
     * `call_setup` switched off, which is restored afterwards. Every change
     * reaches `value_updated`, so only a forwarding list runs setup on the
     * way; placing elements selects, and the last selection it reports is
     * the one it leaves.
     */
    method SetValue(val: seq<E>)
      modifies this, list, host
      ensures list.items == Map(list.norm, val)
      ensures list.selected == SetValueSelection(old(list.items), old(list.selected), Map(list.norm, val))
      ensures list.changes == old(list.changes) + SetValueLog(old(list.items), old(list.selected), Map(list.norm, val))
      ensures callSetup == old(callSetup) && host.setupOngoing == old(host.setupOngoing)
      ensures var log := SetValueLog(old(list.items), old(list.selected), Map(list.norm, val));
        && (val != [] ==> Selects(log) > 0)
        && (Selects(log) > 0 ==> LastSelect(log) == Some(list.selected))
        && host.setupCalls == old(host.setupCalls) + (if forwardsToMaster && !host.setupOngoing then Reported(log) else 0)
    {
      var saved := callSetup;
      callSetup := false;
      var from := |list.changes|;
      ghost var log := SetValueLog(list.items, list.selected, Map(list.norm, val));
      SetValueSelects(list.items, list.selected, Map(list.norm, val));
      Overwrite(val);
      assert list.changes[from..] == log;
      ghost var per := SetupsPerUpdate();
      assert per == if forwardsToMaster && !host.setupOngoing then 1 else 0;
      Notify(from);
      assert per * Reported(log) == if forwardsToMaster && !host.setupOngoing then Reported(log) else 0;
      callSetup := saved;
    }

    /**
     * `__set__` on a list property: `set_value`, then `value_updated`,
     * which calls setup unless setup is in progress or not wanted.
     */
    method Assign(val: seq<E>)
      modifies this, list, host
      ensures list.items == Map(list.norm, val)
      ensures list.selected == SetValueSelection(old(list.items), old(list.selected), Map(list.norm, val))
      ensures list.changes == old(list.changes) + SetValueLog(old(list.items), old(list.selected), Map(list.norm, val))
      ensures callSetup == old(callSetup) && host.setupOngoing == old(host.setupOngoing)
      ensures var log := SetValueLog(old(list.items), old(list.selected), Map(list.norm, val));
        && (val != [] ==> Selects(log) > 0)
        && (Selects(log) > 0 ==> LastSelect(log) == Some(list.selected))
        && host.setupCalls == old(host.setupCalls) + old(SetupsPerUpdate())
             + (if forwardsToMaster && !host.setupOngoing then Reported(log) else 0)
    {
      SetValue(val);
      ValueUpdated();
    }
  }

  /** Inserting at a position in range selects the new element, or an equal one before it. */
  lemma InsertSelectsNew<E(!new)>(xs: seq<E>, index: int, e: E)
    requires 0 <= index <= |xs|
    ensures var ys := xs[..index] + [e] + xs[index..];
      var k := UniqueIndex(ys, Some(index));
      && k.Some? && k.value <= index && ys[k.value] == e
      && (e !in xs[..index] ==> k.value == index)
  {
    var ys := xs[..index] + [e] + xs[index..];
    assert ys[index] == e;
    var k := UniqueIndex(ys, Some(index)).value;
    assert forall j :: 0 <= j < index ==> ys[j] == xs[..index][j];
  }
}
