/**
 * Small utilities: order-keeping deduplication, unique module names,
 * dotted attribute paths over an object tree, the repeated-log filter and
 * dictionary sorting.
 */
module PyrplUtils {
  import opened Common

  // ---------------------------------------------------------------- unique_list

  predicate NoDuplicates<T(==,!new)>(xs: seq<T>) {
    forall i, j :: 0 <= i < j < |xs| ==> xs[i] != xs[j]
  }

  /** `xs` without repetitions, each element kept at its last occurrence. */
  function Dedup<T(==,!new)>(xs: seq<T>): (u: seq<T>)
    ensures forall x :: x in u <==> x in xs
  {
    if xs == [] then []
    else if xs[0] in xs[1..] then Dedup(xs[1..])
    else [xs[0]] + Dedup(xs[1..])
  }

  /** Position of the last occurrence of `x` in `xs`. */
  function LastIndex<T(==,!new)>(xs: seq<T>, x: T): (r: nat)
    requires x in xs
    ensures r < |xs| && xs[r] == x
    ensures forall j :: r < j < |xs| ==> xs[j] != x
  {
    if x in xs[1..] then 1 + LastIndex(xs[1..], x) else 0
  }

  /**
   * The list built by walking `xs` backwards and inserting at the front
   * every element not yet present.
   */
  method UniqueList<T(==,!new)>(xs: seq<T>) returns (u: seq<T>)
    ensures u == Dedup(xs)
  {
    u := [];
    var i := |xs|;
    while i > 0
      invariant 0 <= i <= |xs|
      invariant u == Dedup(xs[i..])
    {
      i := i - 1;
      assert xs[i..][1..] == xs[i + 1..];
      if xs[i] !in u {
        u := [xs[i]] + u;
      }
    }
  }

  /**
   * The deduplicated list has every element exactly once and orders the
   * elements by the position of their last occurrence.
   */
  lemma {:induction false} DedupSpec<T(!new)>(xs: seq<T>)
    ensures NoDuplicates(Dedup(xs))
    ensures forall i, j :: 0 <= i < j < |Dedup(xs)| ==>
      LastIndex(xs, Dedup(xs)[i]) < LastIndex(xs, Dedup(xs)[j])
  {
    if xs != [] {
      var t := xs[1..];
      DedupSpec(t);
      var u := Dedup(xs);
      LastIndexTail(xs);
      if xs[0] !in t {
        DedupFront(xs);
      }
    }
  }

  /** Past the head, the last occurrences of the tail move one place up. */
  lemma LastIndexTail<T(!new)>(xs: seq<T>)
    requires xs != []
    ensures forall x :: x in xs[1..] ==> LastIndex(xs, x) == 1 + LastIndex(xs[1..], x)
  {
  }

  /** A head that does not come again is kept first, before the tail's elements. */
  lemma DedupFront<T(!new)>(xs: seq<T>)
    requires xs != [] && xs[0] !in xs[1..]
    requires NoDuplicates(Dedup(xs[1..]))
    requires forall i, j :: 0 <= i < j < |Dedup(xs[1..])| ==>
      LastIndex(xs[1..], Dedup(xs[1..])[i]) < LastIndex(xs[1..], Dedup(xs[1..])[j])
    ensures NoDuplicates(Dedup(xs))
    ensures forall i, j :: 0 <= i < j < |Dedup(xs)| ==>
      LastIndex(xs, Dedup(xs)[i]) < LastIndex(xs, Dedup(xs)[j])
  {
    var t := xs[1..];
    var u := Dedup(xs);
    LastIndexTail(xs);
    assert u == [xs[0]] + Dedup(t);
    forall i, j | 0 <= i < j < |u|
      ensures LastIndex(xs, u[i]) < LastIndex(xs, u[j])
    {
      assert u[j] == Dedup(t)[j - 1];
      if i > 0 {
        assert u[i] == Dedup(t)[i - 1];
      }
    }
    OrderedDistinct(xs, u);
  }

  /** Elements ordered strictly by their last occurrence are distinct. */
  lemma OrderedDistinct<T(!new)>(xs: seq<T>, u: seq<T>)
    requires forall x :: x in u ==> x in xs
    requires forall i, j :: 0 <= i < j < |u| ==> LastIndex(xs, u[i]) < LastIndex(xs, u[j])
    ensures NoDuplicates(u)
  {
  }

  // --------------------------------------------------------- unique module names

  function Digit(d: nat): (c: char)
    requires d < 10
  {
    "0123456789"[d]
  }

  /** Decimal text of `n`, as `str(n)`. */
  function NatStr(n: nat): (s: string)
    ensures |s| > 0
    decreases n
  {
    if n < 10 then [Digit(n)] else NatStr(n / 10) + [Digit(n % 10)]
  }

  /** The lowest `j` in [i, n) with `name + str(j)` not yet taken. */
  function FirstFree(name: string, i: nat, n: nat, taken: seq<string>): (r: Option<nat>)
    ensures r.Some? ==> i <= r.value < n && name + NatStr(r.value) !in taken
    ensures r.Some? ==> forall j :: i <= j < r.value ==> name + NatStr(j) in taken
    ensures r.None? ==> forall j :: i <= j < n ==> name + NatStr(j) in taken
    decreases n - i
  {
    if i >= n then None
    else if name + NatStr(i) !in taken then Some(i)
    else FirstFree(name, i + 1, n, taken)
  }

  /**
   * The name chosen for one occurrence of `name` while `taken` is the
   * output so far: the name itself when it occurs once in `all`, otherwise
   * the lowest free numbered form below its number of occurrences (none
   * when all of those are taken).
   */
  function NameFor(all: seq<string>, name: string, taken: seq<string>): Option<string>
  {
    var occ := multiset(all)[name];
    if occ == 1 then Some(name)
    else match FirstFree(name, 0, occ, taken)
      case Some(i) => Some(name + NatStr(i))
      case None => None
  }

  /** The output after the first `k` names of `all`. */
  function NamesOf(all: seq<string>, k: nat): (out: seq<string>)
    requires k <= |all|
    ensures |out| <= k
  {
    if k == 0 then []
    else
      var prev := NamesOf(all, k - 1);
      match NameFor(all, all[k - 1], prev)
      case Some(n) => prev + [n]
      case None => prev
  }

  /** Every numbered form of `name` below `i` is already taken. */
  ghost predicate Taken(name: string, i: nat, taken: seq<string>)
  {
    forall j :: 0 <= j < i ==> name + NatStr(j) in taken
  }

  lemma TakenStep(name: string, i: nat, taken: seq<string>)
    requires Taken(name, i, taken) && name + NatStr(i) in taken
    ensures Taken(name, i + 1, taken)
  {
  }

  /** When `i` is the lowest free number, the numbered name for `all[k]` is the one with `i`. */
  lemma FreeSlotChosen(all: seq<string>, k: nat, taken: seq<string>, i: nat)
    requires k < |all| && taken == NamesOf(all, k)
    requires multiset(all)[all[k]] != 1 && i < multiset(all)[all[k]]
    requires all[k] + NatStr(i) !in taken
    requires Taken(all[k], i, taken)
    ensures NamesOf(all, k + 1) == taken + [all[k] + NatStr(i)]
  {
    var r := FirstFree(all[k], 0, multiset(all)[all[k]], taken);
    assert r == Some(i);
  }

  lemma NoFreeSlot(all: seq<string>, k: nat, taken: seq<string>)
    requires k < |all| && taken == NamesOf(all, k) && multiset(all)[all[k]] != 1
    requires Taken(all[k], multiset(all)[all[k]], taken)
    ensures NamesOf(all, k + 1) == taken
  {
    var r := FirstFree(all[k], 0, multiset(all)[all[k]], taken);
    assert r == None;
  }

  /** Names for a list of (lower-cased) class names, one pass with an inner search. */
  method UniqueNames(all: seq<string>) returns (names: seq<string>)
    ensures names == NamesOf(all, |all|)
  {
    names := [];
    var k := 0;
    while k < |all|
      invariant k <= |all| && names == NamesOf(all, k)
    {
      var name := all[k];
      var occ := multiset(all)[name];
      if occ == 1 {
        names := names + [name];
      } else {
        var i := 0;
        var placed := false;
        while i < occ && !placed
          invariant 0 <= i <= occ
          invariant !placed ==> names == NamesOf(all, k)
          invariant !placed ==> Taken(name, i, names)
          invariant placed ==> names == NamesOf(all, k + 1)
          decreases occ - i, if placed then 0 else 1
        {
          if name + NatStr(i) !in names {
            FreeSlotChosen(all, k, names, i);
            names := names + [name + NatStr(i)];
            placed := true;
          } else {
            TakenStep(name, i, names);
            i := i + 1;
          }
        }
        if !placed {
          NoFreeSlot(all, k, names);
        }
      }
      k := k + 1;
    }
  }

  /** Names that all occur once are kept as they are, in order. */
  lemma {:induction false} OccursOnce<T(!new)>(xs: seq<T>, i: nat)
    requires NoDuplicates(xs) && i < |xs|
    ensures multiset(xs)[xs[i]] == 1
  {
    assert xs == [xs[0]] + xs[1..];
    if i == 0 {
      assert xs[0] !in xs[1..];
    } else {
      OccursOnce(xs[1..], i - 1);
      assert xs[1..][i - 1] == xs[i];
    }
  }

  lemma {:induction false} DistinctNamesKept(all: seq<string>, k: nat)
    requires NoDuplicates(all) && k <= |all|
    ensures NamesOf(all, k) == all[..k]
  {
    if k > 0 {
      DistinctNamesKept(all, k - 1);
      OccursOnce(all, k - 1);
      assert all[..k] == all[..k - 1] + [all[k - 1]];
    }
  }

  lemma SmallNumbers()
    ensures NatStr(0) == "0" && NatStr(1) == "1"
    ensures "pid" + NatStr(0) == "pid0" && "pid" + NatStr(1) == "pid1"
  {
  }

  /** Repeated names get the numbers 0, 1, ... in order of appearance. */
  lemma RepeatedNamesNumbered()
    ensures NamesOf(["pid", "iq", "pid"], 3) == ["pid0", "iq", "pid1"]
  {
    var all := ["pid", "iq", "pid"];
    SmallNumbers();
    assert multiset(all)["pid"] == 2 && multiset(all)["iq"] == 1;
    assert FirstFree("pid", 0, 2, []) == Some(0);
    assert NamesOf(all, 1) == ["pid0"];
    assert NamesOf(all, 2) == ["pid0", "iq"];
    assert FirstFree("pid", 1, 2, ["pid0", "iq"]) == Some(1);
    assert FirstFree("pid", 0, 2, ["pid0", "iq"]) == Some(1);
  }

  /**
   * A class whose own name already carries a number can take the slot a
   * repeated name needs: the output is then shorter than the input.
   */
  lemma NumberedNameCollision()
    ensures NamesOf(["pid0", "pid", "pid"], 3) == ["pid0", "pid1"]
  {
    var all := ["pid0", "pid", "pid"];
    SmallNumbers();
    assert multiset(all)["pid"] == 2 && multiset(all)["pid0"] == 1;
    assert NamesOf(all, 1) == ["pid0"];
    assert FirstFree("pid", 1, 2, ["pid0"]) == Some(1);
    assert FirstFree("pid", 0, 2, ["pid0"]) == Some(1);
    assert NamesOf(all, 2) == ["pid0", "pid1"];
    assert FirstFree("pid", 2, 2, ["pid0", "pid1"]) == None;
    assert FirstFree("pid", 1, 2, ["pid0", "pid1"]) == None;
    assert FirstFree("pid", 0, 2, ["pid0", "pid1"]) == None;
  }

  /**
   * A numbered name that follows a repeated one is left as it is, even when
   * the repeated name has already taken it: the output then holds a name twice.
   */
  lemma NumberedNameDuplicated()
    ensures NamesOf(["pid", "pid", "pid0"], 3) == ["pid0", "pid1", "pid0"]
  {
    var all := ["pid", "pid", "pid0"];
    SmallNumbers();
    assert multiset(all)["pid"] == 2 && multiset(all)["pid0"] == 1;
    assert FirstFree("pid", 0, 2, []) == Some(0);
    assert NamesOf(all, 1) == ["pid0"];
    assert FirstFree("pid", 1, 2, ["pid0"]) == Some(1);
    assert FirstFree("pid", 0, 2, ["pid0"]) == Some(1);
    assert NamesOf(all, 2) == ["pid0", "pid1"];
  }

  // ------------------------------------------------------- dotted attribute paths

  /** An object tree: a leaf value, or an object with named attributes. */
  datatype Node = Leaf(v: int) | Obj(attrs: map<string, Node>)

  /** `path.split('.')`: the pieces between dots, always at least one. */
  function SplitDots(s: string): (parts: seq<string>)
    ensures |parts| >= 1
    ensures forall i :: 0 <= i < |parts| ==> '.' !in parts[i]
  {
    if s == [] then [""]
    else if s[0] == '.' then [""] + SplitDots(s[1..])
    else
      var r := SplitDots(s[1..]);
      [[s[0]] + r[0]] + r[1..]
  }

  /** `'.'.join(parts)`. */
  function JoinDots(parts: seq<string>): string
    requires |parts| >= 1
  {
    if |parts| == 1 then parts[0] else parts[0] + "." + JoinDots(parts[1..])
  }

  lemma {:induction false} SplitJoin(s: string)
    ensures JoinDots(SplitDots(s)) == s
  {
    if s != [] {
      SplitJoin(s[1..]);
      var r := SplitDots(s[1..]);
      if s[0] != '.' {
        var p := SplitDots(s);
        assert p[1..] == r[1..];
        assert s == [s[0]] + s[1..];
      }
    }
  }

  function GetAttr(node: Node, name: string): Result<Node>
  {
    if node.Obj? && name in node.attrs then Ok(node.attrs[name]) else Fail(AttributeError)
  }

  /**
   * Follows the non-empty names of `names` from `node`. The only error is
   * AttributeError, and a first name that is not an attribute of `node` is
   * one.
   */
  function GetPath(node: Node, names: seq<string>): (r: Result<Node>)
    ensures r.Fail? ==> r.error == AttributeError
    ensures names != [] && names[0] != "" && !(node.Obj? && names[0] in node.attrs) ==> r == Fail(AttributeError)
  {
    if names == [] then Ok(node)
    else if names[0] == "" then GetPath(node, names[1..])
    else match GetAttr(node, names[0])
      case Ok(child) => GetPath(child, names[1..])
      case Fail(e) => Fail(e)
  }

  /** `recursive_getattr`: walks the path one attribute at a time. */
  method RecursiveGetattr(root: Node, path: string) returns (r: Result<Node>)
    ensures r == GetPath(root, SplitDots(path))
  {
    var names := SplitDots(path);
    var attribute := root;
    var i := 0;
    while i < |names|
      invariant 0 <= i <= |names|
      invariant GetPath(root, names) == GetPath(attribute, names[i..])
    {
      assert names[i..][1..] == names[i + 1..];
      if names[i] != "" {
        var next := GetAttr(attribute, names[i]);
        if next.Fail? {
          return next;
        }
        attribute := next.value;
      }
      i := i + 1;
    }
    return Ok(attribute);
  }

  /** An empty path, or one made of dots only, names the root itself. */
  lemma {:induction false} EmptySegmentsSkipped(node: Node, names: seq<string>)
    requires forall i :: 0 <= i < |names| ==> names[i] == ""
    ensures GetPath(node, names) == Ok(node)
  {
    if names != [] {
      EmptySegmentsSkipped(node, names[1..]);
    }
  }

  lemma EmptyPathIsRoot(root: Node)
    ensures GetPath(root, SplitDots("")) == Ok(root)
    ensures GetPath(root, SplitDots("..")) == Ok(root)
  {
    EmptySegmentsSkipped(root, SplitDots(".."));
  }

  /**
   * `recursive_setattr`: every name but the last is looked up (empty names
   * included), and the last is assigned. Objects are values here, so the
   * result is the updated tree: only the attribute named first is added
   * or replaced at the top, and the only error is AttributeError.
   */
  function SetPath(node: Node, names: seq<string>, value: Node): (r: Result<Node>)
    requires |names| >= 1
    ensures r.Fail? ==> r.error == AttributeError
    ensures r.Ok? ==> node.Obj? && r.value.Obj? && r.value.attrs.Keys == node.attrs.Keys + {names[0]}
    ensures r.Ok? ==> forall k :: k in node.attrs && k != names[0] ==> r.value.attrs[k] == node.attrs[k]
    ensures r.Ok? && |names| == 1 ==> r.value.attrs[names[0]] == value
  {
    if |names| == 1 then
      if node.Obj? then Ok(Obj(node.attrs[names[0] := value])) else Fail(AttributeError)
    else match GetAttr(node, names[0])
      case Fail(e) => Fail(e)
      case Ok(child) =>
        match SetPath(child, names[1..], value)
        case Fail(e) => Fail(e)
        case Ok(c) => Ok(Obj(node.attrs[names[0] := c]))
  }

  /** Reading a path back after setting it gives the value set. */
  lemma {:induction false} GetAfterSet(node: Node, names: seq<string>, value: Node)
    requires |names| >= 1 && forall i :: 0 <= i < |names| ==> names[i] != ""
    requires SetPath(node, names, value).Ok?
    ensures GetPath(SetPath(node, names, value).value, names) == Ok(value)
  {
    if |names| > 1 {
      GetAfterSet(node.attrs[names[0]], names[1..], value);
    }
  }

  /** Setting with the empty path assigns the attribute named "" (reading it back gives the root). */
  lemma SetEmptyPath()
    ensures SetPath(Obj(map[]), SplitDots(""), Leaf(1)) == Ok(Obj(map["" := Leaf(1)]))
  {
  }

  // ------------------------------------------------------------ DuplicateFilter

  datatype LogKey = LogKey(source: string, level: int, msg: string)

  /** Drops a log record that repeats the last record it let through. */
  class DuplicateFilter {
    var lastLog: Option<LogKey>

    constructor ()
      ensures lastLog == None
    {
      lastLog := None;
    }

    method Filter(record: LogKey) returns (pass: bool)
      modifies this
      ensures pass <==> old(lastLog) != Some(record)
      ensures lastLog == Some(record)
    {
      if lastLog != Some(record) {
        lastLog := Some(record);
        return true;
      }
      return false;
    }
  }

  /** The verdicts of successive `Filter` calls, starting from `last`. */
  function Passes(last: Option<LogKey>, recs: seq<LogKey>): (ps: seq<bool>)
    ensures |ps| == |recs|
    decreases |recs|
  {
    if recs == [] then [] else [last != Some(recs[0])] + Passes(Some(recs[0]), recs[1..])
  }

  /** A record is dropped exactly when it equals the record just before it. */
  lemma {:induction false} PassesIffChanged(last: Option<LogKey>, recs: seq<LogKey>)
    ensures forall i :: 0 < i < |recs| ==> (Passes(last, recs)[i] <==> recs[i] != recs[i - 1])
    ensures recs != [] ==> (Passes(last, recs)[0] <==> last != Some(recs[0]))
    decreases |recs|
  {
    if recs != [] {
      PassesIffChanged(Some(recs[0]), recs[1..]);
      var ps := Passes(last, recs);
      forall i | 0 < i < |recs|
        ensures ps[i] <==> recs[i] != recs[i - 1]
      {
        assert ps[i] == Passes(Some(recs[0]), recs[1..])[i - 1];
        if i > 1 {
          assert recs[1..][i - 1] == recs[i] && recs[1..][i - 2] == recs[i - 1];
        }
      }
    }
  }

  // ---------------------------------------------------------------- sorted_dict

  datatype Entry = Entry(key: string, value: int)

  /** Python's string order: by code point, a proper prefix first. */
  predicate LexLe(a: string, b: string)
  {
    if a == [] then true
    else if b == [] then false
    else if a[0] != b[0] then a[0] < b[0]
    else LexLe(a[1..], b[1..])
  }

  lemma {:induction false} LexTotal(a: string, b: string)
    ensures LexLe(a, b) || LexLe(b, a)
  {
    if a != [] && b != [] && a[0] == b[0] {
      LexTotal(a[1..], b[1..]);
    }
  }

  predicate InOrder(x: Entry, y: Entry, byValues: bool)
  {
    if byValues then x.value <= y.value else LexLe(x.key, y.key)
  }

  predicate SortedBy(es: seq<Entry>, byValues: bool)
  {
    forall i :: 0 < i < |es| ==> InOrder(es[i - 1], es[i], byValues)
  }

  function Insert(e: Entry, es: seq<Entry>, byValues: bool): (r: seq<Entry>)
    ensures multiset(r) == multiset(es) + multiset{e}
    ensures |r| > 0 && (r[0] == e || (es != [] && r[0] == es[0]))
  {
    if es == [] || InOrder(e, es[0], byValues) then [e] + es
    else
      assert es == [es[0]] + es[1..];
      [es[0]] + Insert(e, es[1..], byValues)
  }

  lemma {:induction false} InsertSorted(e: Entry, es: seq<Entry>, byValues: bool)
    requires SortedBy(es, byValues)
    ensures SortedBy(Insert(e, es, byValues), byValues)
  {
    if es != [] && !InOrder(e, es[0], byValues) {
      LexTotal(e.key, es[0].key);
      InsertSorted(e, es[1..], byValues);
      var t := Insert(e, es[1..], byValues);
      assert Insert(e, es, byValues) == [es[0]] + t;
    }
  }

  /**
   * `sorted_dict`: the same entries, ordered by value (the default) or by
   * key. Insertion in front of the first entry not smaller keeps entries
   * with equal values in their original order, as Python's stable sort.
   */
  function SortedDict(es: seq<Entry>, byValues: bool): (r: seq<Entry>)
    ensures multiset(r) == multiset(es)
  {
    if es == [] then []
    else
      assert es == [es[0]] + es[1..];
      Insert(es[0], SortedDict(es[1..], byValues), byValues)
  }

  lemma {:induction false} SortedDictSorted(es: seq<Entry>, byValues: bool)
    ensures SortedBy(SortedDict(es, byValues), byValues)
  {
    if es != [] {
      SortedDictSorted(es[1..], byValues);
      InsertSorted(es[0], SortedDict(es[1..], byValues), byValues);
    }
  }

  /** An already ordered dictionary comes back unchanged. */
  lemma {:induction false} SortedDictOfSorted(es: seq<Entry>, byValues: bool)
    requires SortedBy(es, byValues)
    ensures SortedDict(es, byValues) == es
  {
    if es != [] {
      assert SortedBy(es[1..], byValues) by {
        forall i | 0 < i < |es[1..]|
          ensures InOrder(es[1..][i - 1], es[1..][i], byValues)
        {
          assert es[1..][i - 1] == es[i] && es[1..][i] == es[i + 1];
        }
      }
      SortedDictOfSorted(es[1..], byValues);
      if |es| > 1 {
        assert InOrder(es[0], es[1..][0], byValues);
      }
      assert es == [es[0]] + es[1..];
    }
  }
}
