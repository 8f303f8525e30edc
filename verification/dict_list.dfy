/**
 * dict_list: the list that keys(), values() and items() return.  The
 * allocations it makes may fail; which ones do is the oracle fails.  A
 * value goes into the result as copy_tv leaves it: the same value, its
 * reference shared.
 */
module DictList {
  import opened DictCore

  /**
   * The outside world of one dict_list call.  fails(p, k) says whether an
   * allocation for the p-th item visited fails: k = 0 the list item of the
   * result, 1 the [key, value] list of items(), 2 and 3 its two list items,
   * 4 the copy of the key (vim_strsave).
   */
  datatype Allocs = Allocs(fails: (nat, nat) -> bool)

  /** What one element of the result list is. */
  datatype Elem =
    | Plain(v: Value)          // a key or a value, stored in the result list item
    | NoList                   // an items() element whose [key, value] list could not be allocated
    | Pair(parts: seq<Value>)  // an items() element: a list with refcount 1 holding parts

  /** keys() shows a key as a string; NULL when its copy cannot be allocated. */
  function KeyString(x: Item, p: nat, o: Allocs): (r: Value)
    ensures r.Str? && (r.s.Some? <==> !o.fails(p, 4))
    ensures r.s.Some? ==> r.s.value == x.key
  {
    Str(if o.fails(p, 4) then None else Some(x.key))
  }

  /**
   * The element the p-th item x contributes when its list item could be
   * allocated.  what 0 is keys(), 1 is values(), anything else items().
   */
  function ElemOf(x: Item, p: nat, what: int, o: Allocs): (r: Elem)
    ensures r.Plain? <==> what == 0 || what == 1
    ensures (forall k :: !o.fails(p, k)) ==> r == Full(x, what)
    ensures r.Pair? ==> |r.parts| <= 2 && (|r.parts| == 2 ==> r.parts[1] == x.tv)
  {
    if what == 0 then Plain(KeyString(x, p, o))
    else if what == 1 then Plain(x.tv)
    else if o.fails(p, 1) then NoList
    else if o.fails(p, 2) then Pair([])
    else if o.fails(p, 3) then Pair([KeyString(x, p, o)])
    else Pair([KeyString(x, p, o), x.tv])
  }

  /** The loop stops at the p-th item: an allocation for it failed. */
  predicate Stops(p: nat, what: int, o: Allocs): (r: bool)
    ensures o.fails(p, 0) ==> r
    ensures (forall k :: !o.fails(p, k)) ==> !r
    ensures what == 0 || what == 1 ==> (r <==> o.fails(p, 0))
  {
    o.fails(p, 0) || (what != 0 && what != 1 && (o.fails(p, 1) || o.fails(p, 2) || o.fails(p, 3)))
  }

  /** The elements made from es, the first of them being the p-th item visited, up to the first failure. */
  function Listing(es: seq<Item>, p: nat, what: int, o: Allocs): (r: seq<Elem>)
    ensures |r| <= |es|
  {
    if es == [] then []
    else
      (if o.fails(p, 0) then [] else [ElemOf(es[0], p, what, o)]) +
      (if Stops(p, what, o) then [] else Listing(es[1..], p + 1, what, o))
  }

  /** No allocation fails. */
  ghost predicate NoFailures(o: Allocs)
  {
    forall p, k :: !o.fails(p, k)
  }

  /** The element of an item when nothing fails. */
  function Full(x: Item, what: int): Elem
  {
    if what == 0 then Plain(Str(Some(x.key)))
    else if what == 1 then Plain(x.tv)
    else Pair([Str(Some(x.key)), x.tv])
  }

  /** When no allocation fails, every item gives its element, in slot order. */
  lemma {:induction false} ListingComplete(es: seq<Item>, p: nat, what: int, o: Allocs)
    requires NoFailures(o)
    ensures |Listing(es, p, what, o)| == |es|
    ensures forall q :: 0 <= q < |es| ==> Listing(es, p, what, o)[q] == Full(es[q], what)
  {
    if es != [] {
      ListingComplete(es[1..], p + 1, what, o);
      var rest := Listing(es[1..], p + 1, what, o);
      assert !o.fails(p, 0) && !o.fails(p, 1) && !o.fails(p, 2) && !o.fails(p, 3) && !o.fails(p, 4);
      assert Listing(es, p, what, o) == [Full(es[0], what)] + rest;
      forall q | 1 <= q < |es|
        ensures Listing(es, p, what, o)[q] == Full(es[q], what)
      {
        assert es[1..][q - 1] == es[q];
      }
    }
  }

  /** When no allocation fails, keys() lists exactly the keys of the dictionary. */
  lemma KeysListed(d: Dict, o: Allocs, k: string)
    requires d.Valid() && NoFailures(o)
    ensures k in d.Contents() <==>
      exists q :: 0 <= q < |Listing(Entries(d.slots), 0, 0, o)| && Listing(Entries(d.slots), 0, 0, o)[q] == Plain(Str(Some(k)))
  {
    var es := Entries(d.slots);
    var ls := Listing(es, 0, 0, o);
    ListingComplete(es, 0, 0, o);
    MapOfKeys(es);
    assert d.Contents() == MapOf(es);
    if k in d.Contents() {
      var q := KeysWitness(es, k);
      assert q < |ls|;
      assert ls[q] == Full(es[q], 0);
      assert exists q :: 0 <= q < |Listing(Entries(d.slots), 0, 0, o)| && Listing(Entries(d.slots), 0, 0, o)[q] == Plain(Str(Some(k)));
    } else {
      forall q | 0 <= q < |ls|
        ensures ls[q] != Plain(Str(Some(k)))
      {
        assert ls[q] == Full(es[q], 0);
        KeysAt(es, q);
      }
    }
  }

  /**
   * ls lists the entries of m: one element per entry, each element that of
   * an entry, and each entry's element somewhere in ls.
   */
  ghost predicate ListsEntries(ls: seq<Elem>, m: map<string, Item>, what: int)
  {
    |ls| == |m| &&
    (forall q :: 0 <= q < |ls| ==> exists k :: k in m && ls[q] == Full(m[k], what)) &&
    (forall k :: k in m ==> exists q :: 0 <= q < |ls| && ls[q] == Full(m[k], what))
  }

  /** A sequence holding the elements of es in order lists the entries of MapOf(es). */
  lemma ElementsListEntries(es: seq<Item>, ls: seq<Elem>, what: int)
    requires UniqueKeys(es) && |ls| == |es|
    requires forall q :: 0 <= q < |es| ==> ls[q] == Full(es[q], what)
    ensures ListsEntries(ls, MapOf(es), what)
  {
    MapOfSize(es);
    forall q | 0 <= q < |ls|
      ensures exists k :: k in MapOf(es) && ls[q] == Full(MapOf(es)[k], what)
    {
      MapOfAt(es, q);
    }
    forall k | k in MapOf(es)
      ensures exists q :: 0 <= q < |ls| && ls[q] == Full(MapOf(es)[k], what)
    {
      var q := MapOfWitness(es, k);
    }
  }

  /**
   * When no allocation fails, the listing has one element per entry of the
   * dictionary and no other: keys() gives each key, values() each stored
   * value and items() each [key, value] pair with the stored value.
   */
  lemma ContentsListed(d: Dict, o: Allocs, what: int)
    requires d.Valid() && NoFailures(o)
    ensures ListsEntries(Listing(Entries(d.slots), 0, what, o), d.Contents(), what)
  {
    ListingComplete(Entries(d.slots), 0, what, o);
    ElementsListEntries(Entries(d.slots), Listing(Entries(d.slots), 0, what, o), what);
  }

  /** The objects a result list refers to through the [key, value] lists of its elements. */
  ghost function PairLists(l: List, built: seq<Elem>): set<List>
    reads l
  {
    set p | 0 <= p < |l.items| && p < |built| && built[p].Pair? && l.items[p].ListVal? && l.items[p].l != null :: l.items[p].l
  }

  /**
   * The list l holds the elements built: plain values as they are, a
   * missing [key, value] list as a NULL list, and each [key, value] list
   * as a list other than l with refcount 1.
   */
  ghost predicate Shows(l: List, built: seq<Elem>)
    reads l, PairLists(l, built)
  {
    |l.items| == |built| &&
    forall p :: 0 <= p < |built| ==>
      match built[p]
      case Plain(v) => l.items[p] == v
      case NoList => l.items[p] == ListVal(null)
      case Pair(parts) =>
        l.items[p].ListVal? && l.items[p].l != null && l.items[p].l != l &&
        l.items[p].l.items == parts && l.items[p].l.refcount == 1
  }

  /** Visiting one item: the element it gives, and whether the listing goes on. */
  lemma ListingVisit(built: seq<Elem>, x: Item, rest: seq<Item>, p: nat, what: int, o: Allocs)
    ensures o.fails(p, 0) ==> built + Listing([x] + rest, p, what, o) == built
    ensures !o.fails(p, 0) && Stops(p, what, o) ==>
      built + Listing([x] + rest, p, what, o) == built + [ElemOf(x, p, what, o)]
    ensures !Stops(p, what, o) ==>
      built + Listing([x] + rest, p, what, o) == built + [ElemOf(x, p, what, o)] + Listing(rest, p + 1, what, o)
  {
    assert ([x] + rest)[0] == x && ([x] + rest)[1..] == rest;
  }

  /** The outcome of dict_list. */
  datatype Outcome =
    | NotADict    // the argument is not a Dict: error, the result is not set
    | Unset       // a NULL Dict, or the result list cannot be allocated: the result is not set
    | Made(l: List)

  /** The value one list item gets, making the [key, value] list of items() when there is one. */
  method MakeElem(x: Item, p: nat, what: int, o: Allocs, ghost e: Elem) returns (v: Value)
    requires e == ElemOf(x, p, what, o)
    ensures e.Plain? ==> v == e.v
    ensures e.NoList? ==> v == ListVal(null)
    ensures e.Pair? ==> v.ListVal? && v.l != null && fresh(v.l) && v.l.items == e.parts && v.l.refcount == 1
  {
    if what == 0 {
      v := KeyString(x, p, o);
    } else if what == 1 {
      v := x.tv;
    } else if o.fails(p, 1) {
      v := ListVal(null);
    } else {
      var l2 := new List([]);
      l2.refcount := l2.refcount + 1;
      if !o.fails(p, 2) {
        l2.items := l2.items + [KeyString(x, p, o)];
        if !o.fails(p, 3) {
          l2.items := l2.items + [x.tv];
        }
      }
      v := ListVal(l2);
    }
  }

  /** Appending one element keeps l showing what was built. */
  lemma ShowsAppend(l: List, built: seq<Elem>, oldItems: seq<Value>, v: Value, e: Elem)
    requires l.items == oldItems + [v] && |oldItems| == |built|
    requires forall p :: 0 <= p < |built| ==>
      match built[p]
      case Plain(w) => oldItems[p] == w
      case NoList => oldItems[p] == ListVal(null)
      case Pair(parts) =>
        oldItems[p].ListVal? && oldItems[p].l != null && oldItems[p].l != l &&
        oldItems[p].l.items == parts && oldItems[p].l.refcount == 1
    requires e.Plain? ==> v == e.v
    requires e.NoList? ==> v == ListVal(null)
    requires e.Pair? ==> v.ListVal? && v.l != null && v.l != l && v.l.items == e.parts && v.l.refcount == 1
    ensures Shows(l, built + [e])
  {
    var b := built + [e];
    forall p | 0 <= p < |b|
      ensures match b[p]
        case Plain(w) => l.items[p] == w
        case NoList => l.items[p] == ListVal(null)
        case Pair(parts) =>
          l.items[p].ListVal? && l.items[p].l != null && l.items[p].l != l &&
          l.items[p].l.items == parts && l.items[p].l.refcount == 1
    {
      if p < |built| {
        assert b[p] == built[p] && l.items[p] == oldItems[p];
      }
    }
  }

  /**
   * The loop is on track to build target: it has built built and, unless
   * it has stopped, has still to build the listing of the items rem, the
   * first of them being the p-th item visited.
   */
  ghost predicate OnTrack(target: seq<Elem>, built: seq<Elem>, rem: seq<Item>, p: nat, stop: bool, what: int, o: Allocs)
  {
    if stop then target == built else target == built + Listing(rem, p, what, o)
  }

  /**
   * One round of the loop on slot i, which holds the p-th item visited:
   * append the item's element to l, if its list item can be allocated, and
   * say whether the loop stops.
   */
  method AppendElem(l: List, s: Slots, i: nat, p: nat, what: int, o: Allocs, ghost target: seq<Elem>, ghost built: seq<Elem>)
    returns (failed: bool, ghost built': seq<Elem>)
    requires i < |s| && s[i].Some?
    requires Shows(l, built) && OnTrack(target, built, Entries(s[i..]), p, false, what, o)
    modifies l
    ensures l.refcount == old(l.refcount) && Shows(l, built')
    ensures OnTrack(target, built', Entries(s[i + 1..]), p + 1, failed, what, o)
  {
    var x := s[i].value;
    ghost var rest := Entries(s[i + 1..]);
    EntriesStep(s, i);
    assert Entries(s[i..]) == [x] + rest;
    ListingVisit(built, x, rest, p, what, o);
    built' := built;
    failed := o.fails(p, 0);
    if !failed {
      ghost var e := ElemOf(x, p, what, o);
      var w := MakeElem(x, p, what, o, e);
      ghost var oldItems := l.items;
      l.items := l.items + [w];
      ShowsAppend(l, built, oldItems, w, e);
      built' := built + [e];
      failed := what != 0 && what != 1 && (o.fails(p, 1) || o.fails(p, 2) || o.fails(p, 3));
    }
  }

  /**
   * One round of the loop of dict_list on slot i, with todo items still to
   * visit: an empty slot is skipped, an item is counted off and its element
   * appended.
   */
  method VisitSlot(l: List, s: Slots, i: nat, n: nat, todo: nat, what: int, o: Allocs, ghost target: seq<Elem>, ghost built: seq<Elem>)
    returns (todo': nat, stop: bool, ghost built': seq<Elem>)
    requires i < |s| && 0 < todo == |Entries(s[i..])| <= n
    requires Shows(l, built) && OnTrack(target, built, Entries(s[i..]), n - todo, false, what, o)
    modifies l
    ensures todo' == |Entries(s[i + 1..])| <= n
    ensures l.refcount == old(l.refcount) && Shows(l, built')
    ensures OnTrack(target, built', Entries(s[i + 1..]), n - todo', stop, what, o)
  {
    EntriesStep(s, i);
    if s[i].Some? {
      assert |Entries(s[i..])| == 1 + |Entries(s[i + 1..])|;
      var p := n - todo;
      todo' := todo - 1;
      assert n - todo' == p + 1;
      stop, built' := AppendElem(l, s, i, p, what, o, target, built);
    } else {
      assert Entries(s[i..]) == Entries(s[i + 1..]);
      todo', stop, built' := todo, false, built;
    }
  }

  /**
   * The loop of dict_list: walk the slots s holding n items and append
   * each item's element to l, up to the first allocation that fails.
   */
  method FillList(l: List, s: Slots, n: nat, what: int, o: Allocs)
    requires l.items == [] && n == |Entries(s)|
    modifies l
    ensures l.refcount == old(l.refcount) && Shows(l, Listing(Entries(s), 0, what, o))
  {
    var todo := n;
    var i := 0;
    var stop := false;
    ghost var target := Listing(Entries(s), 0, what, o);
    ghost var built: seq<Elem> := [];
    assert s[0..] == s;
    while todo > 0 && !stop
      invariant 0 <= i <= |s| && 0 <= todo == |Entries(s[i..])| <= n
      invariant l.refcount == old(l.refcount)
      invariant Shows(l, built)
      invariant OnTrack(target, built, Entries(s[i..]), n - todo, stop, what, o)
      decreases |s| - i
    {
      todo, stop, built := VisitSlot(l, s, i, n, todo, what, o, target, built);
      i := i + 1;
    }
    if !stop {
      assert Entries(s[i..]) == [];
      assert built + [] == built;
    }
  }

  /**
   * dict_list.  Not a Dict: an error.  A NULL Dict, or no memory for the
   * result: no result.  Otherwise a fresh list with refcount 1 holding, in
   * slot order, one element per item up to the first allocation that fails.
   */
  method DictListing(v: Value, what: int, oomList: bool, o: Allocs) returns (r: Outcome)
    requires v.DictVal? && v.d != null ==> v.d.Valid()
    ensures !v.DictVal? <==> r.NotADict?
    ensures v.DictVal? && (v.d == null || oomList) <==> r.Unset?
    ensures r.Made? ==>
      fresh(r.l) && r.l.refcount == 1 && Shows(r.l, Listing(Entries(v.d.slots), 0, what, o))
  {
    if !v.DictVal? {
      return NotADict;
    }
    var d := v.d;
    if d == null || oomList {
      return Unset;
    }
    var l := new List([]);
    l.refcount := 1;
    FillList(l, d.slots, d.used, what, o);
    return Made(l);
  }
}
