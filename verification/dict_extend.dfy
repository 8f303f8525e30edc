/**
 * dict_extend: add the items of d2 to d1.  A key of d2 missing from d1 is
 * added as a copy; for a key present in both the action decides: 'e'
 * (error) stops the walk, 'f' (force) overwrites the value unless the item
 * of d1 is locked or read-only, in which case it stops, and any other
 * action keeps the value of d1.  In a scope dictionary (g:, l:, ...) each
 * key must also pass the variable-name checks, or the walk stops.
 *
 * Stopping keeps whatever was added before.  A failed allocation of a copy
 * is silent: that key is skipped.
 */
module DictExtend {
  import opened DictCore
  import opened DictItems

  /** The action argument starts with c. */
  predicate ActionIs(action: string, c: char)
  {
    |action| > 0 && action[0] == c
  }

  /** What the walk depends on besides the items: the action, the scope of d1, and whether d1 is d2. */
  datatype Policy = Policy(action: string, scope: int, same: bool)

  /** Force mode overwrites only items of another dictionary. */
  predicate Overwrites(pol: Policy)
  {
    ActionIs(pol.action, 'f') && !pol.same
  }

  /**
   * The scope checks refuse x: in a scope dictionary the key must be a
   * valid variable name, and in g: or l: a function value must not replace
   * a builtin function.
   */
  predicate ScopeRefuses(pol: Policy, chk: Checks, x: Item, found: bool)
  {
    pol.scope != 0 &&
    ((pol.scope == VAR_DEF_SCOPE && x.tv.Func? && chk.funcNameErr(x.key, !found)) || !chk.validVarname(x.key))
  }

  /**
   * One round of the loop on item x of d2, the p-th item visited: the new
   * contents of d1, or None when the loop stops there.
   */
  function Step(m: map<string, Item>, x: Item, p: nat, pol: Policy, chk: Checks, addFails: nat -> bool)
    : (r: Option<map<string, Item>>)
    ensures r.Some? ==> m.Keys <= r.value.Keys <= m.Keys + {x.key}
    ensures r.Some? ==> forall k :: k in m && k != x.key ==> r.value[k] == m[k]
  {
    var found := x.key in m;
    if ScopeRefuses(pol, chk, x, found) then None
    else if !found then
      var di := DictitemCopy(x, addFails(p));
      if di.None? then Some(m) else Some(m[x.key := di.value])
    else if ActionIs(pol.action, 'e') then None
    else if Overwrites(pol) then
      if chk.lockErr(m[x.key].lock) || chk.roErr(m[x.key].flags) then None
      else Some(m[x.key := m[x.key].(tv := x.tv, lock := 0)])
    else Some(m)
  }

  /** The contents of d1 after the loop has visited the items es, starting with the p-th. */
  ghost function Extend(m: map<string, Item>, es: seq<Item>, p: nat, pol: Policy, chk: Checks, addFails: nat -> bool)
    : (r: map<string, Item>)
    ensures forall k :: k in m && k !in Keys(es) ==> k in r && r[k] == m[k]
    decreases |es|
  {
    if es == [] then m
    else match Step(m, es[0], p, pol, chk, addFails)
      case None => m
      case Some(m') => Extend(m', es[1..], p + 1, pol, chk, addFails)
  }

  /** The loop's first round on es: it stops, or carries on from the new contents. */
  lemma ExtendFirst(m: map<string, Item>, es: seq<Item>, p: nat, pol: Policy, chk: Checks, addFails: nat -> bool)
    requires es != []
    ensures Step(m, es[0], p, pol, chk, addFails).None? ==> Extend(m, es, p, pol, chk, addFails) == m
    ensures Step(m, es[0], p, pol, chk, addFails).Some? ==>
      Extend(m, es, p, pol, chk, addFails) == Extend(Step(m, es[0], p, pol, chk, addFails).value, es[1..], p + 1, pol, chk, addFails)
  {
  }

  /** Keys are only ever added, and only keys of d2. */
  lemma {:induction false} ExtendKeys(m: map<string, Item>, es: seq<Item>, p: nat, pol: Policy, chk: Checks, addFails: nat -> bool)
    ensures m.Keys <= Extend(m, es, p, pol, chk, addFails).Keys <= m.Keys + Keys(es)
    decreases |es|
  {
    if es != [] {
      var st := Step(m, es[0], p, pol, chk, addFails);
      if st.Some? {
        ExtendKeys(st.value, es[1..], p + 1, pol, chk, addFails);
      }
    }
  }

  /** Unless force mode applies, an item already in d1 is never changed. */
  lemma {:induction false} ExtendKeepsExisting(m: map<string, Item>, es: seq<Item>, p: nat, pol: Policy, chk: Checks, addFails: nat -> bool)
    requires !Overwrites(pol)
    ensures forall k :: k in m ==> k in Extend(m, es, p, pol, chk, addFails) && Extend(m, es, p, pol, chk, addFails)[k] == m[k]
    decreases |es|
  {
    if es != [] {
      var st := Step(m, es[0], p, pol, chk, addFails);
      if st.Some? {
        ExtendKeepsExisting(st.value, es[1..], p + 1, pol, chk, addFails);
      }
    }
  }

  /**
   * What d1 holds after a walk that nothing stopped: every key of both, a
   * key only in d2 as a fresh copy of its item (lock 0, DI_FLAGS_ALLOC), a
   * key in both overwritten in force mode and kept otherwise.
   */
  ghost function Merged(m: map<string, Item>, n: map<string, Item>, overwrite: bool): map<string, Item>
  {
    map k | k in m.Keys + n.Keys ::
      if k !in m then Item(k, n[k].tv, 0, AllocFlags)
      else if overwrite && k in n then m[k].(tv := n[k].tv, lock := 0)
      else m[k]
  }

  /** Merging after one item has been merged is merging with that item added. */
  lemma MergedStep(m: map<string, Item>, m': map<string, Item>, n: map<string, Item>, x: Item, overwrite: bool)
    requires x.key !in n
    requires m' == if x.key !in m then m[x.key := Item(x.key, x.tv, 0, AllocFlags)]
      else if overwrite then m[x.key := m[x.key].(tv := x.tv, lock := 0)]
      else m
    ensures Merged(m', n, overwrite) == Merged(m, n[x.key := x], overwrite)
  {
    var a := Merged(m', n, overwrite);
    var b := Merged(m, n[x.key := x], overwrite);
    assert a.Keys == b.Keys;
    forall k | k in a
      ensures a[k] == b[k]
    {
      if k == x.key {
        assert k !in n;
      }
    }
  }

  /**
   * The loop breaks on x: the scope checks refuse it, or its key is in d1
   * and the action refuses it (error mode, or force mode on a locked or
   * read-only item).
   */
  predicate StopsOn(m: map<string, Item>, x: Item, pol: Policy, chk: Checks)
  {
    ScopeRefuses(pol, chk, x, x.key in m) ||
    (x.key in m && (ActionIs(pol.action, 'e') || (Overwrites(pol) && (chk.lockErr(m[x.key].lock) || chk.roErr(m[x.key].flags)))))
  }

  /** One round breaks the loop exactly when StopsOn says so. */
  lemma StepStops(m: map<string, Item>, x: Item, p: nat, pol: Policy, chk: Checks, addFails: nat -> bool)
    ensures Step(m, x, p, pol, chk, addFails).None? <==> StopsOn(m, x, pol, chk)
  {
  }

  /** A round on x changes nothing that decides whether the loop breaks on an item with another key. */
  lemma StopsOnAfter(m: map<string, Item>, x: Item, y: Item, p: nat, pol: Policy, chk: Checks, addFails: nat -> bool)
    requires y.key != x.key && Step(m, x, p, pol, chk, addFails).Some?
    ensures var m' := Step(m, x, p, pol, chk, addFails).value;
      (y.key in m' <==> y.key in m) && (y.key in m ==> m'[y.key] == m[y.key]) &&
      (StopsOn(m', y, pol, chk) <==> StopsOn(m, y, pol, chk))
  {
  }

  /** Nothing stops the walk on the items es: no item is refused by the scope checks or by the action. */
  ghost predicate Unhindered(m: map<string, Item>, es: seq<Item>, pol: Policy, chk: Checks)
  {
    forall i :: 0 <= i < |es| ==> !StopsOn(m, es[i], pol, chk)
  }

  /**
   * A walk that nothing stops and in which no allocation fails merges d2
   * into d1: keep mode adds the missing keys, force mode also overwrites
   * the common ones, and error mode (with no common key) adds them all.
   * In a scope dictionary this needs every key to pass the scope checks.
   */
  lemma {:induction false} ExtendMerges(m: map<string, Item>, es: seq<Item>, p: nat, pol: Policy, chk: Checks, addFails: nat -> bool)
    requires UniqueKeys(es) && Unhindered(m, es, pol, chk)
    requires forall q :: !addFails(q)
    ensures Extend(m, es, p, pol, chk, addFails) == Merged(m, MapOf(es), Overwrites(pol))
    decreases |es|
  {
    if es == [] {
      assert Merged(m, map[], Overwrites(pol)) == m;
    } else {
      var x := es[0];
      var rest := es[1..];
      Cons(x, rest);
      assert es == [x] + rest;
      assert x.key !in Keys(rest);
      MapOfKeys(rest);
      StepStops(m, x, p, pol, chk, addFails);
      var m' := Step(m, x, p, pol, chk, addFails).value;
      assert Unhindered(m', rest, pol, chk) by {
        forall i | 0 <= i < |rest|
          ensures !StopsOn(m', rest[i], pol, chk)
        {
          KeysAt(rest, i);
          assert rest[i] == es[i + 1];
          StopsOnAfter(m, x, rest[i], p, pol, chk, addFails);
        }
      }
      ExtendMerges(m', rest, p + 1, pol, chk, addFails);
      MergedStep(m, m', MapOf(rest), x, Overwrites(pol));
    }
  }

  /**
   * The walk stops at the first item it refuses, by the scope checks or by
   * the action, keeping what it added before: the result is that of the
   * walk over the items in front of it.
   */
  lemma {:induction false} ExtendStopsAt(m: map<string, Item>, es: seq<Item>, j: nat, p: nat, pol: Policy, chk: Checks, addFails: nat -> bool)
    requires UniqueKeys(es) && j < |es|
    requires StopsOn(m, es[j], pol, chk)
    requires forall i :: 0 <= i < j ==> !StopsOn(m, es[i], pol, chk)
    ensures Extend(m, es, p, pol, chk, addFails) == Extend(m, es[..j], p, pol, chk, addFails)
    decreases j
  {
    var x := es[0];
    var rest := es[1..];
    StepStops(m, x, p, pol, chk, addFails);
    if j > 0 {
      Cons(x, rest);
      var m' := Step(m, x, p, pol, chk, addFails).value;
      assert rest[j - 1] == es[j];
      KeysAt(rest, j - 1);
      StopsOnAfter(m, x, es[j], p, pol, chk, addFails);
      forall i | 0 <= i < j - 1
        ensures !StopsOn(m', rest[i], pol, chk)
      {
        KeysAt(rest, i);
        assert rest[i] == es[i + 1];
        StopsOnAfter(m, x, rest[i], p, pol, chk, addFails);
      }
      ExtendStopsAt(m', rest, j - 1, p + 1, pol, chk, addFails);
      assert es[..j][1..] == rest[..j - 1];
    }
  }

  /**
   * One round of the loop of dict_extend on item x of d2: look the key up
   * in d1, apply the scope checks, then add, stop, overwrite or keep.
   * stop tells whether the loop breaks.
   */
  method ExtendOne(d1: Dict, x: Item, p: nat, pol: Policy, chk: Checks, addFails: nat -> bool) returns (stop: bool)
    requires d1.Valid() && pol.scope == d1.scope
    modifies d1`slots, d1`used
    ensures d1.Valid()
    ensures var st := Step(old(d1.Contents()), x, p, pol, chk, addFails);
      (stop <==> st.None?) && d1.Contents() == (if st.None? then old(d1.Contents()) else st.value)
  {
    FindSlotContents(d1.slots, x.key);
    var j := FindSlot(d1.slots, x.key);
    if d1.scope != 0 {
      if d1.scope == VAR_DEF_SCOPE && x.tv.Func? && chk.funcNameErr(x.key, j < 0) {
        return true;
      }
      if !chk.validVarname(x.key) {
        return true;
      }
    }
    if j < 0 {
      var di := DictitemCopy(x, addFails(p));
      if di.Some? {
        var ok := d1.HashAdd(di.value, false);
      }
    } else if ActionIs(pol.action, 'e') {
      return true;
    } else if ActionIs(pol.action, 'f') && !pol.same {
      var di1 := d1.slots[j].value;
      if chk.lockErr(di1.lock) || chk.roErr(di1.flags) {
        return true;
      }
      d1.SetItem(j, di1.(tv := x.tv, lock := 0));
    }
    return false;
  }

  /**
   * One round of the loop of dict_extend on slot i of d2, with todo items
   * still to visit: an empty slot is skipped, an item is counted off and
   * merged into d1.  target is what d1 is to become.
   */
  method ExtendSlot(d1: Dict, s2: Slots, i: nat, n: nat, todo: nat, pol: Policy, chk: Checks, addFails: nat -> bool,
                    ghost target: map<string, Item>)
    returns (todo': nat, stop: bool)
    requires i < |s2| && 0 < todo == |Entries(s2[i..])| <= n
    requires d1.Valid() && pol.scope == d1.scope
    requires target == Extend(d1.Contents(), Entries(s2[i..]), n - todo, pol, chk, addFails)
    modifies d1`slots, d1`used
    ensures d1.Valid() && todo' <= n
    ensures !stop ==> todo' == |Entries(s2[i + 1..])|
    ensures !stop ==> target == Extend(d1.Contents(), Entries(s2[i + 1..]), n - todo', pol, chk, addFails)
    ensures stop ==> d1.Contents() == target
  {
    EntriesStep(s2, i);
    todo' := todo;
    stop := false;
    if s2[i].Some? {
      var x := s2[i].value;
      var p := n - todo;
      todo' := todo - 1;
      ghost var cur := d1.Contents();
      ghost var es := Entries(s2[i..]);
      assert es[0] == x && es[1..] == Entries(s2[i + 1..]);
      stop := ExtendOne(d1, x, p, pol, chk, addFails);
      ExtendFirst(cur, es, p, pol, chk, addFails);
      assert p + 1 == n - todo';
    } else {
      assert Entries(s2[i..]) == Entries(s2[i + 1..]);
    }
  }

  /**
   * dict_extend.  The loop walks the slots of d2 as they were when it
   * started; when d1 is d2 nothing is ever added or overwritten, so the
   * walk sees the same table either way.  addFails(p) says whether copying
   * the p-th item visited runs out of memory.
   */
  method DictExtend(d1: Dict, d2: Dict, action: string, chk: Checks, addFails: nat -> bool)
    requires d1.Valid() && d2.Valid()
    modifies d1`slots, d1`used
    ensures d1.Valid()
    ensures d1.Contents() ==
      Extend(old(d1.Contents()), old(Entries(d2.slots)), 0, Policy(action, d1.scope, d1 == d2), chk, addFails)
  {
    ghost var m0 := d1.Contents();
    var pol := Policy(action, d1.scope, d1 == d2);
    var s2 := d2.slots;
    var n := d2.used;
    var todo := n;
    var i := 0;
    var stop := false;
    assert s2[0..] == s2;
    while todo > 0 && !stop
      invariant 0 <= i <= |s2| && 0 <= todo <= n
      invariant d1.Valid() && pol.scope == d1.scope
      invariant !stop ==> todo == |Entries(s2[i..])|
      invariant !stop ==> (Extend(m0, Entries(s2), 0, pol, chk, addFails) ==
        Extend(d1.Contents(), Entries(s2[i..]), n - todo, pol, chk, addFails))
      invariant stop ==> d1.Contents() == Extend(m0, Entries(s2), 0, pol, chk, addFails)
      decreases |s2| - i
    {
      todo, stop := ExtendSlot(d1, s2, i, n, todo, pol, chk, addFails, Extend(m0, Entries(s2), 0, pol, chk, addFails));
      i := i + 1;
    }
    if !stop {
      assert Entries(s2[i..]) == [];
    }
  }
}
