/**
 * The process-wide list of live dictionaries (first_dict, linked through
 * dv_used_prev/dv_used_next), reference counting, and the two-phase sweep
 * the garbage collector runs over that list.
 *
 * The C code keeps first_dict and in_free_unref_items in globals; here they
 * are the fields of one Registry object that every lifecycle operation
 * receives.  The ghost sequence Nodes lists the registered dictionaries from
 * first_dict along dv_used_next.
 */
module DictRegistry {
  import opened DictCore

  /** The frame of a possibly-null dictionary reference. */
  function Opt(d: Dict?): set<Dict>
  {
    if d == null then {} else {d}
  }

  /** The dictionaries in front of and behind d in the list (the ones dict_free_dict relinks). */
  function PrevOf(d: Dict?): set<Dict>
    reads d
  {
    if d == null then {} else Opt(d.usedPrev)
  }

  function NextOf(d: Dict?): set<Dict>
    reads d
  {
    if d == null then {} else Opt(d.usedNext)
  }

  /** No dictionary occurs twice in s. */
  ghost predicate Distinct(s: seq<Dict>)
  {
    s == [] || (s[0] !in s[1..] && Distinct(s[1..]))
  }

  /** Distinct, stated on pairs of positions. */
  lemma {:induction false} DistinctPairs(s: seq<Dict>)
    ensures Distinct(s) <==> forall i, j :: 0 <= i < j < |s| ==> s[i] != s[j]
  {
    if s != [] {
      DistinctPairs(s[1..]);
      if Distinct(s) {
        forall i, j | 0 <= i < j < |s| ensures s[i] != s[j] {
          assert s[j] == s[1..][j - 1];
          if i > 0 {
            assert s[i] == s[1..][i - 1];
          }
        }
      }
      if forall i, j :: 0 <= i < j < |s| ==> s[i] != s[j] {
        forall i, j | 0 <= i < j < |s[1..]| ensures s[1..][i] != s[1..][j] {
          assert s[1..][i] == s[i + 1] && s[1..][j] == s[j + 1];
        }
      }
    }
  }

  /** s without d, order kept. */
  ghost function Without(s: seq<Dict>, d: Dict): (r: seq<Dict>)
    ensures |r| <= |s|
  {
    if s == [] then [] else (if s[0] == d then [] else [s[0]]) + Without(s[1..], d)
  }

  /** s without the members of out, order kept. */
  ghost function Drop(s: seq<Dict>, out: set<Dict>): seq<Dict>
  {
    if s == [] then [] else (if s[0] in out then [] else [s[0]]) + Drop(s[1..], out)
  }

  /** The collector's test: the masked copyID of d differs from the masked epoch. */
  ghost predicate Unmarked(d: Dict, copyID: int)
    reads d`copyID
  {
    MaskCopyID(d.copyID) != MaskCopyID(copyID)
  }

  /** The registered dictionaries the sweep for copyID reclaims. */
  ghost function UnmarkedIn(s: seq<Dict>, copyID: int): set<Dict>
    reads (set n | n in s)`copyID
  {
    set n | n in s && Unmarked(n, copyID)
  }

  lemma {:induction false} WithoutConcat(a: seq<Dict>, b: seq<Dict>, d: Dict)
    ensures Without(a + b, d) == Without(a, d) + Without(b, d)
  {
    if a == [] {
      assert a + b == b;
    } else {
      assert (a + b)[1..] == a[1..] + b;
      WithoutConcat(a[1..], b, d);
    }
  }

  lemma {:induction false} WithoutAbsent(a: seq<Dict>, d: Dict)
    requires d !in a
    ensures Without(a, d) == a
  {
    if a != [] {
      WithoutAbsent(a[1..], d);
    }
  }

  /** Removing the member at index k of a list without repetitions. */
  lemma {:induction false} WithoutAt(s: seq<Dict>, k: nat)
    requires Distinct(s) && k < |s|
    ensures Without(s, s[k]) == s[..k] + s[k + 1..]
  {
    assert Distinct(s[1..]);
    if k == 0 {
      assert s[0] !in s[1..];
      WithoutAbsent(s[1..], s[0]);
    } else {
      assert s[1..][k - 1] == s[k];
      WithoutAt(s[1..], k - 1);
      assert s[..k] == [s[0]] + s[1..][..k - 1];
      assert s[k + 1..] == s[1..][k..];
    }
  }

  lemma {:induction false} DropSnoc(s: seq<Dict>, x: Dict, out: set<Dict>)
    ensures Drop(s + [x], out) == Drop(s, out) + (if x in out then [] else [x])
  {
    if s == [] {
      assert [] + [x] == [x];
    } else {
      assert (s + [x])[1..] == s[1..] + [x];
      DropSnoc(s[1..], x, out);
    }
  }

  /** Unlinking d from between a and b, where d occurs in neither. */
  lemma WithoutMiddle(a: seq<Dict>, d: Dict, b: seq<Dict>)
    requires d !in a && d !in b
    ensures Without(a + ([d] + b), d) == a + b
  {
    WithoutConcat([d], b, d);
    WithoutAbsent(b, d);
    assert Without([d], d) == [];
    assert Without([d] + b, d) == b;
    WithoutConcat(a, [d] + b, d);
    WithoutAbsent(a, d);
  }

  /** Drop keeps only members of s. */
  lemma {:induction false} DropSub(s: seq<Dict>, out: set<Dict>, x: Dict)
    requires x in Drop(s, out)
    ensures x in s && x !in out
  {
    if s != [] && (x != s[0] || s[0] in out) {
      DropSub(s[1..], out, x);
    }
  }

  /** Exactly the members of s outside out survive the sweep. */
  lemma {:induction false} DropMembers(s: seq<Dict>, out: set<Dict>, x: Dict)
    ensures x in Drop(s, out) <==> x in s && x !in out
  {
    if s != [] {
      DropMembers(s[1..], out, x);
      assert s == [s[0]] + s[1..];
    }
  }

  /** Freeing a dictionary just allocated gives back the registry it was added to. */
  lemma {:induction false} AllocThenFree(nodes: seq<Dict>, d: Dict)
    requires d !in nodes
    ensures Without([d] + nodes, d) == nodes
  {
    assert ([d] + nodes)[1..] == nodes;
    WithoutAbsent(nodes, d);
  }

  /** In a list without repetitions, s[i] occurs neither before nor after index i. */
  lemma DistinctAt(s: seq<Dict>, i: nat)
    requires Distinct(s) && i < |s|
    ensures s[i] !in s[..i] && s[i] !in s[i + 1..]
  {
    DistinctPairs(s);
  }

  /**
   * The shape of the list in front of all[i] during dict_free_items: the
   * survivors of all[..i], all[i] itself, then the rest of all.
   */
  lemma StepShape(all: seq<Dict>, out: set<Dict>, i: nat)
    requires Distinct(all) && i < |all|
    ensures all[i] !in Drop(all[..i], out) && all[i] !in all[i + 1..]
    ensures forall x :: x in Drop(all[..i], out) ==> x in all
    ensures all[i..] == [all[i]] + all[i + 1..]
    ensures Drop(all[..i + 1], out) == Drop(all[..i], out) + (if all[i] in out then [] else [all[i]])
  {
    DistinctAt(all, i);
    forall x | x in Drop(all[..i], out)
      ensures x in all
    {
      DropSub(all[..i], out, x);
    }
    if all[i] in Drop(all[..i], out) {
      DropSub(all[..i], out, all[i]);
    }
    DropStep(all, i, out);
  }

  lemma DropStep(s: seq<Dict>, i: nat, out: set<Dict>)
    requires i < |s|
    ensures Drop(s[..i + 1], out) == Drop(s[..i], out) + (if s[i] in out then [] else [s[i]])
  {
    assert s[..i + 1] == s[..i] + [s[i]];
    DropSnoc(s[..i], s[i], out);
  }

  /** The neighbours of s[i] in the list, null past either end. */
  function PrevIn(s: seq<Dict>, i: int): Dict?
    requires 0 <= i <= |s|
  {
    if i == 0 then null else s[i - 1]
  }

  function NextIn(s: seq<Dict>, i: int): Dict?
    requires 0 <= i < |s|
  {
    if i + 1 < |s| then s[i + 1] else null
  }

  /** Each member of s links back to its predecessor and forward to its successor. */
  ghost predicate Links(s: seq<Dict>)
    reads (set n | n in s)`usedPrev, (set n | n in s)`usedNext
  {
    && (forall i {:trigger s[i].usedPrev} :: 0 <= i < |s| ==> s[i].usedPrev == PrevIn(s, i))
    && (forall i {:trigger s[i].usedNext} :: 0 <= i < |s| ==> s[i].usedNext == NextIn(s, i))
  }

  lemma LinksAt(s: seq<Dict>)
    requires Links(s)
    ensures forall i {:trigger s[i].usedPrev} :: 0 <= i < |s| ==> s[i].usedPrev == PrevIn(s, i)
    ensures forall i {:trigger s[i].usedNext} :: 0 <= i < |s| ==> s[i].usedNext == NextIn(s, i)
  {
  }

  /** Removing the member at index k keeps the others distinct. */
  lemma DistinctRemove(s: seq<Dict>, k: nat)
    requires Distinct(s) && k < |s|
    ensures Distinct(s[..k] + s[k + 1..])
  {
    var r := s[..k] + s[k + 1..];
    DistinctPairs(s);
    forall i, j | 0 <= i < j < |r| ensures r[i] != r[j] {
      var i', j' := if i < k then i else i + 1, if j < k then j else j + 1;
      assert r[i] == s[i'] && r[j] == s[j'] && i' < j';
    }
    DistinctPairs(r);
  }

  /** Unlinking the member at index k: the forward links of the shorter list. */
  lemma NextAfter(s: seq<Dict>, k: nat)
    requires k < |s|
    requires forall i {:trigger s[i].usedNext} :: 0 <= i < |s| && i != k - 1 && i != k ==> s[i].usedNext == NextIn(s, i)
    requires k > 0 ==> s[k - 1].usedNext == NextIn(s, k)
    ensures var r := s[..k] + s[k + 1..];
      forall i {:trigger r[i].usedNext} :: 0 <= i < |r| ==> r[i].usedNext == NextIn(r, i)
  {
    var r := s[..k] + s[k + 1..];
    forall i | 0 <= i < |r| ensures r[i].usedNext == NextIn(r, i) {
      if i < k - 1 {
        assert r[i] == s[i] && r[i + 1] == s[i + 1];
      } else if i == k - 1 {
        assert r[i] == s[k - 1];
        assert k + 1 < |s| ==> r[i + 1] == s[k + 1];
      } else {
        assert r[i] == s[i + 1];
        assert i + 1 < |r| ==> r[i + 1] == s[i + 2];
      }
    }
  }

  /** Unlinking the member at index k: the backward links of the shorter list. */
  lemma PrevAfter(s: seq<Dict>, k: nat)
    requires k < |s|
    requires forall i {:trigger s[i].usedPrev} :: 0 <= i < |s| && i != k + 1 && i != k ==> s[i].usedPrev == PrevIn(s, i)
    requires k + 1 < |s| ==> s[k + 1].usedPrev == PrevIn(s, k)
    ensures var r := s[..k] + s[k + 1..];
      forall i {:trigger r[i].usedPrev} :: 0 <= i < |r| ==> r[i].usedPrev == PrevIn(r, i)
  {
    var r := s[..k] + s[k + 1..];
    forall i | 0 <= i < |r| ensures r[i].usedPrev == PrevIn(r, i) {
      if i < k {
        assert r[i] == s[i];
        assert i > 0 ==> r[i - 1] == s[i - 1];
      } else if i == k {
        assert r[i] == s[k + 1];
        assert k > 0 ==> r[i - 1] == s[k - 1];
      } else {
        assert r[i] == s[i + 1] && r[i - 1] == s[i];
      }
    }
  }

  /** Unlinking the member at index k: the links the unlink rewrote and the untouched ones form the shorter list. */
  lemma LinksAfter(s: seq<Dict>, k: nat)
    requires Distinct(s) && k < |s|
    requires forall i {:trigger s[i].usedNext} :: 0 <= i < |s| && i != k - 1 && i != k ==> s[i].usedNext == NextIn(s, i)
    requires forall i {:trigger s[i].usedPrev} :: 0 <= i < |s| && i != k + 1 && i != k ==> s[i].usedPrev == PrevIn(s, i)
    requires k > 0 ==> s[k - 1].usedNext == NextIn(s, k)
    requires k + 1 < |s| ==> s[k + 1].usedPrev == PrevIn(s, k)
    ensures Distinct(s[..k] + s[k + 1..]) && Links(s[..k] + s[k + 1..])
  {
    DistinctRemove(s, k);
    NextAfter(s, k);
    PrevAfter(s, k);
  }

  /** Pushing d at the head: the rewritten links and the untouched ones form the longer list. */
  lemma LinksPush(s: seq<Dict>, d: Dict)
    requires Distinct(s) && d !in s
    requires forall i {:trigger s[i].usedNext} :: 0 <= i < |s| ==> s[i].usedNext == NextIn(s, i)
    requires forall i {:trigger s[i].usedPrev} :: 0 < i < |s| ==> s[i].usedPrev == PrevIn(s, i)
    requires |s| > 0 ==> s[0].usedPrev == d
    requires d.usedPrev == null && d.usedNext == (if s == [] then null else s[0])
    ensures Distinct([d] + s) && Links([d] + s)
  {
    var r := [d] + s;
    assert forall i :: 0 < i < |r| ==> r[i] == s[i - 1];
    forall i | 0 <= i < |r| ensures r[i].usedNext == NextIn(r, i) {
      if i > 0 {
        assert r[i] == s[i - 1];
      }
    }
    forall i | 0 <= i < |r| ensures r[i].usedPrev == PrevIn(r, i) {
      if i > 1 {
        assert r[i] == s[i - 1] && r[i - 1] == s[i - 2];
      }
    }
  }

  /**
   * One step of dict_free_nonref: when the masked copyID of dd differs from
   * the masked epoch, release its items (dict_free_contents).
   */
  method SweepOne(dd: Dict, copyID: int) returns (freed: bool)
    requires dd.Valid()
    modifies dd`slots, dd`used
    ensures dd.Valid() && freed == Unmarked(dd, copyID)
    ensures freed ==> dd.slots == [] && dd.used == 0
    ensures !freed ==> dd.slots == old(dd.slots) && dd.used == old(dd.used)
  {
    freed := false;
    if MaskCopyID(dd.copyID) != MaskCopyID(copyID) {
      ghost var items := DictFreeContents(dd);
      freed := true;
    }
  }

  /**
   * The loop of dict_free_nonref: walk the list all from its head first
   * along dv_used_next and release the items of every unmarked member.
   */
  method SweepContents(first: Dict?, ghost all: seq<Dict>, copyID: int) returns (didFree: bool)
    requires Links(all) && first == (if all == [] then null else all[0])
    requires forall j :: 0 <= j < |all| ==> all[j].Valid()
    modifies (set n | n in all)`slots, (set n | n in all)`used
    ensures forall j :: 0 <= j < |all| ==> all[j].Valid()
    ensures forall j :: 0 <= j < |all| ==>
      if Unmarked(all[j], copyID) then all[j].slots == [] && all[j].used == 0
      else all[j].slots == old(all[j].slots) && all[j].used == old(all[j].used)
    ensures didFree <==> exists j :: 0 <= j < |all| && Unmarked(all[j], copyID)
  {
    ghost var done: set<Dict> := {};
    didFree := false;
    var dd := first;
    ghost var i: nat := 0;
    LinksAt(all);
    while dd != null
      invariant 0 <= i <= |all|
      invariant dd == (if i < |all| then all[i] else null)
      invariant forall j :: 0 <= j < i ==> all[j] in done
      invariant forall j {:trigger all[j].Valid()} :: 0 <= j < |all| ==> all[j].Valid()
      invariant forall j :: 0 <= j < |all| ==>
        if all[j] in done && Unmarked(all[j], copyID) then all[j].slots == [] && all[j].used == 0
        else all[j].slots == old(all[j].slots) && all[j].used == old(all[j].used)
      invariant didFree <==> exists j :: 0 <= j < i && Unmarked(all[j], copyID)
      decreases |all| - i
    {
      var next := dd.usedNext;
      assert next == old(dd.usedNext) == NextIn(all, i);
      var freed := SweepOne(dd, copyID);
      didFree := didFree || freed;
      done := done + {all[i]};
      assert forall j :: 0 <= j <= i ==> all[j] in done;
      dd := next;
      i := i + 1;
    }
  }

  class Registry {
    var first: Dict?               // first_dict
    var inFreeUnrefItems: bool     // in_free_unref_items, set by the collector driver
    ghost var Nodes: seq<Dict>     // the list from first_dict along dv_used_next

    /** The links of the doubly-linked list agree with Nodes. */
    ghost predicate Valid()
      reads this`first, this`Nodes, (set n | n in Nodes)`usedPrev, (set n | n in Nodes)`usedNext
    {
      && Distinct(Nodes)
      && first == (if Nodes == [] then null else Nodes[0])
      && Links(Nodes)
    }

    /** Every registered dictionary satisfies the hashtable invariant. */
    ghost predicate AllValid()
      reads this`Nodes, (set n | n in Nodes)`slots, (set n | n in Nodes)`used
    {
      forall i :: 0 <= i < |Nodes| ==> Nodes[i].Valid()
    }

    constructor ()
      ensures Valid() && Nodes == [] && !inFreeUnrefItems
    {
      first := null;
      inFreeUnrefItems := false;
      Nodes := [];
    }

    /**
     * dict_alloc: a new empty dictionary with refcount 0, lock 0 and no
     * scope, pushed at the head of the list.  With oom the allocation fails
     * and nothing changes.
     */
    method DictAlloc(oom: bool) returns (d: Dict?)
      requires Valid()
      modifies this`first, this`Nodes, Opt(first)`usedPrev
      ensures Valid()
      ensures d == null <==> oom
      ensures d == null ==> Nodes == old(Nodes) && first == old(first)
      ensures d != null ==> fresh(d) && Nodes == [d] + old(Nodes) && first == d
      ensures d != null ==> d.Valid() && d.Contents() == map[] && d.used == 0
      ensures d != null ==> d.refcount == 0 && d.lock == 0 && d.scope == 0 && d.copyID == 0
    {
      if oom {
        return null;
      }
      ghost var nodes := Nodes;
      LinksAt(nodes);
      d := new Dict();
      assert d !in nodes;
      if first != null {
        first.usedPrev := d;
      }
      d.usedNext := first;
      d.usedPrev := null;
      first := d;
      Nodes := [d] + Nodes;
      forall i | 0 <= i < |nodes|
        ensures nodes[i].usedNext == old(nodes[i].usedNext)
        ensures i > 0 ==> nodes[i].usedPrev == old(nodes[i].usedPrev)
      {
        assert nodes[i] != d;
        assert i > 0 ==> nodes[i] != nodes[0];
      }
      LinksPush(nodes, d);
    }

    /** dict_alloc_lock: dict_alloc with the given lock level. */
    method DictAllocLock(lock: int, oom: bool) returns (d: Dict?)
      requires Valid()
      modifies this`first, this`Nodes, Opt(first)`usedPrev
      ensures Valid()
      ensures d == null <==> oom
      ensures d == null ==> Nodes == old(Nodes)
      ensures d != null ==> fresh(d) && Nodes == [d] + old(Nodes)
      ensures d != null ==> d.Valid() && d.Contents() == map[] && d.refcount == 0 && d.lock == lock
      ensures d != null ==> d.scope == 0 && d.copyID == 0
    {
      d := DictAlloc(oom);
      if d != null {
        d.lock := lock;
      }
    }

    /**
     * dict_free_dict: unlink d from the list (and release its header).
     * Every other member keeps consistent links.
     */
    method DictFreeDict(d: Dict)
      requires Valid() && d in Nodes
      modifies this`first, this`Nodes, PrevOf(d)`usedNext, NextOf(d)`usedPrev
      ensures Valid()
      ensures Nodes == Without(old(Nodes), d)
      ensures |Nodes| == |old(Nodes)| - 1
    {
      ghost var nodes := Nodes;
      ghost var k :| 0 <= k < |nodes| && nodes[k] == d;
      WithoutAt(nodes, k);
      ghost var p := if k == 0 then null else nodes[k - 1];
      ghost var q := if k + 1 < |nodes| then nodes[k + 1] else null;
      LinksAt(nodes);
      assert d.usedPrev == p && d.usedNext == q;
      if d.usedPrev == null {
        first := d.usedNext;
      } else {
        d.usedPrev.usedNext := d.usedNext;
      }
      if d.usedNext != null {
        d.usedNext.usedPrev := d.usedPrev;
      }
      Nodes := nodes[..k] + nodes[k + 1..];
      DistinctPairs(nodes);
      forall i | 0 <= i < |nodes| && i != k - 1
        ensures nodes[i].usedNext == old(nodes[i].usedNext)
      {
        assert k > 0 ==> nodes[i] != nodes[k - 1];
      }
      forall i | 0 <= i < |nodes| && i != k + 1
        ensures nodes[i].usedPrev == old(nodes[i].usedPrev)
      {
        assert k + 1 < |nodes| ==> nodes[i] != nodes[k + 1];
      }
      LinksAfter(nodes, k);
    }

    /**
     * dict_free: release the items and then the header, unless a sweep is
     * running (in_free_unref_items), in which case nothing happens: the sweep
     * will release the dictionary itself.
     */
    method DictFree(d: Dict) returns (ghost freed: seq<Item>)
      requires Valid() && d in Nodes && d.Valid()
      modifies this`first, this`Nodes, PrevOf(d)`usedNext, NextOf(d)`usedPrev, d`slots, d`used
      ensures Valid()
      ensures inFreeUnrefItems ==> Nodes == old(Nodes) && d.slots == old(d.slots) && d.used == old(d.used) && freed == []
      ensures !inFreeUnrefItems ==> Nodes == Without(old(Nodes), d) && d.Contents() == map[]
      ensures !inFreeUnrefItems ==> freed == old(Entries(d.slots))
    {
      freed := [];
      if !inFreeUnrefItems {
        freed := DictFreeContents(d);
        DictFreeDict(d);
      }
    }

    /**
     * dict_unref: decrement the refcount of d (when d is not null) and free d
     * when the count drops to zero or below.
     */
    method DictUnref(d: Dict?)
      requires Valid() && (d != null ==> d in Nodes && d.Valid())
      modifies this`first, this`Nodes, PrevOf(d)`usedNext, NextOf(d)`usedPrev
      modifies Opt(d)`slots, Opt(d)`used, Opt(d)`refcount
      ensures Valid()
      ensures d == null ==> Nodes == old(Nodes)
      ensures d != null ==> d.refcount == old(d.refcount) - 1
      ensures d != null && d.refcount <= 0 && !inFreeUnrefItems ==>
        Nodes == Without(old(Nodes), d) && d.Contents() == map[]
      ensures d != null && (d.refcount > 0 || inFreeUnrefItems) ==>
        Nodes == old(Nodes) && d.slots == old(d.slots) && d.used == old(d.used)
    {
      if d != null {
        d.refcount := d.refcount - 1;
        if d.refcount <= 0 {
          ghost var freed := DictFree(d);
        }
      }
    }

    /**
     * dict_free_nonref: the first phase of the sweep.  Release the items of
     * every registered dictionary whose masked copyID differs from the masked
     * epoch, keep every other dictionary as it is, and report whether there
     * was at least one.
     */
    method DictFreeNonref(copyID: int) returns (didFree: bool)
      requires Valid() && AllValid()
      modifies (set n | n in Nodes)`slots, (set n | n in Nodes)`used
      ensures Valid() && AllValid() && Nodes == old(Nodes)
      ensures forall i :: 0 <= i < |Nodes| ==>
        if Unmarked(Nodes[i], copyID) then Nodes[i].slots == [] && Nodes[i].used == 0
        else Nodes[i].slots == old(Nodes[i].slots) && Nodes[i].used == old(Nodes[i].used)
      ensures didFree <==> exists i :: 0 <= i < |Nodes| && Unmarked(Nodes[i], copyID)
    {
      didFree := SweepContents(first, Nodes, copyID);
    }

    /**
     * dict_free_items: the second phase of the sweep.  Unlink every
     * registered dictionary whose masked copyID differs from the masked epoch;
     * the others stay in the list, in their order.
     */
    method DictFreeItems(copyID: int)
      requires Valid()
      modifies this`first, this`Nodes, (set n | n in Nodes)`usedPrev, (set n | n in Nodes)`usedNext
      ensures Valid()
      ensures Nodes == Drop(old(Nodes), old(UnmarkedIn(Nodes, copyID)))
    {
      ghost var all := Nodes;
      ghost var out := UnmarkedIn(Nodes, copyID);
      var dd := first;
      ghost var i := 0;
      while dd != null
        invariant 0 <= i <= |all| && Distinct(all)
        invariant dd == (if i < |all| then all[i] else null)
        invariant Valid()
        invariant Nodes == Drop(all[..i], out) + all[i..]
        invariant forall j :: i <= j < |all| ==> (all[j] in out <==> Unmarked(all[j], copyID))
        decreases |all| - i
      {
        dd := FreeItemsStep(dd, copyID, all, out, i);
        i := i + 1;
      }
      assert all[..i] == all;
    }

    /**
     * One step of dict_free_items on dd = all[i]: read dv_used_next, then
     * unlink dd when its masked copyID differs from the masked epoch.
     */
    method FreeItemsStep(dd: Dict, copyID: int, ghost all: seq<Dict>, ghost out: set<Dict>, ghost i: nat)
      returns (next: Dict?)
      requires Valid() && Distinct(all) && i < |all| && dd == all[i]
      requires Nodes == Drop(all[..i], out) + all[i..]
      requires dd in out <==> Unmarked(dd, copyID)
      modifies this`first, this`Nodes, (set n | n in all)`usedPrev, (set n | n in all)`usedNext
      ensures Valid()
      ensures Nodes == Drop(all[..i + 1], out) + all[i + 1..]
      ensures next == (if i + 1 < |all| then all[i + 1] else null)
    {
      ghost var pre := Drop(all[..i], out);
      StepShape(all, out, i);
      ghost var k := |pre|;
      LinksAt(Nodes);
      assert Nodes[k] == dd;
      next := dd.usedNext;
      assert next == NextIn(Nodes, k);
      assert k + 1 < |Nodes| ==> Nodes[k + 1] == all[i + 1];
      if MaskCopyID(dd.copyID) != MaskCopyID(copyID) {
        assert k > 0 ==> Nodes[k - 1] in pre;
        DictFreeDict(dd);
        WithoutMiddle(pre, dd, all[i + 1..]);
        assert Nodes == pre + all[i + 1..];
      } else {
        assert Nodes == (pre + [dd]) + all[i + 1..];
      }
    }
  }

  /**
   * hashtab_free_contents (through dict_free_contents): remove every item,
   * one slot at a time, and release the slot array.  The ghost result lists
   * the released items in the order the loop releases them; each of their
   * values is cleared once (clear_tv is outside this model).
   */
  method DictFreeContents(d: Dict) returns (ghost freed: seq<Item>)
    requires d.Valid()
    modifies d`slots, d`used
    ensures d.Valid() && d.Contents() == map[] && d.used == 0 && d.slots == []
    ensures freed == old(Entries(d.slots))
  {
    var todo := d.used;
    var i := 0;
    ghost var s := d.slots;
    freed := [];
    while todo > 0
      invariant 0 <= i <= |s| && |d.slots| == |s|
      invariant d.Valid() && d.used == todo
      invariant d.slots[i..] == s[i..]
      invariant todo == |Entries(s[i..])|
      invariant Entries(s) == freed + Entries(s[i..])
      decreases |s| - i
    {
      EntriesStep(s, i);
      assert |Entries(s[i..])| == (if s[i].Some? then 1 else 0) + |Entries(s[i + 1..])|;
      assert d.slots[i] == d.slots[i..][0] == s[i];
      ghost var s0 := d.slots;
      assert s0[i + 1..] == s0[i..][1..] == s[i..][1..] == s[i + 1..];
      if d.slots[i].Some? {
        ConcatAssoc(freed, [s[i].value], Entries(s[i + 1..]));
        freed := freed + [d.slots[i].value];
        d.HashRemove(i);
        assert d.slots[i + 1..] == s0[i + 1..];
        todo := todo - 1;
      }
      i := i + 1;
    }
    d.slots := [];   // hash_clear releases the slot array
    assert Entries(d.slots) == [];
  }
}
