/**
 * dict_copy: a new dictionary holding a copy of every item of another one,
 * shallow (the values are shared) or deep (item_copy copies each value).
 *
 * The walk over the slots that the C loop performs is also written as the
 * function Walk, which tells which items get copied, how many items are left
 * when the loop stops, and whether it stopped because a step failed.  The
 * loop as written decides success from the count left alone; see the
 * lemmas LastFailureSucceedsAsWritten and AsWrittenLosesLastKey.
 */
module DictCopy {
  import opened DictCore
  import opened DictRegistry

  /**
   * What the loop cannot see: the deep copy of a value (item_copy), whether
   * copying the item in slot i fails (dictitem_alloc, item_copy or the
   * growth of the new table runs out of memory), and whether got_int is set
   * when the loop test runs before slot i.
   */
  datatype Oracles = Oracles(deepCopy: Value -> Value, fails: nat -> bool, interrupt: nat -> bool)

  /** The copy of one item: same key, the value shared or deep-copied, lock 0, DI_FLAGS_ALLOC. */
  function CopyItem(x: Item, deep: bool, o: Oracles): (r: Item)
    ensures r.key == x.key && r.lock == 0 && r.flags == AllocFlags
    ensures !deep ==> r.tv == x.tv
  {
    Item(x.key, if deep then o.deepCopy(x.tv) else x.tv, 0, AllocFlags)
  }

  /** The copies of a sequence of items, in order. */
  function Copies(es: seq<Item>, deep: bool, o: Oracles): (r: seq<Item>)
    ensures |r| == |es|
    ensures forall i :: 0 <= i < |es| ==> r[i] == CopyItem(es[i], deep, o)
  {
    if es == [] then [] else [CopyItem(es[0], deep, o)] + Copies(es[1..], deep, o)
  }

  /** The dictionary a complete copy denotes: the same keys, each item copied. */
  ghost function CopyMap(m: map<string, Item>, deep: bool, o: Oracles): map<string, Item>
  {
    map k | k in m :: CopyItem(m[k], deep, o)
  }

  /** Copying keeps the keys, so it keeps them unique. */
  lemma {:induction false} CopiesKeys(es: seq<Item>, deep: bool, o: Oracles)
    ensures Keys(Copies(es, deep, o)) == Keys(es)
    ensures UniqueKeys(Copies(es, deep, o)) <==> UniqueKeys(es)
  {
    if es != [] {
      var c := Copies(es, deep, o);
      assert c[1..] == Copies(es[1..], deep, o);
      CopiesKeys(es[1..], deep, o);
    }
  }

  /** The map of the copies is the copy of the map. */
  lemma {:induction false} CopiesMap(es: seq<Item>, deep: bool, o: Oracles)
    ensures MapOf(Copies(es, deep, o)) == CopyMap(MapOf(es), deep, o)
  {
    if es != [] {
      var c := Copies(es, deep, o);
      assert c[1..] == Copies(es[1..], deep, o);
      CopiesMap(es[1..], deep, o);
      var m := MapOf(es[1..]);
      var x := es[0];
      assert CopyMap(m[x.key := x], deep, o) == CopyMap(m, deep, o)[x.key := CopyItem(x, deep, o)];
    }
  }

  lemma CopiesAppend(es: seq<Item>, x: Item, deep: bool, o: Oracles)
    ensures Copies(es + [x], deep, o) == Copies(es, deep, o) + [CopyItem(x, deep, o)]
  {
  }

  /** Adding an item with a new key at the end of a sequence adds it to the map. */
  lemma AppendItem(a: seq<Item>, y: Item)
    requires UniqueKeys(a) && y.key !in Keys(a)
    ensures UniqueKeys(a + [y]) && MapOf(a + [y]) == MapOf(a)[y.key := y]
  {
    Cons(y, []);
    assert [y] + [] == [y];
    UniqueConcat(a, [y]);
    MapOfConcat(a, [y]);
  }

  /** Where the copying loop ends: the items copied, the count left, and whether a step failed. */
  datatype Outcome = Outcome(copied: seq<Item>, todo: int, failed: bool)

  /**
   * The copying loop of dict_copy from slot i with todo items still to
   * visit.  It stops when the count reaches 0 or got_int is set; an item
   * is counted off before it is copied, and a failed step stops the loop.
   */
  function Walk(s: Slots, i: nat, todo: int, deep: bool, o: Oracles): (r: Outcome)
    ensures r.todo <= todo
    ensures r.failed || r.copied != [] ==> r.todo < todo
    decreases |s| - i
  {
    if i >= |s| || todo <= 0 || o.interrupt(i) then Outcome([], todo, false)
    else if s[i].None? then Walk(s, i + 1, todo, deep, o)
    else if o.fails(i) then Outcome([], todo - 1, true)
    else
      var w := Walk(s, i + 1, todo - 1, deep, o);
      w.(copied := [CopyItem(s[i].value, deep, o)] + w.copied)
  }

  /** Every item the loop counts off is either copied or the one that failed. */
  lemma {:induction false} WalkCount(s: Slots, i: nat, todo: int, deep: bool, o: Oracles)
    requires todo >= 0
    ensures var w := Walk(s, i, todo, deep, o);
      w.todo >= 0 && |w.copied| + w.todo + (if w.failed then 1 else 0) == todo
    decreases |s| - i
  {
    if i < |s| && todo > 0 && !o.interrupt(i) {
      if s[i].None? {
        WalkCount(s, i + 1, todo, deep, o);
      } else if !o.fails(i) {
        WalkCount(s, i + 1, todo - 1, deep, o);
      }
    }
  }

  /** The loop copies a prefix of the items, in slot order. */
  lemma {:induction false} WalkPrefix(s: Slots, i: nat, todo: int, deep: bool, o: Oracles)
    requires i <= |s| && todo == |Entries(s[i..])|
    ensures Walk(s, i, todo, deep, o).copied <= Copies(Entries(s[i..]), deep, o)
    decreases |s| - i
  {
    if i < |s| && todo > 0 && !o.interrupt(i) {
      EntriesStep(s, i);
      var es := Entries(s[i..]);
      if s[i].None? {
        WalkPrefix(s, i + 1, todo, deep, o);
      } else if !o.fails(i) {
        WalkPrefix(s, i + 1, todo - 1, deep, o);
        var w := Walk(s, i + 1, todo - 1, deep, o);
        var c := Copies(es, deep, o);
        assert es[1..] == Entries(s[i + 1..]);
        assert c[1..] == Copies(es[1..], deep, o);
        PrefixCons(c[0], w.copied, c[1..]);
        assert c == [c[0]] + c[1..];
      }
    }
  }

  lemma PrefixCons(x: Item, a: seq<Item>, b: seq<Item>)
    requires a <= b
    ensures [x] + a <= [x] + b
  {
    assert ([x] + b)[..|a| + 1] == [x] + b[..|a|];
  }

  /** Success as dict_copy decides it: no item left to visit. */
  predicate SucceedsAsWritten(w: Outcome)
  {
    w.todo == 0
  }

  /** Success as it is meant: every item visited and no step failed. */
  predicate Succeeds(w: Outcome)
  {
    w.todo == 0 && !w.failed
  }

  /** A successful walk has copied every item of the table. */
  lemma CopiesEverything(s: Slots, deep: bool, o: Oracles)
    requires Succeeds(Walk(s, 0, |Entries(s)|, deep, o))
    ensures Walk(s, 0, |Entries(s)|, deep, o).copied == Copies(Entries(s), deep, o)
  {
    assert s[0..] == s;
    WalkPrefix(s, 0, |Entries(s)|, deep, o);
    WalkCount(s, 0, |Entries(s)|, deep, o);
  }

  /** Without failures and interrupts the walk succeeds. */
  lemma {:induction false} WalkWithoutFailures(s: Slots, i: nat, todo: int, deep: bool, o: Oracles)
    requires i <= |s| && todo == |Entries(s[i..])|
    requires forall j :: i <= j < |s| ==> !o.fails(j) && !o.interrupt(j)
    ensures Succeeds(Walk(s, i, todo, deep, o))
    decreases |s| - i
  {
    if i < |s| && todo > 0 {
      EntriesStep(s, i);
      WalkWithoutFailures(s, i + 1, if s[i].Some? then todo - 1 else todo, deep, o);
    } else if i == |s| {
      assert s[i..] == [];
    }
  }

  /**
   * When the last item fails, the loop as written still reports success:
   * the count reached 0 before the failing step.  The copy then misses a
   * key.
   */
  lemma AsWrittenLosesLastKey(s: Slots, deep: bool, o: Oracles)
    requires var w := Walk(s, 0, |Entries(s)|, deep, o); SucceedsAsWritten(w) && w.failed
    ensures |Walk(s, 0, |Entries(s)|, deep, o).copied| == |Entries(s)| - 1
  {
    WalkCount(s, 0, |Entries(s)|, deep, o);
  }

  /** A one-item dictionary whose only item cannot be copied is returned, empty, as a success. */
  lemma LastFailureSucceedsAsWritten(x: Item, deep: bool, deepCopy: Value -> Value)
    ensures var o := Oracles(deepCopy, (i: nat) => true, (i: nat) => false);
      var w := Walk([Some(x)], 0, |Entries([Some(x)])|, deep, o);
      SucceedsAsWritten(w) && !Succeeds(w) && Keys(w.copied) != Keys(Entries([Some(x)]))
  {
    var s: Slots := [Some(x)];
    assert Entries(s[1..]) == [];
    assert Entries(s) == [x];
    assert Keys(Entries(s)) == {x.key};
  }

  /** The outcome of a walk that had already copied the items in done. */
  function Resume(done: seq<Item>, w: Outcome): Outcome
  {
    w.(copied := done + w.copied)
  }

  /** What the copying loop knows before slot i, nothing having failed yet. */
  ghost predicate LoopState(s: Slots, used: nat, i: nat, todo: int, copied: seq<Item>, deep: bool, o: Oracles)
  {
    && TableInv(s, used)
    && i <= |s|
    && todo == |Entries(s[i..])|
    && copied == Copies(Entries(s[..i]), deep, o)
    && Walk(s, 0, used, deep, o) == Resume(copied, Walk(s, i, todo, deep, o))
  }

  /** The loop state at the start. */
  lemma LoopStart(s: Slots, used: nat, deep: bool, o: Oracles)
    requires TableInv(s, used)
    ensures LoopState(s, used, 0, used, [], deep, o)
  {
    assert s[0..] == s && s[..0] == [];
    assert [] + Walk(s, 0, used, deep, o).copied == Walk(s, 0, used, deep, o).copied;
  }

  /** Passing an empty slot. */
  lemma LoopSkip(s: Slots, used: nat, i: nat, todo: int, copied: seq<Item>, deep: bool, o: Oracles)
    requires LoopState(s, used, i, todo, copied, deep, o)
    requires todo > 0 && !o.interrupt(i) && i < |s| && s[i].None?
    ensures LoopState(s, used, i + 1, todo, copied, deep, o)
  {
    EntriesStep(s, i);
  }

  /** The copy of the item in a full slot has a key not copied yet. */
  lemma VisitKey(s: Slots, used: nat, i: nat, todo: int, copied: seq<Item>, deep: bool, o: Oracles)
    requires LoopState(s, used, i, todo, copied, deep, o)
    requires i < |s| && s[i].Some?
    ensures UniqueKeys(copied) && CopyItem(s[i].value, deep, o).key !in Keys(copied)
    ensures CopyItem(s[i].value, deep, o).key !in MapOf(copied)
  {
    EntriesStep(s, i);
    EntriesCut(s, i);
    UniqueConcat(Entries(s[..i]), Entries(s[i..]));
    KeysConcat([s[i].value], Entries(s[i + 1..]));
    CopiesKeys(Entries(s[..i]), deep, o);
    MapOfKeys(copied);
  }

  /** A failure at a full slot ends the walk there, with that item counted off. */
  lemma VisitFails(s: Slots, used: nat, i: nat, todo: int, copied: seq<Item>, deep: bool, o: Oracles)
    requires LoopState(s, used, i, todo, copied, deep, o)
    requires todo > 0 && !o.interrupt(i) && i < |s| && s[i].Some? && o.fails(i)
    ensures Walk(s, 0, used, deep, o) == Outcome(copied, todo - 1, true)
  {
    assert copied + [] == copied;
  }

  /** A successful copy at a full slot continues the walk with the copy appended. */
  lemma VisitCopies(s: Slots, used: nat, i: nat, todo: int, copied: seq<Item>, deep: bool, o: Oracles)
    requires LoopState(s, used, i, todo, copied, deep, o)
    requires todo > 0 && !o.interrupt(i) && i < |s| && s[i].Some? && !o.fails(i)
    ensures LoopState(s, used, i + 1, todo - 1, copied + [CopyItem(s[i].value, deep, o)], deep, o)
  {
    EntriesStep(s, i);
    var di := CopyItem(s[i].value, deep, o);
    var w := Walk(s, i + 1, todo - 1, deep, o);
    CopiesAppend(Entries(s[..i]), s[i].value, deep, o);
    assert (copied + [di]) + w.copied == copied + ([di] + w.copied);
  }

  /**
   * One round of the copying loop on slot i, with todo items left and
   * got_int not set: an empty slot is passed, an item is counted off and
   * its copy added to copy.
   */
  method CopySlot(copy: Dict, s: Slots, used: nat, i: nat, todo: int, deep: bool, o: Oracles, ghost copied: seq<Item>)
    returns (todo': int, failed: bool, ghost copied': seq<Item>)
    requires LoopState(s, used, i, todo, copied, deep, o) && todo > 0 && !o.interrupt(i) && i < |s|
    requires copy.Valid() && copy.Contents() == MapOf(copied)
    modifies copy`slots, copy`used
    ensures copy.Valid() && copy.Contents() == MapOf(copied') && todo' >= 0
    ensures !failed ==> LoopState(s, used, i + 1, todo', copied', deep, o)
    ensures failed ==> Walk(s, 0, used, deep, o) == Outcome(copied', todo', true)
  {
    todo', failed, copied' := todo, false, copied;
    if s[i].Some? {
      VisitKey(s, used, i, todo, copied, deep, o);
      var di := CopyItem(s[i].value, deep, o);
      var ok := copy.HashAdd(di, o.fails(i));
      if !ok {
        VisitFails(s, used, i, todo, copied, deep, o);
        failed := true;
      } else {
        VisitCopies(s, used, i, todo, copied, deep, o);
        AppendItem(copied, di);
        copied' := copied + [di];
      }
      todo' := todo - 1;
    } else {
      LoopSkip(s, used, i, todo, copied, deep, o);
    }
  }

  /**
   * The copying loop of dict_copy: visit the slots of s in order while items
   * are left and got_int is not set, count each item off, add its copy to
   * copy, and stop at the first failed step.  It ends where Walk says.
   */
  method CopyLoop(copy: Dict, s: Slots, used: nat, deep: bool, o: Oracles) returns (todo: int, failed: bool)
    requires copy.Valid() && copy.Contents() == map[]
    requires TableInv(s, used)
    modifies copy`slots, copy`used
    ensures copy.Valid() && todo >= 0
    ensures var w := Walk(s, 0, used, deep, o);
      todo == w.todo && failed == w.failed && copy.Contents() == MapOf(w.copied)
  {
    todo := used;
    var i := 0;
    failed := false;
    ghost var copied: seq<Item> := [];
    LoopStart(s, used, deep, o);
    while todo > 0 && !o.interrupt(i) && !failed
      invariant 0 <= i <= |s| && todo >= 0
      invariant copy.Valid() && copy.Contents() == MapOf(copied)
      invariant !failed ==> LoopState(s, used, i, todo, copied, deep, o)
      invariant failed ==> Walk(s, 0, used, deep, o) == Outcome(copied, todo, true)
      decreases |s| - i
    {
      todo, failed, copied := CopySlot(copy, s, used, i, todo, deep, o, copied);
      i := i + 1;
    }
    if !failed {
      assert copied + [] == copied;
    }
  }

  /**
   * The failure path of dict_copy: dict_unref on the new dictionary, which
   * still has refcount 1 and sits at the head of the list.
   */
  method DropCopy(reg: Registry, c: Dict, ghost nodes: seq<Dict>)
    requires reg.Valid() && reg.Nodes == [c] + nodes && c.Valid() && c.refcount == 1
    modifies reg`first, reg`Nodes, Opt(c.usedNext)`usedPrev, c`slots, c`used, c`refcount
    ensures reg.Valid()
    ensures !reg.inFreeUnrefItems ==> reg.Nodes == nodes
    ensures reg.inFreeUnrefItems ==> reg.Nodes == [c] + nodes
    ensures c.refcount == 0
  {
    LinksAt(reg.Nodes);
    assert c.usedPrev == null;
    DistinctPairs(reg.Nodes);
    assert c !in nodes by {
      forall k | 0 <= k < |nodes| ensures nodes[k] != c {
        assert reg.Nodes[k + 1] == nodes[k];
      }
    }
    reg.DictUnref(c);
    if !reg.inFreeUnrefItems {
      assert Without([c], c) == [];
      WithoutConcat([c], nodes, c);
      WithoutAbsent(nodes, c);
    }
  }

  /**
   * The second half of dict_copy, once the new dictionary is allocated and
   * at the head of the list: copy the items, take the reference, and
   * release the copy again when the loop stopped early.
   */
  method FillCopy(reg: Registry, orig: Dict, copy: Dict, deep: bool, o: Oracles, ghost nodes: seq<Dict>)
    returns (r: Dict?)
    requires reg.Valid() && reg.Nodes == [copy] + nodes && orig.Valid() && orig != copy
    requires copy.Valid() && copy.Contents() == map[] && copy.refcount == 0
    modifies reg`first, reg`Nodes, Opt(copy.usedNext)`usedPrev, copy`slots, copy`used, copy`refcount
    ensures reg.Valid()
    ensures r != null <==> Succeeds(Walk(orig.slots, 0, orig.used, deep, o))
    ensures r != null ==> r == copy && reg.Nodes == [copy] + nodes
    ensures r != null ==> copy.Valid() && copy.refcount == 1 && copy.Contents() == CopyMap(orig.Contents(), deep, o)
    ensures r == null && !reg.inFreeUnrefItems ==> reg.Nodes == nodes
    ensures r == null && reg.inFreeUnrefItems ==> reg.Nodes == [copy] + nodes && copy.refcount == 0
  {
    var todo, failed := CopyLoop(copy, orig.slots, orig.used, deep, o);
    assert reg.Valid();
    copy.refcount := copy.refcount + 1;
    assert reg.Valid();
    if todo > 0 || failed {
      DropCopy(reg, copy, nodes);
      return null;
    }
    r := copy;
    assert orig.used == |Entries(orig.slots)|;
    CopiesEverything(orig.slots, deep, o);
    CopiesMap(Entries(orig.slots), deep, o);
  }

  /**
   * dict_copy.  A NULL original gives NULL.  Otherwise a new dictionary is
   * allocated (recorded in the original as its copy when copyID is not 0),
   * the items are copied one by one, and the copy gets refcount 1.  When
   * the loop stops early the copy is released and NULL returned.
   *
   * This version treats a failed step as failure even when it hit the last
   * item; the C code returns the incomplete copy in that case.
   */
  method DictCopy(reg: Registry, orig: Dict?, deep: bool, copyID: int, oomDict: bool, o: Oracles)
    returns (copy: Dict?)
    requires reg.Valid() && (orig != null ==> orig.Valid())
    modifies reg`first, reg`Nodes, Opt(reg.first)`usedPrev, Opt(orig)`copyID, Opt(orig)`copyDict
    ensures reg.Valid()
    ensures orig == null ==> copy == null && reg.Nodes == old(reg.Nodes)
    ensures orig != null ==>
      (copy != null <==> !oomDict && Succeeds(Walk(orig.slots, 0, orig.used, deep, o)))
    ensures copy != null ==> fresh(copy) && reg.Nodes == [copy] + old(reg.Nodes)
    ensures copy != null ==> copy.Valid() && copy.refcount == 1
    ensures copy != null && orig != null ==> copy.Contents() == CopyMap(orig.Contents(), deep, o)
    ensures copy == null && !reg.inFreeUnrefItems ==> reg.Nodes == old(reg.Nodes)
    ensures orig != null && oomDict ==> reg.Nodes == old(reg.Nodes)
    ensures orig != null && !oomDict && copy == null && reg.inFreeUnrefItems ==>
      |reg.Nodes| == |old(reg.Nodes)| + 1 && fresh(reg.Nodes[0]) && reg.Nodes[0].refcount == 0 &&
      reg.Nodes[1..] == old(reg.Nodes)
    ensures orig != null && copyID != 0 && !oomDict ==>
      orig.copyID == copyID && orig.copyDict != null && fresh(orig.copyDict) &&
      (copy != null ==> orig.copyDict == copy)
    ensures orig != null && !(copyID != 0 && !oomDict) ==>
      orig.copyID == old(orig.copyID) && orig.copyDict == old(orig.copyDict)
  {
    if orig == null {
      return null;
    }
    ghost var nodes := reg.Nodes;
    ghost var first := reg.first;
    var c := reg.DictAlloc(oomDict);
    if c == null {
      return null;
    }
    if copyID != 0 {
      orig.copyID := copyID;
      orig.copyDict := c;
    }
    assert reg.Valid();
    LinksAt(reg.Nodes);
    assert c.usedNext == first;
    copy := FillCopy(reg, orig, c, deep, o, nodes);
  }
}
