/**
 * The data model of Vim's Dictionary: typed values, dictionary items, and the
 * dictionary header with its hashtable.
 *
 * The hashtable is abstract: a slot array in which every slot is empty or
 * holds one item.  Iteration walks the slots in order, counting down the
 * number of used slots, exactly as the `todo` loops over `ht_array` do.
 * The dictionary's meaning is the map from keys to items that the non-empty
 * slots hold.
 */
module DictCore {

  datatype Option<+T> = None | Some(value: T)

  /** Lock levels of a value or a whole dictionary (v_lock, dv_lock). */
  const VAR_LOCKED: int := 1
  const VAR_FIXED: int := 2

  /** Scope markers of a dictionary (dv_scope). */
  const VAR_SCOPE: int := 1
  const VAR_DEF_SCOPE: int := 2

  /** Number of slots of a freshly initialised hashtable. */
  const HT_INIT_SIZE: nat := 16

  /** Mask applied to a copyID before the sweep compares it (COPYID_MASK clears bit 0). */
  function MaskCopyID(id: int): (r: int)
    ensures r % 2 == 0 && (r == id || r == id - 1)
  {
    id - id % 2
  }

  /** The value held by a typval (di_tv).  Containers are references. */
  datatype Value =
    | Unknown                    // VAR_UNKNOWN: not yet initialised
    | Number(n: int)             // VAR_NUMBER
    | Bool(b: int)               // VAR_BOOL
    | Special(sp: int)           // VAR_SPECIAL
    | Str(s: Option<string>)     // VAR_STRING; a NULL string is None
    | ListVal(l: List?)          // VAR_LIST
    | DictVal(d: Dict?)          // VAR_DICT
    | Func(name: string)         // VAR_FUNC
    | Other                      // every other kind (float, blob, job, ...)

  /** A list, reduced to what the dictionary code touches: its items and refcount. */
  class List {
    var items: seq<Value>
    var refcount: int

    constructor (items: seq<Value>)
      ensures this.items == items && refcount == 0
    {
      this.items := items;
      refcount := 0;
    }
  }

  /** The flags of a dictionary item (di_flags). */
  datatype Flags = Flags(ro: bool, roSandbox: bool, fix: bool, lockFlag: bool, alloc: bool)

  /** DI_FLAGS_ALLOC alone: the flags of an item fresh from dictitem_alloc. */
  const AllocFlags: Flags := Flags(false, false, false, false, true)

  /** A dictionary item: its key, its value and the value's lock level (v_lock). */
  datatype Item = Item(key: string, tv: Value, lock: int, flags: Flags)

  /**
   * The checks the dictionary code asks of the rest of the engine, each true
   * when it reports an error: var_check_lock on a lock level,
   * var_check_ro and var_check_fixed on item flags, var_check_func_name on
   * a key (and whether it names a new variable); validVarname is
   * valid_varname, true when the key is acceptable.
   */
  datatype Checks = Checks(
    lockErr: int -> bool,
    roErr: Flags -> bool,
    fixedErr: Flags -> bool,
    funcNameErr: (string, bool) -> bool,
    validVarname: string -> bool)

  /** The slot array of a hashtable (ht_array). */
  type Slots = seq<Option<Item>>

  /** The items of the non-empty slots, in slot order. */
  function Entries(s: Slots): seq<Item>
  {
    if s == [] then []
    else (if s[0].Some? then [s[0].value] else []) + Entries(s[1..])
  }

  /** No key occurs twice: each item's key is absent from the items after it. */
  ghost predicate UniqueKeys(es: seq<Item>)
  {
    es == [] || (es[0].key !in Keys(es[1..]) && UniqueKeys(es[1..]))
  }

  /** The map from keys to items that a sequence of items denotes. */
  ghost function MapOf(es: seq<Item>): map<string, Item>
  {
    if es == [] then map[] else MapOf(es[1..])[es[0].key := es[0]]
  }

  /** The keys of a sequence of items. */
  function Keys(es: seq<Item>): set<string>
  {
    if es == [] then {} else {es[0].key} + Keys(es[1..])
  }

  lemma {:induction false} KeysAt(es: seq<Item>, i: nat)
    requires i < |es|
    ensures es[i].key in Keys(es)
  {
    if i > 0 {
      assert es[1..][i - 1] == es[i];
      KeysAt(es[1..], i - 1);
    }
  }

  lemma {:induction false} KeysWitness(es: seq<Item>, k: string) returns (i: nat)
    requires k in Keys(es)
    ensures i < |es| && es[i].key == k
  {
    if es[0].key == k {
      i := 0;
    } else {
      var i' := KeysWitness(es[1..], k);
      i := i' + 1;
    }
  }

  // ---------------------------------------------------------------------
  // Lemmas about Entries and MapOf

  lemma {:induction false} EntriesAppend(a: Slots, b: Slots)
    ensures Entries(a + b) == Entries(a) + Entries(b)
  {
    if a == [] {
      assert a + b == b;
    } else {
      assert (a + b)[0] == a[0] && (a + b)[1..] == a[1..] + b;
      EntriesAppend(a[1..], b);
      ConcatAssoc(if a[0].Some? then [a[0].value] else [], Entries(a[1..]), Entries(b));
    }
  }

  /** The entries of a slot array split around slot j. */
  lemma EntriesSplit(s: Slots, j: nat)
    requires j < |s|
    ensures Entries(s) == Entries(s[..j]) + (if s[j].Some? then [s[j].value] else []) + Entries(s[j + 1..])
  {
    EntriesCut(s, j);
    EntriesStep(s, j);
    ConcatAssoc(Entries(s[..j]), if s[j].Some? then [s[j].value] else [], Entries(s[j + 1..]));
  }

  lemma ConcatAssoc(a: seq<Item>, b: seq<Item>, c: seq<Item>)
    ensures a + (b + c) == a + b + c
  {
  }

  /** The entries of a slot array with slot j replaced by o. */
  lemma EntriesUpdate(s: Slots, j: nat, o: Option<Item>)
    requires j < |s|
    ensures Entries(s[j := o]) == Entries(s[..j]) + (if o.Some? then [o.value] else []) + Entries(s[j + 1..])
  {
    var t := s[j := o];
    assert t[..j] == s[..j] && t[j + 1..] == s[j + 1..];
    EntriesSplit(t, j);
  }

  /** Walking one slot further moves at most one item from the rest to the prefix. */
  lemma EntriesStep(s: Slots, i: nat)
    requires i < |s|
    ensures Entries(s[i..]) == (if s[i].Some? then [s[i].value] else []) + Entries(s[i + 1..])
    ensures Entries(s[..i + 1]) == Entries(s[..i]) + (if s[i].Some? then [s[i].value] else [])
  {
    assert s[i..][1..] == s[i + 1..];
    assert s[..i + 1] == s[..i] + [s[i]];
    EntriesAppend(s[..i], [s[i]]);
  }

  /** The entries before slot i followed by the entries from slot i on are all entries. */
  lemma EntriesCut(s: Slots, i: nat)
    requires i <= |s|
    ensures Entries(s) == Entries(s[..i]) + Entries(s[i..])
  {
    assert s == s[..i] + s[i..];
    EntriesAppend(s[..i], s[i..]);
  }

  /** A run of n empty slots. */
  function EmptySlots(n: nat): (r: Slots)
    ensures |r| == n && forall i :: 0 <= i < n ==> r[i].None?
  {
    if n == 0 then [] else [None] + EmptySlots(n - 1)
  }

  /** Empty slots contribute nothing. */
  lemma {:induction false} EntriesOfEmpty(n: nat)
    ensures Entries(EmptySlots(n)) == []
  {
    if n > 0 {
      assert EmptySlots(n)[1..] == EmptySlots(n - 1);
      EntriesOfEmpty(n - 1);
    }
  }

  /** Every entry comes from a non-empty slot. */
  lemma {:induction false} EntrySlot(s: Slots, p: nat) returns (i: nat)
    requires p < |Entries(s)|
    ensures i < |s| && s[i] == Some(Entries(s)[p])
  {
    var h: seq<Item> := if s[0].Some? then [s[0].value] else [];
    assert Entries(s) == h + Entries(s[1..]);
    if p < |h| {
      i := 0;
    } else {
      var i' := EntrySlot(s[1..], p - |h|);
      i := i' + 1;
    }
  }

  /** Every non-empty slot gives an entry. */
  lemma SlotEntry(s: Slots, i: nat)
    requires i < |s| && s[i].Some?
    ensures s[i].value in Entries(s)
  {
    EntriesSplit(s, i);
  }

  /** The item in a non-empty slot is the one the map gives for its key. */
  lemma SlotInMap(s: Slots, i: nat)
    requires i < |s| && s[i].Some? && UniqueKeys(Entries(s))
    ensures s[i].value.key in MapOf(Entries(s)) && MapOf(Entries(s))[s[i].value.key] == s[i].value
  {
    EntriesSplit(s, i);
    var p := |Entries(s[..i])|;
    assert Entries(s)[p] == s[i].value;
    MapOfAt(Entries(s), p);
  }

  /** Every key of the map comes from an entry holding the item the map gives. */
  lemma MapOfWitness(es: seq<Item>, k: string) returns (p: nat)
    requires UniqueKeys(es) && k in MapOf(es)
    ensures p < |es| && es[p].key == k && MapOf(es)[k] == es[p]
  {
    MapOfKeys(es);
    p := KeysWitness(es, k);
    MapOfAt(es, p);
  }

  lemma {:induction false} MapOfKeys(es: seq<Item>)
    ensures MapOf(es).Keys == Keys(es)
  {
    if es != [] {
      MapOfKeys(es[1..]);
    }
  }

  lemma {:induction false} MapOfAt(es: seq<Item>, i: nat)
    requires UniqueKeys(es) && i < |es|
    ensures es[i].key in MapOf(es) && MapOf(es)[es[i].key] == es[i]
  {
    if i > 0 {
      assert es[1..][i - 1] == es[i];
      MapOfAt(es[1..], i - 1);
      KeysAt(es[1..], i - 1);
    }
  }

  lemma {:induction false} MapOfSize(es: seq<Item>)
    requires UniqueKeys(es)
    ensures |MapOf(es)| == |es|
  {
    if es != [] {
      MapOfSize(es[1..]);
      MapOfKeys(es[1..]);
      assert es[0].key !in Keys(es[1..]);
    }
  }

  /** MapOf of a concatenation with disjoint keys is the union of the two maps. */
  lemma {:induction false} MapOfConcat(a: seq<Item>, b: seq<Item>)
    requires Keys(a) !! Keys(b)
    ensures MapOf(a + b) == MapOf(a) + MapOf(b)
  {
    if a == [] {
      assert a + b == b;
    } else {
      assert (a + b)[1..] == a[1..] + b;
      assert Keys(a[1..]) <= Keys(a);
      MapOfConcat(a[1..], b);
      MapOfKeys(b);
      assert a[0].key !in MapOf(b);
    }
  }

  lemma {:induction false} KeysConcat(a: seq<Item>, b: seq<Item>)
    ensures Keys(a + b) == Keys(a) + Keys(b)
  {
    if a == [] {
      assert a + b == b;
    } else {
      assert (a + b)[1..] == a[1..] + b;
      KeysConcat(a[1..], b);
    }
  }

  /** Putting one item in front of a sequence of items. */
  lemma Cons(y: Item, b: seq<Item>)
    ensures UniqueKeys([y] + b) <==> UniqueKeys(b) && y.key !in Keys(b)
    ensures Keys([y] + b) == {y.key} + Keys(b)
    ensures MapOf([y] + b) == MapOf(b)[y.key := y]
  {
    assert ([y] + b)[1..] == b;
    KeysConcat([y], b);
    assert Keys([y]) == {y.key};
    UniqueConcat([y], b);
  }

  lemma {:induction false} UniqueConcat(a: seq<Item>, b: seq<Item>)
    ensures UniqueKeys(a + b) <==> UniqueKeys(a) && UniqueKeys(b) && Keys(a) !! Keys(b)
  {
    if a == [] {
      assert a + b == b;
      assert Keys(a) == {};
    } else {
      assert (a + b)[1..] == a[1..] + b;
      UniqueConcat(a[1..], b);
      KeysConcat(a[1..], b);
    }
  }

  lemma UnionUpdate(m1: map<string, Item>, m2: map<string, Item>, k: string, v: Item)
    requires k !in m1
    ensures m1 + m2[k := v] == (m1 + m2)[k := v]
  {
  }

  lemma UpdateTwice(m: map<string, Item>, k: string, v: Item, w: Item)
    ensures m[k := v][k := w] == m[k := w]
  {
  }

  lemma UnionRemove(m1: map<string, Item>, m2: map<string, Item>, k: string)
    requires k !in m1
    ensures m1 + (m2 - {k}) == (m1 + m2) - {k}
  {
  }

  /** Inserting an item with a new key between a and b adds exactly that key. */
  lemma InsertMiddle(a: seq<Item>, y: Item, b: seq<Item>)
    requires UniqueKeys(a + b) && y.key !in MapOf(a + b)
    ensures UniqueKeys(a + ([y] + b))
    ensures MapOf(a + ([y] + b)) == MapOf(a + b)[y.key := y]
  {
    UniqueConcat(a, b);
    MapOfKeys(a + b);
    KeysConcat(a, b);
    Cons(y, b);
    UniqueConcat(a, [y] + b);
    MapOfConcat(a, b);
    MapOfConcat(a, [y] + b);
    MapOfKeys(a);
    UnionUpdate(MapOf(a), MapOf(b), y.key, y);
  }

  /** Replacing the item between a and b by one with the same key updates that key only. */
  lemma ReplaceMiddle(a: seq<Item>, x: Item, y: Item, b: seq<Item>)
    requires UniqueKeys(a + ([x] + b)) && x.key == y.key
    ensures UniqueKeys(a + ([y] + b))
    ensures MapOf(a + ([y] + b)) == MapOf(a + ([x] + b))[y.key := y]
  {
    UniqueConcat(a, [x] + b);
    Cons(x, b);
    Cons(y, b);
    UniqueConcat(a, [y] + b);
    MapOfConcat(a, [x] + b);
    MapOfConcat(a, [y] + b);
    MapOfKeys(a);
    UpdateTwice(MapOf(b), x.key, x, y);
    UnionUpdate(MapOf(a), MapOf([x] + b), y.key, y);
  }

  /** Dropping the item between a and b removes exactly its key. */
  lemma DropMiddle(a: seq<Item>, x: Item, b: seq<Item>)
    requires UniqueKeys(a + ([x] + b))
    ensures UniqueKeys(a + b)
    ensures MapOf(a + b) == MapOf(a + ([x] + b)) - {x.key}
  {
    UniqueConcat(a, [x] + b);
    Cons(x, b);
    UniqueConcat(a, b);
    MapOfConcat(a, [x] + b);
    MapOfConcat(a, b);
    MapOfKeys(a);
    MapOfKeys(b);
    assert MapOf(b)[x.key := x] - {x.key} == MapOf(b);
    UnionRemove(MapOf(a), MapOf([x] + b), x.key);
  }

  /** Putting item y into an empty slot whose key is new adds exactly that key. */
  lemma PutNew(s: Slots, j: nat, y: Item)
    requires j < |s| && s[j].None?
    requires UniqueKeys(Entries(s)) && y.key !in MapOf(Entries(s))
    ensures UniqueKeys(Entries(s[j := Some(y)]))
    ensures |Entries(s[j := Some(y)])| == |Entries(s)| + 1
    ensures MapOf(Entries(s[j := Some(y)])) == MapOf(Entries(s))[y.key := y]
  {
    var a, b := Entries(s[..j]), Entries(s[j + 1..]);
    EntriesSplit(s, j);
    EntriesUpdate(s, j, Some(y));
    assert Entries(s) == a + b;
    assert Entries(s[j := Some(y)]) == a + ([y] + b);
    InsertMiddle(a, y, b);
  }

  /** Replacing the item in slot j by one with the same key updates that key only. */
  lemma PutSame(s: Slots, j: nat, y: Item)
    requires j < |s| && s[j].Some? && s[j].value.key == y.key
    requires UniqueKeys(Entries(s))
    ensures UniqueKeys(Entries(s[j := Some(y)]))
    ensures |Entries(s[j := Some(y)])| == |Entries(s)|
    ensures MapOf(Entries(s[j := Some(y)])) == MapOf(Entries(s))[y.key := y]
  {
    var a, b := Entries(s[..j]), Entries(s[j + 1..]);
    EntriesSplit(s, j);
    EntriesUpdate(s, j, Some(y));
    assert Entries(s) == a + ([s[j].value] + b);
    assert Entries(s[j := Some(y)]) == a + ([y] + b);
    ReplaceMiddle(a, s[j].value, y, b);
  }

  /** Emptying slot j removes exactly its key. */
  lemma Remove(s: Slots, j: nat)
    requires j < |s| && s[j].Some?
    requires UniqueKeys(Entries(s))
    ensures UniqueKeys(Entries(s[j := None]))
    ensures |Entries(s[j := None])| == |Entries(s)| - 1
    ensures MapOf(Entries(s[j := None])) == MapOf(Entries(s)) - {s[j].value.key}
  {
    var a, b := Entries(s[..j]), Entries(s[j + 1..]);
    EntriesSplit(s, j);
    EntriesUpdate(s, j, None);
    assert Entries(s) == a + ([s[j].value] + b);
    assert Entries(s[j := None]) == a + b;
    DropMiddle(a, s[j].value, b);
  }

  // ---------------------------------------------------------------------
  // Hashtable lookup

  /** The slot holding key, or -1 (hash_find followed by HASHITEM_EMPTY). */
  function FindSlot(s: Slots, key: string): (r: int)
    ensures -1 <= r < |s|
    ensures r >= 0 ==> s[r].Some? && s[r].value.key == key
    ensures r < 0 ==> forall i :: 0 <= i < |s| && s[i].Some? ==> s[i].value.key != key
  {
    if s == [] then -1
    else if s[0].Some? && s[0].value.key == key then 0
    else
      var r := FindSlot(s[1..], key);
      if r < 0 then -1 else r + 1
  }

  /** The first empty slot, or -1 when the table is full. */
  function FirstEmpty(s: Slots): (r: int)
    ensures -1 <= r < |s|
    ensures r >= 0 ==> s[r].None?
    ensures r < 0 ==> forall i :: 0 <= i < |s| ==> s[i].Some?
  {
    if s == [] then -1
    else if s[0].None? then 0
    else
      var r := FirstEmpty(s[1..]);
      if r < 0 then -1 else r + 1
  }

  /** A key is in the map that the slots denote exactly when some slot holds it. */
  lemma FindSlotContents(s: Slots, key: string)
    requires UniqueKeys(Entries(s))
    ensures key in MapOf(Entries(s)) <==> FindSlot(s, key) >= 0
    ensures FindSlot(s, key) >= 0 ==> MapOf(Entries(s))[key] == s[FindSlot(s, key)].value
  {
    var es := Entries(s);
    MapOfKeys(es);
    var r := FindSlot(s, key);
    if r >= 0 {
      var x := s[r].value;
      SlotEntry(s, r);
      var p :| 0 <= p < |es| && es[p] == x;
      MapOfAt(es, p);
    } else {
      if key in Keys(es) {
        var p := KeysWitness(es, key);
        var i := EntrySlot(s, p);
      }
    }
  }

  /** The hashtable invariant on a slot array and its ht_used count. */
  ghost predicate TableInv(s: Slots, used: nat)
  {
    used == |Entries(s)| && UniqueKeys(Entries(s))
  }

  /** The item count of a valid table is the number of its keys. */
  lemma UsedCountsKeys(s: Slots, used: nat)
    ensures TableInv(s, used) ==> used == |MapOf(Entries(s))|
  {
    if TableInv(s, used) {
      MapOfSize(Entries(s));
    }
  }

  /**
   * A dictionary header (dict_T).  The registry links (dv_used_prev,
   * dv_used_next) are kept up to date by DictRegistry.Registry.
   */
  class Dict {
    var slots: Slots          // dv_hashtab.ht_array
    var used: nat             // dv_hashtab.ht_used
    var refcount: int         // dv_refcount
    var lock: int             // dv_lock
    var scope: int            // dv_scope
    var copyID: int           // dv_copyID
    var copyDict: Dict?       // dv_copydict
    var usedPrev: Dict?       // dv_used_prev
    var usedNext: Dict?       // dv_used_next

    /** The hashtable invariant: used counts the non-empty slots, keys are unique. */
    ghost predicate Valid()
      reads this`slots, this`used
    {
      TableInv(slots, used)
    }

    /** The dictionary as a map from keys to items. */
    ghost function Contents(): map<string, Item>
      reads this`slots
    {
      MapOf(Entries(slots))
    }

    /** An empty header with an initialised hashtable, as ALLOC_CLEAR_ONE and hash_init leave it. */
    constructor ()
      ensures Valid() && Contents() == map[] && used == 0 && |slots| == HT_INIT_SIZE
      ensures refcount == 0 && lock == 0 && scope == 0 && copyID == 0
      ensures copyDict == null && usedPrev == null && usedNext == null
    {
      slots := EmptySlots(HT_INIT_SIZE);
      used := 0;
      refcount := 0;
      lock := 0;
      scope := 0;
      copyID := 0;
      copyDict := null;
      usedPrev := null;
      usedNext := null;
      new;
      EntriesOfEmpty(HT_INIT_SIZE);
    }

    lemma SizeIsUsed()
      requires Valid()
      ensures |Contents()| == used
    {
      MapOfSize(Entries(slots));
    }

    /**
     * Add an item (hash_add): fails when the key is already present or when
     * growing the table runs out of memory; otherwise the item lands in an
     * empty slot.
     */
    method HashAdd(item: Item, oom: bool) returns (ok: bool)
      requires Valid()
      modifies this`slots, this`used
      ensures Valid()
      ensures ok <==> item.key !in old(Contents()) && !oom
      ensures used == old(used) + (if ok then 1 else 0)
      ensures Contents() == if ok then old(Contents())[item.key := item] else old(Contents())
    {
      FindSlotContents(slots, item.key);
      if FindSlot(slots, item.key) >= 0 || oom {
        return false;
      }
      assert item.key !in Contents();
      var j := FirstEmpty(slots);
      if j < 0 {
        var extra := EmptySlots(|slots| + 1);
        EntriesAppend(slots, extra);
        EntriesOfEmpty(|slots| + 1);
        assert Entries(slots + extra) == Entries(slots);
        j := |slots|;
        slots := slots + extra;
      }
      assert item.key !in Contents();
      PutNew(slots, j, item);
      slots := slots[j := Some(item)];
      used := used + 1;
      ok := true;
    }

    /** Empty slot j (hash_remove). */
    method HashRemove(j: nat)
      requires Valid() && j < |slots| && slots[j].Some?
      modifies this`slots, this`used
      ensures Valid() && slots == old(slots)[j := None] && used == old(used) - 1
      ensures Contents() == old(Contents()) - {old(slots[j].value.key)}
    {
      Remove(slots, j);
      slots := slots[j := None];
      used := used - 1;
    }

    /** Replace the item in slot j by one with the same key (an update through HI2DI). */
    method SetItem(j: nat, y: Item)
      requires Valid() && j < |slots| && slots[j].Some? && slots[j].value.key == y.key
      modifies this`slots
      ensures Valid() && |slots| == old(|slots|)
      ensures slots == old(slots[j := Some(y)])
      ensures Contents() == old(Contents())[y.key := y]
    {
      PutSame(slots, j, y);
      slots := slots[j := Some(y)];
    }
  }
}
