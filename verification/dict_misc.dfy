/**
 * Making every item of a dictionary read-only (dict_set_items_ro) and the
 * guarded removal behind remove({dict}, {key}) (dict_remove).
 */
module DictMisc {
  import opened DictCore
  import opened DictItems

  /** An item with DI_FLAGS_RO and DI_FLAGS_FIX added to its flags; nothing else changes. */
  function ReadOnly(x: Item): (r: Item)
    ensures r.key == x.key && r.tv == x.tv && r.lock == x.lock
    ensures r.flags.ro && r.flags.fix
    ensures r.flags.roSandbox == x.flags.roSandbox && r.flags.lockFlag == x.flags.lockFlag && r.flags.alloc == x.flags.alloc
  {
    x.(flags := x.flags.(ro := true, fix := true))
  }

  /** A slot after dict_set_items_ro: its item made read-only, an empty slot left empty. */
  function RoSlot(o: Option<Item>): Option<Item>
  {
    if o.Some? then Some(ReadOnly(o.value)) else None
  }

  /** Slot by slot, t is s made read-only: the entries are those of s made read-only. */
  lemma {:induction false} RoEntries(s: Slots, t: Slots)
    requires |t| == |s| && forall j :: 0 <= j < |s| ==> t[j] == RoSlot(s[j])
    ensures |Entries(t)| == |Entries(s)|
    ensures forall p :: 0 <= p < |Entries(s)| ==> Entries(t)[p] == ReadOnly(Entries(s)[p])
  {
    if s != [] {
      RoEntries(s[1..], t[1..]);
      assert Entries(t) == (if t[0].Some? then [t[0].value] else []) + Entries(t[1..]);
      assert Entries(s) == (if s[0].Some? then [s[0].value] else []) + Entries(s[1..]);
    }
  }

  /** Making every item read-only keeps the keys and makes each key's item read-only. */
  lemma {:induction false} RoMap(es: seq<Item>, fs: seq<Item>)
    requires |fs| == |es| && forall p :: 0 <= p < |es| ==> fs[p] == ReadOnly(es[p])
    ensures Keys(fs) == Keys(es) && UniqueKeys(fs) == UniqueKeys(es)
    ensures MapOf(fs).Keys == MapOf(es).Keys
    ensures forall k :: k in MapOf(es) ==> MapOf(fs)[k] == ReadOnly(MapOf(es)[k])
  {
    MapOfKeys(es);
    MapOfKeys(fs);
    if es != [] {
      RoMap(es[1..], fs[1..]);
    }
  }

  /**
   * dict_set_items_ro: walk the slots until every item has been seen and
   * add read-only and fixed to each item's flags.
   */
  method DictSetItemsRo(d: Dict)
    requires d.Valid()
    modifies d`slots
    ensures d.Valid() && |d.slots| == |old(d.slots)|
    ensures forall j :: 0 <= j < |d.slots| ==> d.slots[j] == RoSlot(old(d.slots)[j])
    ensures d.Contents().Keys == old(d.Contents()).Keys
    ensures forall k :: k in old(d.Contents()) ==> d.Contents()[k] == ReadOnly(old(d.Contents())[k])
  {
    ghost var s0 := d.slots;
    var todo := d.used;
    var i := 0;
    assert s0[0..] == s0;
    while todo > 0
      invariant 0 <= i <= |s0| && |d.slots| == |s0| && d.Valid()
      invariant todo == |Entries(s0[i..])|
      invariant forall j :: 0 <= j < i ==> d.slots[j] == RoSlot(s0[j])
      invariant forall j :: i <= j < |s0| ==> d.slots[j] == s0[j]
      decreases |s0| - i
    {
      EntriesStep(s0, i);
      if d.slots[i].Some? {
        todo := todo - 1;
        d.SetItem(i, ReadOnly(d.slots[i].value));
      }
      i := i + 1;
    }
    forall j | i <= j < |s0|
      ensures d.slots[j] == RoSlot(s0[j])
    {
      if s0[j].Some? {
        assert s0[i..][j - i] == s0[j];
        SlotEntry(s0[i..], j - i);
      }
    }
    RoEntries(s0, d.slots);
    RoMap(Entries(s0), Entries(d.slots));
  }

  /** The outcome of remove() on a dictionary. */
  datatype Removal =
    | TooManyArgs     // a third argument was given
    | NotRemoved      // a NULL dictionary, a locked one, or a key that does not convert to a string
    | NoSuchKey       // the key is not in the dictionary
    | Protected       // the item is fixed or read-only
    | Removed(v: Value)

  /**
   * What remove() does with dictionary contents m, the dictionary's lock
   * level, the key argument as a string (None when tv_get_string_chk cannot convert it) and whether a
   * third argument was given.
   */
  function RemoveOutcome(m: map<string, Item>, isNull: bool, lock: int, key: Option<string>, extra: bool, chk: Checks): (r: Removal)
    ensures r.Removed? <==> (!extra && !isNull && !chk.lockErr(lock) && key.Some? && key.value in m &&
      !chk.fixedErr(m[key.value].flags) && !chk.roErr(m[key.value].flags))
    ensures r.Removed? ==> r.v == m[key.value].tv
    ensures r == TooManyArgs <==> extra
  {
    if extra then TooManyArgs
    else if isNull || chk.lockErr(lock) || key.None? then NotRemoved
    else if key.value !in m then NoSuchKey
    else if chk.fixedErr(m[key.value].flags) || chk.roErr(m[key.value].flags) then Protected
    else Removed(m[key.value].tv)
  }

  /**
   * dict_remove: the value stored under key, which leaves the dictionary;
   * every refusal leaves the dictionary as it was.
   */
  method DictRemove(d: Dict?, key: Option<string>, extra: bool, chk: Checks) returns (r: Removal)
    requires d != null ==> d.Valid()
    modifies (if d == null then {} else {d})`slots, (if d == null then {} else {d})`used
    ensures d != null ==> d.Valid()
    ensures d == null ==> r == RemoveOutcome(map[], true, 0, key, extra, chk)
    ensures d != null ==> r == RemoveOutcome(old(d.Contents()), false, d.lock, key, extra, chk)
    ensures d != null && r.Removed? ==> d.Contents() == old(d.Contents()) - {key.value} && d.used == old(d.used) - 1
    ensures d != null && !r.Removed? ==> d.Contents() == old(d.Contents()) && d.used == old(d.used)
  {
    if extra {
      return TooManyArgs;
    }
    if d == null || chk.lockErr(d.lock) || key.None? {
      return NotRemoved;
    }
    FindSlotContents(d.slots, key.value);
    var j := FindSlot(d.slots, key.value);
    if j < 0 {
      return NoSuchKey;
    }
    var di := d.slots[j].value;
    SlotInMap(d.slots, j);
    if chk.fixedErr(di.flags) || chk.roErr(di.flags) {
      return Protected;
    }
    r := Removed(di.tv);
    var found := DictitemRemove(d, key.value);
  }
}
