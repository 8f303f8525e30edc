/**
 * Dictionary items: allocation, copy and removal, and the family of
 * dict_add_* operations that build an item around a value and add it.
 *
 * Every dict_add_* operation has the same skeleton: allocate an item for the
 * key, fill in its value, add it with dict_add (hash_add), and free the item
 * again when the add fails.  A failed add leaves the dictionary unchanged.
 * Allocation failure is the `oom` parameter: it covers both the item
 * allocation and the growth of the table inside hash_add, which have the
 * same outcome.
 */
module DictItems {
  import opened DictCore

  /** dictitem_alloc: a fresh item for key, value not yet set, lock 0, DI_FLAGS_ALLOC. */
  function DictitemAlloc(key: string, oom: bool): (r: Option<Item>)
    ensures r.None? <==> oom
    ensures r.Some? ==> r.value.key == key && r.value.tv == Unknown
    ensures r.Some? ==> r.value.lock == 0 && r.value.flags == AllocFlags
  {
    if oom then None else Some(Item(key, Unknown, 0, AllocFlags))
  }

  /**
   * dictitem_copy: a fresh item with the same key and a copy of the value
   * (copy_tv resets the lock of the copy), flags DI_FLAGS_ALLOC.
   */
  function DictitemCopy(org: Item, oom: bool): (r: Option<Item>)
    ensures r.None? <==> oom
    ensures r.Some? ==> r.value.key == org.key && r.value.tv == org.tv
    ensures r.Some? ==> r.value.lock == 0 && r.value.flags == AllocFlags
  {
    if oom then None else Some(Item(org.key, org.tv, 0, AllocFlags))
  }

  /**
   * The common body of the dict_add_* operations: an item for key holding v
   * is added unless allocation fails or the key is already present.
   */
  method AddValue(d: Dict, key: string, v: Value, oom: bool) returns (ok: bool)
    requires d.Valid()
    modifies d`slots, d`used
    ensures d.Valid()
    ensures ok <==> !oom && key !in old(d.Contents())
    ensures d.used == old(d.used) + (if ok then 1 else 0)
    ensures d.Contents() == if ok then old(d.Contents())[key := Item(key, v, 0, AllocFlags)] else old(d.Contents())
  {
    var item := DictitemAlloc(key, oom);
    if item.None? {
      return false;
    }
    var di := item.value.(tv := v);
    ok := d.HashAdd(di, false);
  }

  /** The variable types dict_add_number_special can store. */
  datatype NumberKind = VarNumber | VarBool

  /** dict_add_number_special: a number-like entry of the given kind. */
  method DictAddNumberSpecial(d: Dict, key: string, nr: int, kind: NumberKind, oom: bool) returns (ok: bool)
    requires d.Valid()
    modifies d`slots, d`used
    ensures d.Valid()
    ensures ok <==> !oom && key !in old(d.Contents())
    ensures d.used == old(d.used) + (if ok then 1 else 0)
    ensures !ok ==> d.Contents() == old(d.Contents())
    ensures ok ==> d.Contents() == old(d.Contents())[key := Item(key, if kind == VarNumber then Number(nr) else Bool(nr), 0, AllocFlags)]
  {
    var v := if kind == VarNumber then Number(nr) else Bool(nr);
    ok := AddValue(d, key, v, oom);
  }

  /** dict_add_number. */
  method DictAddNumber(d: Dict, key: string, nr: int, oom: bool) returns (ok: bool)
    requires d.Valid()
    modifies d`slots, d`used
    ensures d.Valid()
    ensures ok <==> !oom && key !in old(d.Contents())
    ensures d.used == old(d.used) + (if ok then 1 else 0)
    ensures ok ==> d.Contents() == old(d.Contents())[key := Item(key, Number(nr), 0, AllocFlags)]
    ensures !ok ==> d.Contents() == old(d.Contents())
  {
    ok := DictAddNumberSpecial(d, key, nr, VarNumber, oom);
  }

  /** dict_add_bool. */
  method DictAddBool(d: Dict, key: string, nr: int, oom: bool) returns (ok: bool)
    requires d.Valid()
    modifies d`slots, d`used
    ensures d.Valid()
    ensures ok <==> !oom && key !in old(d.Contents())
    ensures d.used == old(d.used) + (if ok then 1 else 0)
    ensures ok ==> d.Contents() == old(d.Contents())[key := Item(key, Bool(nr), 0, AllocFlags)]
    ensures !ok ==> d.Contents() == old(d.Contents())
  {
    ok := DictAddNumberSpecial(d, key, nr, VarBool, oom);
  }

  /**
   * The string stored by dict_add_string_len: a copy of str, of its first len
   * characters when len is not -1 (vim_strnsave stops early at the end of
   * str), or NULL when str is NULL or the copy cannot be allocated.
   */
  function SavedString(str: Option<string>, len: int, oomStr: bool): (r: Option<string>)
    requires len >= -1
    ensures r.None? <==> str.None? || oomStr
    ensures r.Some? && len == -1 ==> r.value == str.value
    ensures r.Some? && len >= 0 ==> r.value == str.value[..if len < |str.value| then len else |str.value|]
  {
    if str.None? || oomStr then None
    else if len == -1 then str
    else Some(str.value[..if len < |str.value| then len else |str.value|])
  }

  /**
   * dict_add_string_len: a string entry.  A failed string copy is not an
   * error: the entry then holds a NULL string.
   */
  method DictAddStringLen(d: Dict, key: string, str: Option<string>, len: int, oom: bool, oomStr: bool)
    returns (ok: bool)
    requires d.Valid() && len >= -1
    modifies d`slots, d`used
    ensures d.Valid()
    ensures ok <==> !oom && key !in old(d.Contents())
    ensures d.used == old(d.used) + (if ok then 1 else 0)
    ensures ok ==> d.Contents() == old(d.Contents())[key := Item(key, Str(SavedString(str, len, oomStr)), 0, AllocFlags)]
    ensures !ok ==> d.Contents() == old(d.Contents())
  {
    var val := SavedString(str, len, oomStr);
    ok := AddValue(d, key, Str(val), oom);
  }

  /** dict_add_string: the whole of str. */
  method DictAddString(d: Dict, key: string, str: Option<string>, oom: bool, oomStr: bool) returns (ok: bool)
    requires d.Valid()
    modifies d`slots, d`used
    ensures d.Valid()
    ensures ok <==> !oom && key !in old(d.Contents())
    ensures d.used == old(d.used) + (if ok then 1 else 0)
    ensures ok && !oomStr ==> d.Contents() == old(d.Contents())[key := Item(key, Str(str), 0, AllocFlags)]
    ensures ok && oomStr ==> d.Contents() == old(d.Contents())[key := Item(key, Str(None), 0, AllocFlags)]
    ensures !ok ==> d.Contents() == old(d.Contents())
  {
    ok := DictAddStringLen(d, key, str, -1, oom, oomStr);
  }

  /**
   * dict_add_list: a list entry.  The list gains a reference when the item
   * is allocated; when the add then fails, freeing the item (clear_tv)
   * gives it back.
   */
  method DictAddList(d: Dict, key: string, l: List, oom: bool) returns (ok: bool)
    requires d.Valid()
    modifies d`slots, d`used, l`refcount
    ensures d.Valid()
    ensures ok <==> !oom && key !in old(d.Contents())
    ensures d.used == old(d.used) + (if ok then 1 else 0)
    ensures ok ==> d.Contents() == old(d.Contents())[key := Item(key, ListVal(l), 0, AllocFlags)]
    ensures !ok ==> d.Contents() == old(d.Contents())
    ensures l.refcount == old(l.refcount) + (if ok then 1 else 0)
  {
    var item := DictitemAlloc(key, oom);
    if item.None? {
      return false;
    }
    var di := item.value.(tv := ListVal(l));
    l.refcount := l.refcount + 1;
    ok := d.HashAdd(di, false);
    if !ok {
      l.refcount := l.refcount - 1;
    }
  }

  /**
   * dict_add_dict: a dictionary entry.  The added dictionary gains a
   * reference as in dict_add_list; it may be d itself.
   */
  method DictAddDict(d: Dict, key: string, sub: Dict, oom: bool) returns (ok: bool)
    requires d.Valid()
    modifies d`slots, d`used, sub`refcount
    ensures d.Valid()
    ensures ok <==> !oom && key !in old(d.Contents())
    ensures d.used == old(d.used) + (if ok then 1 else 0)
    ensures ok ==> d.Contents() == old(d.Contents())[key := Item(key, DictVal(sub), 0, AllocFlags)]
    ensures !ok ==> d.Contents() == old(d.Contents())
    ensures sub.refcount == old(sub.refcount) + (if ok then 1 else 0)
  {
    var item := DictitemAlloc(key, oom);
    if item.None? {
      return false;
    }
    var di := item.value.(tv := DictVal(sub));
    sub.refcount := sub.refcount + 1;
    ok := d.HashAdd(di, false);
    if !ok {
      sub.refcount := sub.refcount - 1;
    }
  }

  /** dict_add_tv: an entry holding a copy of tv. */
  method DictAddTv(d: Dict, key: string, tv: Value, oom: bool) returns (ok: bool)
    requires d.Valid()
    modifies d`slots, d`used
    ensures d.Valid()
    ensures ok <==> !oom && key !in old(d.Contents())
    ensures d.used == old(d.used) + (if ok then 1 else 0)
    ensures ok ==> d.Contents() == old(d.Contents())[key := Item(key, tv, 0, AllocFlags)]
    ensures !ok ==> d.Contents() == old(d.Contents())
  {
    ok := AddValue(d, key, tv, oom);
  }

  /**
   * dictitem_remove: remove the item with this key.  When no slot holds it
   * the C code reports an internal error and leaves the table alone.
   */
  method DictitemRemove(d: Dict, key: string) returns (found: bool)
    requires d.Valid()
    modifies d`slots, d`used
    ensures d.Valid()
    ensures found <==> key in old(d.Contents())
    ensures d.Contents() == old(d.Contents()) - {key}
    ensures d.used == old(d.used) - (if found then 1 else 0)
  {
    FindSlotContents(d.slots, key);
    var j := FindSlot(d.slots, key);
    if j < 0 {
      found := false;
      assert d.Contents() - {key} == d.Contents();
      return;
    }
    found := true;
    d.HashRemove(j);
  }
}
