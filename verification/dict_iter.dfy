/**
 * Iterating over the items of a dictionary (dict_iterate_start and
 * dict_iterate_next).  The dictionary must not change while it is iterated
 * over, so the iterator keeps the slot array it started on.
 */
module DictIter {
  import opened DictCore

  /** An iterator (dict_iterator_T): the items still to come and the next slot to look at. */
  class DictIterator {
    var todo: int              // dit_todo
    var table: Slots           // the ht_array dit_hi points into
    var hi: nat                // dit_hi, as an index into table
    ghost var yielded: seq<Item>
    ghost var all: seq<Item>

    /**
     * Every item is either yielded already or in a slot at or after hi, in
     * slot order, and todo counts the ones to come; no key occurs twice.
     */
    ghost predicate Valid()
      reads this
    {
      UniqueKeys(all) &&
      if todo == 0 then yielded == all
      else hi <= |table| && todo == |Entries(table[hi..])| && yielded + Entries(table[hi..]) == all
    }

    constructor ()
      ensures todo == 0 && yielded == [] && all == [] && Valid()
    {
      todo := 0;
      table := [];
      hi := 0;
      yielded := [];
      all := [];
    }

    /**
     * dict_iterate_start: nothing to iterate over when v is not a Dict or is
     * a NULL Dict; otherwise all its items, in slot order.
     */
    method Start(v: Value)
      requires v.DictVal? && v.d != null ==> v.d.Valid()
      modifies this
      ensures Valid() && yielded == []
      ensures !(v.DictVal? && v.d != null) ==> todo == 0 && all == []
      ensures v.DictVal? && v.d != null ==>
        all == Entries(v.d.slots) && todo == v.d.used && table == v.d.slots && hi == 0
    {
      yielded := [];
      if !v.DictVal? || v.d == null {
        todo := 0;
        all := [];
      } else {
        var d := v.d;
        todo := d.used;
        table := d.slots;
        hi := 0;
        all := Entries(d.slots);
        assert table[0..] == table;
      }
    }

    /**
     * dict_iterate_next: NULL when nothing is left; otherwise the item in
     * the next non-empty slot, which is the next item of all.
     */
    method Next() returns (r: Option<Item>)
      requires Valid()
      modifies this`todo, this`hi, this`yielded
      ensures Valid() && all == old(all)
      ensures r.None? <==> old(todo) == 0
      ensures r.None? ==> yielded == old(yielded) && todo == 0
      ensures r.Some? ==> yielded == old(yielded) + [r.value] && todo == old(todo) - 1
      ensures r.Some? ==> r.value.key !in Keys(old(yielded))
    {
      if todo == 0 {
        return None;
      }
      var h := hi;
      while table[h].None?
        invariant h < |table|
        invariant todo > 0 && todo == |Entries(table[h..])|
        invariant yielded + Entries(table[h..]) == all
        invariant yielded == old(yielded) && todo == old(todo)
        decreases |table| - h
      {
        EntriesStep(table, h);
        h := h + 1;
      }
      EntriesStep(table, h);
      var x := table[h].value;
      assert yielded + [x] + Entries(table[h + 1..]) == all;
      NotYetYielded(yielded, x, Entries(table[h + 1..]));
      yielded := yielded + [x];
      todo := todo - 1;
      hi := h + 1;
      r := Some(x);
    }

  }

  /** In a sequence of items without repeated keys, an item's key is not among the keys before it. */
  lemma NotYetYielded(done: seq<Item>, x: Item, rest: seq<Item>)
    requires UniqueKeys(done + [x] + rest)
    ensures x.key !in Keys(done)
  {
    UniqueConcat(done + [x], rest);
    UniqueConcat(done, [x]);
    assert Keys([x]) == {x.key};
  }
}
