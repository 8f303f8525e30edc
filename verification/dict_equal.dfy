/**
 * dict_equal: whether two dictionaries hold the same keys with equal
 * values.  Value equality is tv_equal, which is outside this model; it is
 * the parameter tvEqual, called with the ignore-case and recursive flags.
 */
module DictEqual {
  import opened DictCore
  import opened DictAccess

  /** Every key of m1 is in m2, and the values under it are equal. */
  ghost predicate SameItems(m1: map<string, Item>, m2: map<string, Item>, eq: (Value, Value) -> bool)
  {
    forall k :: k in m1 ==> k in m2 && eq(m1[k].tv, m2[k].tv)
  }

  /** Every item of es has its key in m2 with an equal value. */
  ghost predicate Matches(es: seq<Item>, m2: map<string, Item>, eq: (Value, Value) -> bool)
  {
    forall p :: 0 <= p < |es| ==> es[p].key in m2 && eq(es[p].tv, m2[es[p].key].tv)
  }

  /** Comparing item by item in slot order is comparing the maps. */
  lemma MatchesAll(s: Slots, m2: map<string, Item>, eq: (Value, Value) -> bool)
    requires UniqueKeys(Entries(s))
    ensures Matches(Entries(s), m2, eq) <==> SameItems(MapOf(Entries(s)), m2, eq)
  {
    var es := Entries(s);
    if Matches(es, m2, eq) {
      forall k | k in MapOf(es)
        ensures k in m2 && eq(MapOf(es)[k].tv, m2[k].tv)
      {
        var p := MapOfWitness(es, k);
      }
    }
    if SameItems(MapOf(es), m2, eq) {
      forall p | 0 <= p < |es|
        ensures es[p].key in m2 && eq(es[p].tv, m2[es[p].key].tv)
      {
        MapOfAt(es, p);
      }
    }
  }

  /**
   * Equal sizes and every key of the first found in the second: the key
   * sets are the same.  So dict_equal returning true means the same keys.
   */
  lemma SameItemsSameKeys(m1: map<string, Item>, m2: map<string, Item>, eq: (Value, Value) -> bool)
    requires |m1| == |m2| && SameItems(m1, m2, eq)
    ensures m1.Keys == m2.Keys
  {
    assert m1.Keys <= m2.Keys;
    assert |m1.Keys| == |m1| && |m2.Keys| == |m2|;
    var extra := m2.Keys - m1.Keys;
    assert m2.Keys == m1.Keys + extra && m1.Keys !! extra;
    assert |m2.Keys| == |m1.Keys| + |extra|;
    assert extra == {};
  }

  /** With a symmetric value equality, the key-wise comparison of maps of equal size is symmetric. */
  lemma SameItemsSymmetric(m1: map<string, Item>, m2: map<string, Item>, eq: (Value, Value) -> bool)
    requires |m1| == |m2| && SameItems(m1, m2, eq)
    requires forall a, b :: eq(a, b) ==> eq(b, a)
    ensures SameItems(m2, m1, eq)
  {
    SameItemsSameKeys(m1, m2, eq);
    forall k | k in m2
      ensures k in m1 && eq(m2[k].tv, m1[k].tv)
    {
      assert k in m1.Keys;
    }
  }

  /**
   * dict_equal.  The same dictionary is equal to itself whatever tvEqual
   * says; different sizes are unequal; two empty or NULL dictionaries are
   * equal; otherwise every item of d1 must have its key in d2 with a value
   * tvEqual calls equal.  (The C code also tests for a NULL dictionary after
   * the size tests; dict_len of NULL is 0, so that test never decides.)
   */
  method DictEqual(d1: Dict?, d2: Dict?, ic: bool, recursive: bool, tvEqual: (Value, Value, bool, bool) -> bool)
    returns (r: bool)
    requires d1 != null ==> d1.Valid()
    requires d2 != null ==> d2.Valid()
    ensures d1 == d2 ==> r
    ensures d1 != d2 && DictLen(d1) != DictLen(d2) ==> !r
    ensures d1 != d2 && DictLen(d1) == DictLen(d2) == 0 ==> r
    ensures d1 != d2 && DictLen(d1) == DictLen(d2) > 0 ==>
      d1 != null && d2 != null &&
      (r <==> SameItems(d1.Contents(), d2.Contents(), (a, b) => tvEqual(a, b, ic, recursive)))
  {
    if d1 == d2 {
      return true;
    }
    if DictLen(d1) != DictLen(d2) {
      return false;
    }
    if DictLen(d1) == 0 {
      return true;
    }
    r := EveryItemFound(d1, d2, ic, recursive, tvEqual);
  }

  /** The loop of dict_equal: every item of d1 is found in d2 with a value tvEqual calls equal. */
  method EveryItemFound(d1: Dict, d2: Dict, ic: bool, recursive: bool, tvEqual: (Value, Value, bool, bool) -> bool)
    returns (r: bool)
    requires d1.Valid() && d2.Valid()
    ensures r <==> SameItems(d1.Contents(), d2.Contents(), (a, b) => tvEqual(a, b, ic, recursive))
  {
    ghost var eq := (a, b) => tvEqual(a, b, ic, recursive);
    var s := d1.slots;
    var todo := d1.used;
    var i := 0;
    assert s[0..] == s && s[..0] == [];
    while todo > 0
      invariant 0 <= i <= |s|
      invariant todo == |Entries(s[i..])|
      invariant Matches(Entries(s[..i]), d2.Contents(), eq)
      decreases |s| - i
    {
      EntriesStep(s, i);
      if s[i].Some? {
        var x := s[i].value;
        var item2 := DictFind(d2, x.key, -1, false);
        if item2.None? || !tvEqual(x.tv, item2.value.tv, ic, recursive) {
          SlotInMap(s, i);
          return false;
        }
        todo := todo - 1;
        assert Entries(s[..i + 1]) == Entries(s[..i]) + [x];
      } else {
        assert Entries(s[..i + 1]) == Entries(s[..i]);
      }
      i := i + 1;
    }
    EntriesCut(s, i);
    assert Entries(s[i..]) == [];
    assert Entries(s) == Entries(s[..i]);
    MatchesAll(s, d2.Contents(), eq);
    return true;
  }
}
