/**
 * Reading a dictionary: its length, key lookup, and the dict_get_* readers
 * that return a value or a default.  None of these change anything.
 *
 * The value primitives the readers call (tv_get_string, tv_get_number) are
 * outside this model; they are passed in as functions.
 */
module DictAccess {
  import opened DictCore

  /** dict_len: the number of items, 0 for a NULL dictionary. */
  function DictLen(d: Dict?): (r: nat)
    reads (if d == null then {} else {d})`used, (if d == null then {} else {d})`slots
    ensures d == null ==> r == 0
    ensures d != null && d.Valid() ==> r == |d.Contents()|
  {
    if d == null then 0 else UsedCountsKeys(d.slots, d.used); d.used
  }

  /** Keys of at least AKEYLEN characters are copied to the heap rather than to a buffer. */
  const AKEYLEN: int := 200

  /** The key dict_find looks up: all of key, or its first len characters. */
  function LookupKey(key: string, len: int): (r: string)
    ensures len < 0 ==> r == key
    ensures len >= 0 ==> r <= key && |r| == (if len < |key| then len else |key|)
  {
    if len < 0 then key else key[..if len < |key| then len else |key|]
  }

  /**
   * dict_find: the item for key (or for its first len characters when len
   * is not negative), or NULL.  A NULL dictionary has no items; a long key
   * whose copy cannot be allocated (oom) is not found either.
   */
  function DictFind(d: Dict?, key: string, len: int, oom: bool): (r: Option<Item>)
    requires d != null ==> d.Valid()
    reads (if d == null then {} else {d})`slots, (if d == null then {} else {d})`used
    ensures d == null ==> r.None?
    ensures d != null && len >= AKEYLEN && oom ==> r.None?
    ensures d != null && !(len >= AKEYLEN && oom) ==>
      (r.Some? <==> LookupKey(key, len) in d.Contents()) &&
      (r.Some? ==> r.value == d.Contents()[LookupKey(key, len)])
  {
    if d == null then None
    else if len >= AKEYLEN && oom then None
    else
      var akey := LookupKey(key, len);
      FindSlotContents(d.slots, akey);
      var j := FindSlot(d.slots, akey);
      if j < 0 then None else d.slots[j]
  }

  /** dict_get_tv: a copy of the value stored under key, or FAIL. */
  function DictGetTv(d: Dict?, key: string): (r: Option<Value>)
    requires d != null ==> d.Valid()
    reads (if d == null then {} else {d})`slots, (if d == null then {} else {d})`used
    ensures r.Some? <==> d != null && key in d.Contents()
    ensures r.Some? ==> r.value == d.Contents()[key].tv
  {
    var di := DictFind(d, key, -1, false);
    if di.None? then None else Some(di.value.tv)
  }

  /**
   * dict_get_string: the string form of the value stored under key
   * (getString stands for tv_get_string), copied when save is set; NULL
   * when the key is missing or the copy cannot be allocated.
   */
  function DictGetString(d: Dict?, key: string, save: bool, oom: bool, getString: Value -> string): (r: Option<string>)
    requires d != null ==> d.Valid()
    reads (if d == null then {} else {d})`slots, (if d == null then {} else {d})`used
    ensures r.Some? <==> d != null && key in d.Contents() && !(save && oom)
    ensures r.Some? ==> r.value == getString(d.Contents()[key].tv)
  {
    var di := DictFind(d, key, -1, false);
    if di.None? then None
    else if save && oom then None
    else Some(getString(di.value.tv))
  }

  /**
   * dict_get_number_def: the number stored under key (getNumber stands for
   * tv_get_number), or def when the key is missing.
   */
  function DictGetNumberDef(d: Dict?, key: string, def: int, getNumber: Value -> int): (r: int)
    requires d != null ==> d.Valid()
    reads (if d == null then {} else {d})`slots, (if d == null then {} else {d})`used
    ensures d == null || key !in d.Contents() ==> r == def
    ensures d != null && key in d.Contents() ==> r == getNumber(d.Contents()[key].tv)
  {
    var di := DictFind(d, key, -1, false);
    if di.None? then def else getNumber(di.value.tv)
  }

  /** dict_get_number: dict_get_number_def with default 0. */
  function DictGetNumber(d: Dict?, key: string, getNumber: Value -> int): (r: int)
    requires d != null ==> d.Valid()
    reads (if d == null then {} else {d})`slots, (if d == null then {} else {d})`used
    ensures d == null || key !in d.Contents() ==> r == 0
    ensures d != null && key in d.Contents() ==> r == getNumber(d.Contents()[key].tv)
  {
    DictGetNumberDef(d, key, 0, getNumber)
  }

  /**
   * dict_get_number_check: the number stored under key; 0 when the key is
   * missing, and 0 (after an error message) when the value is not a Number.
   */
  function DictGetNumberCheck(d: Dict?, key: string): (r: int)
    requires d != null ==> d.Valid()
    reads (if d == null then {} else {d})`slots, (if d == null then {} else {d})`used
    ensures d == null || key !in d.Contents() ==> r == 0
    ensures d != null && key in d.Contents() ==>
      r == (if d.Contents()[key].tv.Number? then d.Contents()[key].tv.n else 0)
  {
    var di := DictFind(d, key, -1, false);
    if di.None? then 0
    else if !di.value.tv.Number? then 0
    else di.value.tv.n
  }

  /** What tv_get_number promises for a Number. */
  ghost predicate ReadsNumbers(getNumber: Value -> int)
  {
    forall n :: getNumber(Number(n)) == n
  }

  /**
   * dict_get_number_check agrees with dict_get_number wherever it gives no
   * error: on a missing key and on a Number.
   */
  lemma NumberCheckAgrees(d: Dict?, key: string, getNumber: Value -> int)
    requires d != null ==> d.Valid()
    requires ReadsNumbers(getNumber)
    requires d != null && key in d.Contents() ==> d.Contents()[key].tv.Number?
    ensures DictGetNumberCheck(d, key) == DictGetNumber(d, key, getNumber)
  {
    if d != null && key in d.Contents() {
      var n := d.Contents()[key].tv.n;
      assert getNumber(Number(n)) == n;
    }
  }

  /** A key that is found, found again by its own prefix of full length. */
  lemma FindFullPrefix(d: Dict, key: string, oom: bool)
    requires d.Valid() && |key| < AKEYLEN
    ensures DictFind(d, key, |key|, oom) == DictFind(d, key, -1, oom)
  {
    assert LookupKey(key, |key|) == key;
  }
}
