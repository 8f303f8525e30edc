# Vim Dictionary model

A Dafny model of the Dictionary value type of Vim's script engine
(`src/dict.c`). It covers:

- the registry of live dictionaries and reference counting;
- adding, finding, reading and removing entries;
- shallow and deep copy, extend() and equality;
- iteration, keys()/values()/items();
- making every entry read-only;
- the `#{key: value}` literal-key scanner.

Every operation is proved against a specification.

## How the model is built

**Hashtable.** A dictionary's hashtable is an array of slots,
`seq<Option<Item>>`, held in the `slots` field of class `DictCore.Dict`.
The `used` field plays the part of `ht_used`.

- `Entries(slots)` lists the items in slot order, which is the order the
  C loops walk with their `todo` counters.
- `Contents()` is the map from key to item built from those entries.
- `Dict.Valid()` says that `used` counts the non-empty slots and that no
  key occurs twice.

Hashing is not modelled. A key may sit in any slot, and lookups are
proved for every placement.

**Items.** An entry (`dictitem_T`) is a datatype value `Item` with its
key, its value (`typval_T`, as datatype `Value`), its lock level and its
flags.

**Registry.** The list of live dictionaries is class
`DictRegistry.Registry`:

- the field `first` is `first_dict`;
- the field `inFreeUnrefItems` is `in_free_unref_items`;
- the ghost sequence `Nodes` lists the registered dictionaries;
- `Valid()` ties `Nodes` to the `usedPrev`/`usedNext` links of every
  member.

**Outside routines.** Routines outside the file are parameters of the
operations that call them:

- Allocation failure is a boolean or an oracle function
  (`Oracles`, `Allocs`, `addFails`).
- The checks `var_check_lock`, `var_check_ro`, `var_check_fixed`,
  `var_check_func_name` and `valid_varname` are the fields of datatype
  `Checks`.
- `tv_equal`, `tv_get_string`, `tv_get_number` and `item_copy` are
  function parameters.
- `copy_tv` is modelled as sharing the value: the destination holds the
  same value as the source, with lock 0.

**Copy and extend.** The loops of `dict_copy` and `dict_extend` are
specified by functions over the entries: `Walk`, and `Step`/`Extend`.
Lemmas then connect those functions to what the operation promises: the
copy equals the original, entry by entry, and extend() merges under
each policy. The methods are proved to compute exactly those functions.

## Model

| member | source | states |
|---|---|---|
| DictCore.MaskCopyID | src/dict.c:186 | `copyID & COPYID_MASK` clears the lowest bit: the result is even and is the id or the id minus one |
| DictCore.Dict.constructor | src/dict.c:37-45 | a new dictionary is empty, with 16 empty slots, refcount 0, lock 0, scope 0, copyID 0 and no links |
| DictCore.Dict.SizeIsUsed | src/dict.c:577-582 | in a valid dictionary the number of distinct keys equals `ht_used` |
| DictCore.Dict.HashAdd | src/dict.c:347-350 | dict_add succeeds iff the key is new and memory is available; on success the key maps to the item and `used` grows by one; on failure nothing changes |
| DictCore.Dict.SetItem | src/dict.c:987-988 | putting a new item into a full slot keeps the number of slots and `used`; the item's key now maps to it and every other key keeps its item |
| DictCore.Dict.HashRemove | src/dict.c:254-264 | emptying a slot removes exactly that slot's key and decrements `used` |
| DictCore.FindSlotContents | src/dict.c:615-619 | hash_find finds a slot iff the key is in the contents, and the slot holds that key's item |
| DictRegistry.Registry.constructor | src/dict.c:21 | the registry starts empty, and no sweep is running |
| DictRegistry.Registry.DictAlloc | src/dict.c:27-48 | on allocation failure, NULL and the registry unchanged; otherwise a fresh, empty, valid dictionary with refcount 0, lock 0, scope 0 and copyID 0, pushed at the head of the registry with its links kept consistent |
| DictRegistry.Registry.DictAllocLock | src/dict.c:64-71 | as dict_alloc (a fresh, empty, valid dictionary at the head of the registry, refcount 0, scope 0, copyID 0, or NULL on failure), with the lock level set to the argument |
| DictRegistry.Registry.DictFreeDict | src/dict.c:142-152 | unlinks exactly d: the registry loses d and keeps every other member in order, and every prev/next link stays consistent |
| DictRegistry.AllocThenFree | src/dict.c:27-48 | unlinking a dictionary just pushed at the head gives back the registry as it was |
| DictRegistry.DictFreeContents | src/dict.c:106-139 | releases every item (the ones returned, in slot order) and leaves an empty, valid dictionary with `used` 0 |
| DictRegistry.Registry.DictFree | src/dict.c:155-162 | while a sweep runs, nothing happens: the registry, the slots and `used` stay as they were; otherwise d's items are released and exactly d leaves the registry |
| DictRegistry.Registry.DictUnref | src/dict.c:169-173 | NULL is ignored; otherwise the refcount drops by one, and d is freed iff the count is at most 0 and no sweep runs; otherwise the registry, d's slots and `used` stay as they were |
| DictRegistry.SweepOne | src/dict.c:186-193 | one dictionary's contents are cleared iff its masked copyID differs from the masked epoch; otherwise it is unchanged |
| DictRegistry.SweepContents | src/dict.c:180-195 | walking the registry list clears exactly the unmarked dictionaries, keeps the others, and reports whether any was unmarked |
| DictRegistry.Registry.DictFreeNonref | src/dict.c:180-195 | sweep phase one: the registry is unchanged, exactly the unmarked members lose their items, and the result is TRUE iff some member was unmarked |
| DictRegistry.Registry.DictFreeItems | src/dict.c:198-208 | sweep phase two: the registry afterwards is the old one without exactly the unmarked members, order kept and links consistent |
| DictRegistry.Registry.FreeItemsStep | src/dict.c:202-207 | one round of the phase-two loop: the next link is read before the current member is unlinked, and the prefix seen so far has lost exactly its unmarked members |
| DictRegistry.DropMembers | src/dict.c:198-208 | a dictionary survives phase two iff it was registered and is not unmarked |
| DictRegistry.WithoutAt | src/dict.c:142-152 | unlinking the member at index k of a list without repetitions removes exactly index k |
| DictItems.DictitemAlloc | src/dict.c:218-230 | NULL on allocation failure; otherwise an item with the key, an unset value, lock 0 and DI_FLAGS_ALLOC |
| DictItems.DictitemCopy | src/dict.c:236-248 | NULL on allocation failure; otherwise an item with the original's key and value, lock 0 and DI_FLAGS_ALLOC |
| DictItems.AddValue | src/dict.c:357-372 | adding a new item fails iff allocation fails or the key is present; a failure leaves the contents and `used` unchanged; a success maps the key to the new item |
| DictItems.DictAddNumberSpecial | src/dict.c:357-372 | as AddValue, with a Number or a Bool value according to the kind |
| DictItems.DictAddNumber | src/dict.c:379-382 | as AddValue, with a Number value |
| DictItems.DictAddBool | src/dict.c:389-392 | as AddValue, with a Bool value |
| DictItems.SavedString | src/dict.c:419-426 | the stored string is NULL iff the argument is NULL or its copy fails; otherwise it is the whole string for length -1, or its first `len` bytes |
| DictItems.DictAddStringLen | src/dict.c:411-434 | as AddValue, with the string SavedString gives |
| DictItems.DictAddString | src/dict.c:399-402 | as AddValue, with a copy of the whole string, or the NULL string when that copy fails |
| DictItems.DictAddList | src/dict.c:441-457 | as AddValue with the list as value; the list's refcount rises by one iff the add succeeds |
| DictItems.DictAddDict | src/dict.c:555-571 | as AddValue with the dictionary as value; its refcount rises by one iff the add succeeds |
| DictItems.DictAddTv | src/dict.c:464-478 | as AddValue, with the given value |
| DictItems.DictitemRemove | src/dict.c:254-264 | the key leaves the contents; `used` drops by one iff the key was present |
| DictAccess.DictLen | src/dict.c:577-582 | dict_len is 0 for NULL and otherwise the number of keys of a valid dictionary |
| DictAccess.LookupKey | src/dict.c:600-613 | a negative length uses the whole key; otherwise the key is cut to at most `len` bytes |
| DictAccess.DictFind | src/dict.c:590-620 | NULL for a NULL dictionary, or when a key copy of 200 or more characters cannot be allocated; otherwise it finds an item iff the (cut) key is present, and the item is that key's item |
| DictAccess.FindFullPrefix | src/dict.c:600-613 | looking up a key by its full length finds the same item as looking it up with length -1 |
| DictAccess.DictGetTv | src/dict.c:627-636 | OK iff the dictionary is not NULL and holds the key, and then the value is the stored one |
| DictAccess.DictGetString | src/dict.c:645-657 | NULL iff the key is missing or a requested copy fails; otherwise the string of the stored value |
| DictAccess.DictGetNumberDef | src/dict.c:674-682 | the default for a NULL dictionary or a missing key; otherwise the number of the stored value |
| DictAccess.DictGetNumber | src/dict.c:664-667 | 0 for a NULL dictionary or a missing key; otherwise the number of the stored value |
| DictAccess.DictGetNumberCheck | src/dict.c:690-703 | 0 for a NULL dictionary, a missing key or a value that is not a Number; otherwise the Number |
| DictAccess.NumberCheckAgrees | src/dict.c:664-703 | dict_get_number_check and dict_get_number agree on a missing key and on a Number |
| DictCopy.CopyItem | src/dict.c:309-322 | a copied item keeps its key, gets lock 0 and DI_FLAGS_ALLOC, and shares the value in a shallow copy |
| DictCopy.Copies | src/dict.c:303-327 | copying a list of items copies each one, position by position |
| DictCopy.CopiesKeys | src/dict.c:303-327 | copying keeps the key set, and keeps keys unique |
| DictCopy.CopiesMap | src/dict.c:303-327 | the map built from the copied items is the item-wise copy of the original map |
| DictCopy.Walk | src/dict.c:302-327 | the copying loop never raises the count, and a failed step or a copied item always counts one item off |
| DictCopy.WalkCount | src/dict.c:303-327 | every item the loop counts off is either copied or is the one step that failed |
| DictCopy.WalkPrefix | src/dict.c:303-327 | the items the loop copies are always a prefix of the full copy, in slot order |
| DictCopy.CopiesEverything | src/dict.c:303-340 | a walk that succeeds copies every item |
| DictCopy.WalkWithoutFailures | src/dict.c:303-327 | with no allocation failure and no interrupt, the walk succeeds |
| DictCopy.AsWrittenLosesLastKey | src/dict.c:307-333 | when the count reaches 0 although a step failed, the copy is one item short |
| DictCopy.LastFailureSucceedsAsWritten | src/dict.c:307-333 | a one-item dictionary whose item cannot be copied is reported as copied, with its key missing |
| DictCopy.CopySlot | src/dict.c:305-326 | one round of the copying loop: an empty slot is passed; an item is counted off and its copy added, and the loop state stays the one Walk describes, or the walk ends failed with the items copied so far |
| DictCopy.CopyLoop | src/dict.c:302-327 | the copying loop fills the new dictionary with exactly the items Walk copies, and stops with Walk's count and failure |
| DictCopy.DropCopy | src/dict.c:331-335 | releasing the new copy with refcount 1: its refcount drops to 0; outside a sweep it leaves the registry, which is then as before the allocation; during a sweep the registry keeps it at the head |
| DictCopy.FillCopy | src/dict.c:302-338 | on success the copy holds the item-wise copy of the original with refcount 1 and stays at the head of the registry; otherwise NULL is returned and the copy is released: it leaves the registry outside a sweep, and during a sweep stays at the head with refcount 0 |
| DictCopy.DictCopy | src/dict.c:284-340 | NULL for NULL input; otherwise a result iff the header is allocated and every item is copied; the result is fresh, registered, with refcount 1, and equals the original item by item; on failure the registry is as before outside a sweep, and during a sweep has gained exactly one fresh member with refcount 0 at its head; with a non-zero copyID, the original records the copyID and the copy |
| DictExtend.Step | src/dict.c:956-990 | one round of the loop, when it does not break, adds at most the key of the visited item and changes no other key's item |
| DictExtend.Extend | src/dict.c:952-992 | the loop leaves every item of d1 whose key is not in d2 as it was |
| DictExtend.ExtendKeys | src/dict.c:946-992 | extend() only adds keys, and only keys of d2 |
| DictExtend.ExtendKeepsExisting | src/dict.c:971-989 | unless it forces, extend() keeps every existing item of d1 as it was |
| DictExtend.ExtendMerges | src/dict.c:946-992 | when no item is refused, by the scope checks of a scope dictionary or by the action, and no allocation fails, d1 ends up as the merge of d1 and d2: d2's values win under "force", and d1's values win otherwise |
| DictExtend.MergedStep | src/dict.c:971-989 | one round of the loop moves one item from the part still to merge into d1 without changing the merge |
| DictExtend.StepStops | src/dict.c:960-986 | one round of the loop breaks exactly when the scope checks refuse the item, or its key is in d1 and "error" or a locked or read-only target under "force" refuses it |
| DictExtend.StopsOnAfter | src/dict.c:971-989 | a round on one key leaves the presence, the item and the stop decision of every other key as they were |
| DictExtend.ExtendStopsAt | src/dict.c:960-986 | the walk ends at the first item it refuses: one the scope checks refuse (an invalid variable name, or a function value replacing a builtin in g: or l:), a duplicate under "error", or a locked or read-only target under "force"; the result is that of the walk over the items in front of it, and later items of d2 are not looked at |
| DictExtend.ExtendOne | src/dict.c:956-990 | one round of the loop changes d1 exactly as Step says, and stops iff Step refuses |
| DictExtend.ExtendSlot | src/dict.c:954-990 | one round of the loop on one slot of d2: an empty slot is passed; an item is counted off, and d1 either stops at what Extend gives or still has to become it over the remaining items |
| DictExtend.DictExtend | src/dict.c:946-992 | d1's new contents are Extend of its old contents over d2's items in slot order, under the action, d1's scope and whether d1 is d2 |
| DictEqual.MatchesAll | src/dict.c:1031-1039 | checking the items of d1 one by one agrees with "every key of d1 is in d2 with an equal value" |
| DictEqual.SameItemsSameKeys | src/dict.c:1019-1039 | two dictionaries of equal size where every key of one is in the other have the same keys |
| DictEqual.SameItemsSymmetric | src/dict.c:1019-1039 | for a symmetric value equality, equal-sized dictionaries that match one way match the other way |
| DictEqual.EveryItemFound | src/dict.c:1029-1040 | the loop answers TRUE iff every key of d1 is in d2 with an equal value |
| DictEqual.DictEqual | src/dict.c:1007-1041 | TRUE for the same dictionary; FALSE when the lengths differ; TRUE when both are empty or NULL; otherwise TRUE iff every key of d1 is in d2 with an equal value |
| DictIter.DictIterator.constructor | src/dict.c:509-520 | a fresh iterator has nothing to yield |
| DictIter.DictIterator.Start | src/dict.c:509-520 | for a non-dictionary or a NULL one, nothing to iterate over; otherwise every item, in slot order, with the count at `ht_used` |
| DictIter.DictIterator.Next | src/dict.c:530-548 | NULL iff the count is 0; otherwise the next item in slot order, never one whose key was yielded before, with the count down by one |
| DictIter.NotYetYielded | src/dict.c:530-548 | in a sequence of items with unique keys, an item's key is not among the keys before it |
| DictList.KeyString | src/dict.c:1087-1089 | a key shows as a string that is NULL iff its copy fails, and otherwise is the key |
| DictList.ElemOf | src/dict.c:1084-1120 | keys() and values() give a plain value and items() does not; with no allocation failure the element is the key, the stored value, or the [key, stored value] pair; a complete pair holds the stored value second |
| DictList.Stops | src/dict.c:1079-1111 | the loop breaks whenever the result list item cannot be allocated, never when nothing fails, and for keys() and values() only then |
| DictList.Listing | src/dict.c:1071-1122 | the result has at most one element per item |
| DictList.ListingComplete | src/dict.c:1071-1122 | with no allocation failure there is one element per item, in slot order: the key, the stored value, or the [key, stored value] pair |
| DictList.ContentsListed | src/dict.c:1071-1122 | with no allocation failure, keys(), values() and items() have one element per entry of the dictionary: each element is the key, the stored value or the [key, stored value] pair of some entry, and every entry's element is there |
| DictList.KeysListed | src/dict.c:1071-1122 | with no allocation failure, a key is in the dictionary iff keys() lists it |
| DictList.MakeElem | src/dict.c:1084-1120 | the value stored for one item is its key, its stored value, or a fresh [key, value] list with refcount 1 |
| DictList.AppendElem | src/dict.c:1074-1121 | one round of the loop appends the element of that item to the result, unless an allocation fails |
| DictList.VisitSlot | src/dict.c:1074-1121 | one round of the loop on one slot: an empty slot is passed; an item is counted off and its element appended, keeping the loop on track to build Listing |
| DictList.FillList | src/dict.c:1071-1122 | the result list shows the elements Listing gives for the dictionary's items |
| DictList.DictListing | src/dict.c:1050-1123 | a non-dictionary is an error; a NULL dictionary or a failed list allocation leaves the result unset; otherwise a fresh list with refcount 1 showing the elements Listing gives |
| DictMisc.ReadOnly | src/dict.c:1167 | an item made read-only gets DI_FLAGS_RO and DI_FLAGS_FIX, and nothing else changes |
| DictMisc.RoEntries | src/dict.c:1160-1168 | making each slot read-only makes each entry read-only |
| DictMisc.RoMap | src/dict.c:1160-1168 | making each entry read-only keeps the keys and makes each key's item read-only |
| DictMisc.DictSetItemsRo | src/dict.c:1156-1169 | every slot's item becomes read-only and fixed; the keys, the values and everything else stay |
| DictMisc.RemoveOutcome | src/dict.c:1193-1219 | remove() deletes iff there is no third argument, the dictionary is not NULL or locked, the key converts to a string and is present, and the item is neither fixed nor read-only; it then returns the item's value |
| DictMisc.DictRemove | src/dict.c:1193-1219 | the outcome is RemoveOutcome; on removal the key leaves the dictionary and `used` drops by one; every refusal leaves the dictionary unchanged |
| LiteralKey.LeadingRun | src/dict.c:777-780 | the length of the longest prefix of characters of one kind |
| LiteralKey.GetLiteralKey | src/dict.c:772-786 | FAIL iff the text does not start with a letter, digit, `_` or `-`; otherwise the key is the longest run of those characters, and the cursor moves past it and past the blanks after it |

## Left out

- `eval_dict` (src/dict.c:795-937) is not modelled. It is driven by the recursive expression evaluator, whitespace rules and line continuation, which are outside this file.
- `dict2string` (src/dict.c:710-765) is not modelled. Its output is produced by string-quoting and echo routines outside this file.
- Hashing, table growth and `hash_lock` are not modelled. A key may sit in any slot. A failed table growth shows as the allocation-failure flag of the add.
- `hash_clear` is modelled as the slot array becoming empty.
- Freeing memory (`vim_free`, `dictitem_free`) is not modelled. Released items and headers simply stop being reachable from the model. DictFreeContents returns, as a ghost value, the items it releases.
- Item identity is not modelled. `dictitem_remove` finds the item by its key. The `HI2DI(hi2) != di1` comparison of dict_extend (src/dict.c:982) is taken as "d1 is not d2" (`Policy.same`): an item of d2 can be the item found in d1 only when both are the same dictionary.
- `copy_tv` is treated as having no effect on the refcounts of lists and dictionaries held by values. The explicit refcount increments of dict_add_list, dict_add_dict and dict_copy are modelled. So is the decrement that `clear_tv` makes when a failed add frees its item (DictAddList, DictAddDict). Releasing a list or dictionary whose refcount drops to zero is not modelled.
- `clear_tv` and `item_copy` have no effect on the registry here. So "exactly d leaves the registry" (DictFree, DictUnref, DictFreeDict) and "exactly the copy joins it" (DictCopy) hold only in this model. In Vim, releasing a dictionary can free nested dictionaries, and a deep copy registers the nested copies it makes.
- `item_copy`, `tv_equal`, `tv_get_string` and `tv_get_number` are function parameters. Recursive deep copy and the equality of nested values are not modelled.
- `copy_tv` shares the value: a string is not duplicated, so its own `vim_strsave` can never fail here. In Vim a failed string copy leaves a NULL string. This affects DictItems.DictitemCopy, DictCopy.CopyItem (shallow copy), DictItems.DictAddTv, the overwrite of DictExtend.ExtendOne, and the values and pairs of DictList.Listing.
- `alloc_fail_id` and `dict_alloc_id` (src/dict.c:54-61) are not modelled. Allocation failure is a boolean parameter or an oracle.
- `got_int` is an oracle of the copy loop of dict_copy.
- The checks `var_check_lock`, `var_check_ro`, `var_check_fixed`, `var_check_func_name` and `valid_varname` are abstract predicates (datatype `Checks`). Error messages (`semsg`, `emsg`, `internal_error`) are not modelled.
- A Dafny `char` stands for one byte of `char_u`. Strings hold no NUL. Lengths (the `len` of dict_find and dict_add_string_len) count bytes, as in C. Multibyte characters are not modelled.
- The copyID is an unbounded integer. Its 32-bit wrap-around is not modelled.
- `f_items`, `f_keys`, `f_values`, `f_has_key`, `dict_add_callback` and the `rettv_*` helpers are not modelled. They only adapt arguments to and from the interpreter.
- DictIter.DictIterator.Start: the iterator keeps the slot array it started on. Changes to the dictionary during iteration are not modelled.
- DictCopy.DictCopy: after a failed copy, the original's `dv_copydict` still points at the released copy. The model states that it was set, not that it dangles.
- DictEqual.DictEqual: the test for a NULL dictionary after the size tests (src/dict.c:1024-1025) can never decide the result, because a NULL dictionary has length 0. The model leaves it out.
- DictList.DictListing: the allocation failures inside the loop are oracles indexed by item and allocation. On a failure part-way, the result holds the elements built so far.

## Findings

| source | as written | input that shows it | evidently intended | confidence | as-written member | corrected member |
|---|---|---|---|---|---|---|
| src/dict.c:303-335 | the loop counts an item off (`--todo`) before copying it; when that copy fails on the last item, `todo` is 0 and the incomplete copy is returned as a success | a dictionary with one item whose `dictitem_alloc` (or `item_copy`, or `dict_add`) fails | NULL whenever an item could not be copied, as the comment at src/dict.c:278-281 promises | not executed | DictCopy.AsWrittenLosesLastKey, DictCopy.LastFailureSucceedsAsWritten | DictCopy.DictCopy |
