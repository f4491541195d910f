/** The sync state and the selection an incremental update makes (src/indexer.py,
    `load_sync_state`, `run_full_index`, `run_incremental_update`). The JSON file, the
    Zotero API and the vector store are outside the model: the saved file is an input,
    the library version Zotero reports is a parameter, and the deletions are outputs. */
module Sync {
  import opened Wrappers
  import opened Records

  /** The contents of the sync-state file; either key may be missing. */
  datatype SavedState = SavedState(libraryVersion: Option<int>, indexedKeys: Option<seq<string>>)

  /** The state an update works from: the last library version and the indexed keys. */
  datatype SyncState = SyncState(libraryVersion: int, indexedKeys: set<string>)

  /** `load_sync_state` followed by the `.get` defaults: no file, or a missing key,
      reads as version 0 and no indexed keys. */
  function LoadState(saved: Option<SavedState>): (st: SyncState)
    ensures saved.None? ==> st == SyncState(0, {})
    ensures saved.Some? && saved.value.libraryVersion.Some? ==> st.libraryVersion == saved.value.libraryVersion.value
    ensures saved.Some? && saved.value.libraryVersion.None? ==> st.libraryVersion == 0
    ensures saved.Some? && saved.value.indexedKeys.Some? ==>
      forall k :: k in st.indexedKeys <==> k in saved.value.indexedKeys.value
    ensures saved.Some? && saved.value.indexedKeys.None? ==> st.indexedKeys == {}
  {
    if saved.None? then SyncState(0, {})
    else
      var v := if saved.value.libraryVersion.Some? then saved.value.libraryVersion.value else 0;
      var ks := if saved.value.indexedKeys.Some? then saved.value.indexedKeys.value else [];
      SyncState(v, set k | k in ks)
  }

  /** The keys of the fetched items. */
  function CurrentKeys(items: seq<Item>): set<string> {
    set i | i in items :: i.key
  }

  /** Whether an item has to be (re)indexed: its key was not indexed, or it changed
      since the last sync. */
  predicate NeedsIndex(st: SyncState, item: Item) {
    item.key !in st.indexedKeys || item.version > st.libraryVersion
  }

  /** The items to index, in fetch order. */
  function Changed(st: SyncState, items: seq<Item>): seq<Item>
    decreases |items|
  {
    if items == [] then []
    else
      var last := items[|items| - 1];
      Changed(st, items[..|items| - 1]) + (if NeedsIndex(st, last) then [last] else [])
  }

  /** The keys deleted before re-indexing: those of the selected items that were indexed. */
  function Redeleted(st: SyncState, toIndex: seq<Item>): seq<string>
    decreases |toIndex|
  {
    if toIndex == [] then []
    else
      var last := toIndex[|toIndex| - 1];
      Redeleted(st, toIndex[..|toIndex| - 1]) + (if last.key in st.indexedKeys then [last.key] else [])
  }

  /** The state `run_full_index` saves: the library version and every fetched key. */
  function FullIndexState(items: seq<Item>, libraryVersion: int): SyncState {
    SyncState(libraryVersion, CurrentKeys(items))
  }

  /** The item-selection loop. */
  method SelectChanged(st: SyncState, items: seq<Item>) returns (toIndex: seq<Item>)
    ensures toIndex == Changed(st, items)
  {
    toIndex := [];
    for i := 0 to |items|
      invariant toIndex == Changed(st, items[..i])
    {
      assert items[..i + 1][..i] == items[..i];
      if items[i].key !in st.indexedKeys || items[i].version > st.libraryVersion {
        toIndex := toIndex + [items[i]];
      }
    }
    assert items[..|items|] == items;
  }

  /** The loop that deletes the old vectors of re-indexed items. */
  method SelectRedeleted(st: SyncState, toIndex: seq<Item>) returns (keys: seq<string>)
    ensures keys == Redeleted(st, toIndex)
  {
    keys := [];
    for i := 0 to |toIndex|
      invariant keys == Redeleted(st, toIndex[..i])
    {
      assert toIndex[..i + 1][..i] == toIndex[..i];
      if toIndex[i].key in st.indexedKeys {
        keys := keys + [toIndex[i].key];
      }
    }
    assert toIndex[..|toIndex|] == toIndex;
  }

  /** `run_incremental_update`: the keys deleted because their item is gone, the keys
      deleted because their item is re-indexed, the items handed to `index_items`
      (nothing is indexed when this is empty), and the state saved afterwards.
      `libraryVersion` is what Zotero reports as its last modified version. */
  method IncrementalUpdate(saved: Option<SavedState>, items: seq<Item>, libraryVersion: int)
    returns (removed: set<string>, redeleted: seq<string>, toIndex: seq<Item>, next: SyncState)
    ensures removed == LoadState(saved).indexedKeys - CurrentKeys(items)
    ensures toIndex == Changed(LoadState(saved), items)
    ensures redeleted == Redeleted(LoadState(saved), toIndex)
    ensures next == SyncState(libraryVersion, CurrentKeys(items))
  {
    var st := LoadState(saved);
    var current := CurrentKeys(items);
    removed := st.indexedKeys - current;
    toIndex := SelectChanged(st, items);
    redeleted := [];
    if toIndex != [] {
      redeleted := SelectRedeleted(st, toIndex);
    }
    next := SyncState(libraryVersion, current);
  }

  // ----- properties -----

  /** An item is selected exactly when it needs indexing, in fetch order. */
  lemma {:induction false} ChangedAppend(st: SyncState, a: seq<Item>, b: seq<Item>)
    ensures Changed(st, a + b) == Changed(st, a) + Changed(st, b)
    decreases |b|
  {
    if b == [] {
      assert a + b == a;
    } else {
      var init := b[..|b| - 1];
      assert (a + b)[..|a + b| - 1] == a + init;
      ChangedAppend(st, a, init);
    }
  }

  /** The selected items are exactly the fetched items that need indexing. */
  lemma {:induction false} ChangedMembers(st: SyncState, items: seq<Item>, x: Item)
    ensures x in Changed(st, items) <==> x in items && NeedsIndex(st, x)
    decreases |items|
  {
    if items != [] {
      var init := items[..|items| - 1];
      ChangedMembers(st, init, x);
      assert items == init + [items[|items| - 1]];
    }
  }

  /** A key is removed exactly when it was indexed and no fetched item has it. */
  lemma RemovedKeys(st: SyncState, items: seq<Item>, k: string)
    ensures k in st.indexedKeys - CurrentKeys(items) <==>
      k in st.indexedKeys && forall i :: 0 <= i < |items| ==> items[i].key != k
  {
    if k in CurrentKeys(items) {
      var it :| it in items && it.key == k;
      var i :| 0 <= i < |items| && items[i] == it;
    }
  }

  /** Every key deleted for re-indexing was indexed, belongs to a selected item, and so
      is never one of the removed keys. */
  lemma {:induction false} RedeletedKeys(st: SyncState, items: seq<Item>, toIndex: seq<Item>, k: string)
    requires forall x :: x in toIndex ==> x in items
    requires k in Redeleted(st, toIndex)
    ensures k in st.indexedKeys
    ensures k in CurrentKeys(items)
    ensures k !in st.indexedKeys - CurrentKeys(items)
    decreases |toIndex|
  {
    var init := toIndex[..|toIndex| - 1];
    var last := toIndex[|toIndex| - 1];
    assert forall x :: x in init ==> x in toIndex;
    if k in Redeleted(st, init) {
      RedeletedKeys(st, items, init, k);
    } else {
      assert k == last.key && last in items;
    }
  }

  /** Without a saved state every item is indexed and nothing is deleted. */
  lemma FirstSync(items: seq<Item>, libraryVersion: int)
    ensures Changed(LoadState(None), items) == items
    ensures Redeleted(LoadState(None), items) == []
    ensures LoadState(None).indexedKeys - CurrentKeys(items) == {}
  {
    FirstSyncSelects(items);
  }

  lemma {:induction false} FirstSyncSelects(items: seq<Item>)
    ensures Changed(SyncState(0, {}), items) == items
    ensures Redeleted(SyncState(0, {}), items) == []
    decreases |items|
  {
    if items != [] {
      FirstSyncSelects(items[..|items| - 1]);
      assert items[..|items| - 1] + [items[|items| - 1]] == items;
    }
  }

  /** Right after a full index, when no item is newer than the library version, an
      update with the same items re-indexes nothing and deletes nothing. An incremental
      update saves this same state, so the same holds after one. */
  lemma AfterFullIndex(items: seq<Item>, libraryVersion: int)
    requires forall i :: 0 <= i < |items| ==> items[i].version <= libraryVersion
    ensures Changed(FullIndexState(items, libraryVersion), items) == []
    ensures FullIndexState(items, libraryVersion).indexedKeys - CurrentKeys(items) == {}
  {
    NothingChanged(FullIndexState(items, libraryVersion), items);
  }

  lemma {:induction false} NothingChanged(st: SyncState, items: seq<Item>)
    requires forall i :: 0 <= i < |items| ==> items[i].key in st.indexedKeys && items[i].version <= st.libraryVersion
    ensures Changed(st, items) == []
    decreases |items|
  {
    if items != [] {
      NothingChanged(st, items[..|items| - 1]);
    }
  }
}
