/** The backend's cache of Redmine time entries (the `time_entries` key of
    the cache file): refreshing one entry after it was created, dropping one,
    and answering a date-range query from the cache. Reading the entry from
    Redmine is a parameter: `None` when the call failed.
 */
module TimeEntryCache {
  import opened Common
  import opened Seqs

  /** A cached entry; the creation and update stamps are not modelled. */
  datatype CachedEntry = CachedEntry(
    id: int,
    project: string,
    issue: Option<int>,
    user: string,
    activity: string,
    hours: Tenths,
    comments: string,
    spentOn: Date)

  /** The cache; `None` when it has no `time_entries` key. */
  datatype Cache = Cache(timeEntries: Option<seq<CachedEntry>>)

  function NotEntry(id: int): CachedEntry -> bool {
    (e: CachedEntry) => e.id != id
  }

  function IsEntry(id: int): CachedEntry -> bool {
    (e: CachedEntry) => e.id == id
  }

  function SpentFrom(d: Date): CachedEntry -> bool {
    (e: CachedEntry) => e.spentOn >= d
  }

  function SpentUntil(d: Date): CachedEntry -> bool {
    (e: CachedEntry) => e.spentOn <= d
  }

  /** `update_cache_with_entry`: without a client, or when reading the
      entry fails, the cache is left alone. Otherwise every cached entry
      with that id is dropped, the others keep their order, and the entry
      as read is appended (creating the key if needed). */
  function UpdateCacheWithEntry(cache: Cache, entryId: int, configured: bool,
                                fetched: Option<CachedEntry>): (r: Cache)
    ensures !configured || fetched.None? ==> r == cache
    ensures configured && fetched.Some? ==>
      && r.timeEntries.Some?
      && var es := r.timeEntries.value;
      && |es| > 0 && es[|es| - 1] == fetched.value
      && (forall i :: 0 <= i < |es| - 1 ==> es[i].id != entryId)
      && (forall e :: e in es[..|es| - 1] <==> e in cache.timeEntries.GetOr([]) && e.id != entryId)
      && IsSubsequence(es[..|es| - 1], cache.timeEntries.GetOr([]))
      && |es| - 1 + Count(cache.timeEntries.GetOr([]), IsEntry(entryId)) == |cache.timeEntries.GetOr([])|
  {
    if !configured || fetched.None? then cache
    else
      var before := cache.timeEntries.GetOr([]);
      var kept := Filter(before, NotEntry(entryId));
      FilterIsSubsequence(before, NotEntry(entryId));
      FilterCount(before, NotEntry(entryId), IsEntry(entryId));
      var es := kept + [fetched.value];
      assert es[..|es| - 1] == kept;
      assert forall i :: 0 <= i < |kept| ==> kept[i] in kept;
      Cache(Some(es))
  }

  /** `remove_from_cache`: drops every cached entry with that id, if the
      cache has entries at all. */
  function RemoveFromCache(cache: Cache, entryId: int): (r: Cache)
    ensures cache.timeEntries.None? ==> r == cache
    ensures cache.timeEntries.Some? ==>
      && r.timeEntries.Some?
      && (forall e :: e in r.timeEntries.value <==> e in cache.timeEntries.value && e.id != entryId)
      && IsSubsequence(r.timeEntries.value, cache.timeEntries.value)
      && |r.timeEntries.value| + Count(cache.timeEntries.value, IsEntry(entryId)) == |cache.timeEntries.value|
  {
    match cache.timeEntries
    case None => cache
    case Some(es) =>
      FilterIsSubsequence(es, NotEntry(entryId));
      FilterCount(es, NotEntry(entryId), IsEntry(entryId));
      Cache(Some(Filter(es, NotEntry(entryId))))
  }

  /** Filtering a refreshed list again drops just the refreshed entry. */
  lemma RefilterRefreshed(kept: seq<CachedEntry>, entry: CachedEntry, keep: CachedEntry -> bool)
    requires forall e :: e in kept ==> keep(e)
    requires !keep(entry)
    ensures Filter(kept + [entry], keep) == kept
  {
    assert forall j :: 0 <= j < |kept| ==> kept[j] in kept;
    FilterConcat(kept, [entry], keep);
    FilterKeepsAll(kept, keep);
    assert [entry][1..] == [];
    assert Filter([entry], keep) == [];
  }

  /** Refreshing an entry and then dropping it leaves the other entries as
      dropping it alone would. */
  lemma RemoveUndoesUpdate(cache: Cache, entry: CachedEntry)
    requires cache.timeEntries.Some?
    ensures RemoveFromCache(UpdateCacheWithEntry(cache, entry.id, true, Some(entry)), entry.id)
         == RemoveFromCache(cache, entry.id)
  {
    var keep := NotEntry(entry.id);
    var kept := Filter(cache.timeEntries.value, keep);
    assert UpdateCacheWithEntry(cache, entry.id, true, Some(entry)) == Cache(Some(kept + [entry]));
    RefilterRefreshed(kept, entry, keep);
  }

  /** Refreshing the same entry twice is the same as refreshing it once. */
  lemma UpdateIdempotent(cache: Cache, entry: CachedEntry)
    ensures var once := UpdateCacheWithEntry(cache, entry.id, true, Some(entry));
      UpdateCacheWithEntry(once, entry.id, true, Some(entry)) == once
  {
    var keep := NotEntry(entry.id);
    var kept := Filter(cache.timeEntries.GetOr([]), keep);
    var once := UpdateCacheWithEntry(cache, entry.id, true, Some(entry));
    assert once == Cache(Some(kept + [entry]));
    RefilterRefreshed(kept, entry, keep);
    assert UpdateCacheWithEntry(once, entry.id, true, Some(entry)) == Cache(Some(Filter(kept + [entry], keep) + [entry]));
  }

  /** `get_time_entries` answered from the cache: the cached entries spent
      on or after `fromDate` and on or before `toDate`, each bound applying
      only when given, in cache order. `None` when the cache has no entries
      key, in which case the backend asks Redmine instead. */
  function CachedTimeEntries(cache: Cache, fromDate: Option<Date>, toDate: Option<Date>): (r: Option<seq<CachedEntry>>)
    ensures r.None? <==> cache.timeEntries.None?
    ensures r.Some? ==> |r.value| <= |cache.timeEntries.value|
    ensures r.Some? ==> forall e :: e in r.value <==>
      && e in cache.timeEntries.value
      && (fromDate.Some? ==> e.spentOn >= fromDate.value)
      && (toDate.Some? ==> e.spentOn <= toDate.value)
  {
    match cache.timeEntries
    case None => None
    case Some(es) =>
      var afterFrom := if fromDate.Some? then Filter(es, SpentFrom(fromDate.value)) else es;
      Some(if toDate.Some? then Filter(afterFrom, SpentUntil(toDate.value)) else afterFrom)
  }

  /** A refreshed entry is answered from the cache for every range that
      contains its day. */
  lemma RefreshedEntryListed(cache: Cache, e: CachedEntry, fromDate: Option<Date>, toDate: Option<Date>)
    requires fromDate.Some? ==> e.spentOn >= fromDate.value
    requires toDate.Some? ==> e.spentOn <= toDate.value
    ensures var listed := CachedTimeEntries(UpdateCacheWithEntry(cache, e.id, true, Some(e)), fromDate, toDate);
      listed.Some? && e in listed.value
  {
    var es := UpdateCacheWithEntry(cache, e.id, true, Some(e)).timeEntries.value;
    assert es[|es| - 1] in es;
  }
}
