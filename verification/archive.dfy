/**
 Archive retention (background.js:109-136): on each `archiveCleanup` alarm
 the archived-tab list is re-read, entries archived 24 hours or more ago are
 dropped, and when something was dropped the shorter list is written back and
 a notification reports how many entries went.
 */
module Archive {
  import opened Basics
  import opened Seqs

  /** One archived tab as the popup stores it; `archivedAt` is in
      milliseconds since the epoch. */
  datatype ArchivedTab = ArchivedTab(title: string, url: string, archivedAt: int)

  /** How long an archived tab is kept: 24 hours. */
  const RetentionMillis: int := 24 * 60 * 60 * 1000

  /** `tab => tab.archivedAt > cutoffTime` */
  function NewerThan(cutoff: int): ArchivedTab -> bool {
    (e: ArchivedTab) => e.archivedAt > cutoff
  }

  /** The complement of `NewerThan`: the entries the cleanup deletes. */
  function NotNewerThan(cutoff: int): ArchivedTab -> bool {
    (e: ArchivedTab) => e.archivedAt <= cutoff
  }

  /** `result.archivedTabs || []`: a missing list reads as empty. */
  function StoredOrEmpty(stored: Option<seq<ArchivedTab>>): seq<ArchivedTab> {
    match stored
    case Some(entries) => entries
    case None => []
  }

  /** The entries that survive a cleanup at `now`, in their stored order. */
  function Retained(entries: seq<ArchivedTab>, now: int): (kept: seq<ArchivedTab>)
    ensures forall e :: e in kept <==> e in entries && e.archivedAt > now - RetentionMillis
    ensures IsSubsequence(kept, entries)
  {
    FilterIsSubsequence(entries, NewerThan(now - RetentionMillis));
    Filter(entries, NewerThan(now - RetentionMillis))
  }

  /** The entries a cleanup at `now` deletes. */
  function Expired(entries: seq<ArchivedTab>, now: int): (gone: seq<ArchivedTab>)
    ensures forall e :: e in gone <==> e in entries && e.archivedAt <= now - RetentionMillis
  {
    Filter(entries, NotNewerThan(now - RetentionMillis))
  }

  /** What one cleanup run asks of the host: the list to write back, if any,
      and the deleted count it notifies about, if it notifies. */
  datatype CleanupEffect = CleanupEffect(written: Option<seq<ArchivedTab>>, notified: Option<nat>)

  /** `performArchiveCleanup`, with the storage read, the clock and the
      outcome of the storage write as inputs. */
  function ArchiveCleanup(read: Reply<Option<seq<ArchivedTab>>>, now: int, writeOk: bool): (e: CleanupEffect)
    ensures read.HostError? ==> e == CleanupEffect(None, None)
    ensures read.Ok? ==>
              var entries := StoredOrEmpty(read.value);
              && (e.written.Some? <==> exists x :: x in entries && x.archivedAt <= now - RetentionMillis)
              && (e.written.Some? ==> e.written.value == Retained(entries, now))
              && (e.notified.Some? <==> e.written.Some? && writeOk)
              && (e.notified.Some? ==>
                    e.notified.value == |Expired(entries, now)| == |entries| - |e.written.value| > 0)
  {
    match read
    case HostError => CleanupEffect(None, None)
    case Ok(stored) =>
      var entries := StoredOrEmpty(stored);
      var remaining := Retained(entries, now);
      DeletedAreExpired(entries, now);
      var deletedCount := |entries| - |remaining|;
      if deletedCount > 0 then
        CleanupEffect(Some(remaining), if writeOk then Some(deletedCount) else None)
      else
        CleanupEffect(None, None)
  }

  /** The deleted count is the number of expired entries, and it is positive
      exactly when some entry has expired. */
  lemma DeletedAreExpired(entries: seq<ArchivedTab>, now: int)
    ensures |entries| - |Retained(entries, now)| == |Expired(entries, now)|
    ensures |Expired(entries, now)| > 0 <==> exists x :: x in entries && x.archivedAt <= now - RetentionMillis
  {
    var cutoff := now - RetentionMillis;
    FilterPartition(entries, NewerThan(cutoff), NotNewerThan(cutoff));
    var gone := Expired(entries, now);
    if |gone| > 0 {
      assert gone[0] in gone;
    }
  }

  /** Each entry occurs in the kept and the deleted lists together exactly as
      often as in the stored list: nothing is lost or duplicated. */
  lemma RetainedPlusExpired(entries: seq<ArchivedTab>, now: int)
    ensures multiset(Retained(entries, now)) + multiset(Expired(entries, now)) == multiset(entries)
  {
    var cutoff := now - RetentionMillis;
    forall x: ArchivedTab
      ensures (multiset(Retained(entries, now)) + multiset(Expired(entries, now)))[x] == multiset(entries)[x]
    {
      FilterMultiplicity(entries, NewerThan(cutoff), x);
      FilterMultiplicity(entries, NotNewerThan(cutoff), x);
    }
  }

  /** A second cleanup at the same instant over the list the first one wrote
      finds nothing more to delete. */
  lemma CleanupIdempotent(entries: seq<ArchivedTab>, now: int, writeOk: bool)
    requires ArchiveCleanup(Ok(Some(entries)), now, writeOk).written.Some?
    ensures
      var again := ArchiveCleanup(Ok(ArchiveCleanup(Ok(Some(entries)), now, writeOk).written), now, writeOk);
      again == CleanupEffect(None, None)
  {
    var kept := Retained(entries, now);
    FilterIdempotent(entries, NewerThan(now - RetentionMillis));
    DeletedAreExpired(kept, now);
  }

  /** A later cleanup keeps no entry an earlier one would have deleted. */
  lemma RetentionMonotone(entries: seq<ArchivedTab>, earlier: int, later: int)
    requires earlier <= later
    ensures forall e :: e in Retained(entries, later) ==> e in Retained(entries, earlier)
  {
  }

  /** Scenario: of a three-day-old and a one-hour-old entry only the second
      is kept, and one deletion is reported. */
  lemma DayOldEntryIsDropped()
    ensures
      var stale := ArchivedTab("a", "a", 0);
      var recent := ArchivedTab("b", "b", 255600000);
      ArchiveCleanup(Ok(Some([stale, recent])), 259200000, true)
        == CleanupEffect(Some([recent]), Some(1))
  {
    var stale := ArchivedTab("a", "a", 0);
    var recent := ArchivedTab("b", "b", 255600000);
    var p := NewerThan(172800000);
    assert Filter([recent], p) == [recent];
    assert [stale, recent][1..] == [recent];
    assert Filter([stale, recent], p) == [recent];
  }
}
