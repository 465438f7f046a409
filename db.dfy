/**
 * The bookmark store of `utils/db.js`: one persisted value, under one key,
 * holding the sequence of bookmarked jobs in the order they were saved.
 *
 * The persisted value is `None` until something is written. A failing
 * storage read (`getItem` rejecting, or the text not parsing) and a failing
 * write (`setItem` rejecting) are the flags `readFails` and `writeFails`;
 * the timestamp `new Date().toISOString()` is the parameter `now`.
 *
 * Each operation is first given as a function from the old persisted value
 * to the new one and the call's result (`Init`, `Save`, `Remove`, `Clear`,
 * with the reads `Read` and `Contains`); the class `BookmarkStore` holds the
 * persisted value in a field and runs the operations step by step, and each
 * of its methods is proved to agree with its function.
 */
module Db {
  import opened Wrappers
  import opened Jobs
  import Seqs

  /** `{ ...job, bookmarkedAt }`: the saved job and when it was saved. */
  datatype Bookmark = Bookmark(job: Job, bookmarkedAt: string)

  /** The value under the bookmarks key; `None` when nothing was ever written. */
  type Stored = Option<seq<Bookmark>>

  /** What `saveBookmark` resolves to. */
  datatype SaveReply = SaveReply(success: bool, message: string, isExisting: bool)

  /** What `removeBookmark` and `clearBookmarks` resolve to. */
  datatype Reply = Reply(success: bool, message: string)

  /** An async call either resolves with a value or rejects with an `Error` carrying a message. */
  datatype Outcome<T> = Resolved(value: T) | Rejected(message: string)

  /** The persisted value after a call, and what the call gave back. */
  datatype Step<T> = Step(stored: Stored, out: T)

  const InvalidJobData := "Invalid job data"
  const FailedToSave := "Failed to save bookmark"
  const AlreadyBookmarked := "Job already bookmarked"
  const BookmarkedSuccessfully := "Job bookmarked successfully"
  const JobIdRequired := "Job ID is required"
  const FailedToRemove := "Failed to remove bookmark"
  const BookmarkNotFound := "Bookmark not found"
  const RemovedSuccessfully := "Bookmark removed successfully"
  const FailedToClear := "Failed to clear bookmarks"
  const ClearedSuccessfully := "All bookmarks cleared successfully"

  /** `jobId` passes the `!jobId` test: it is present and truthy. */
  predicate IsValidId(id: Option<JobId>) {
    id.Some? && IsTruthy(id.value)
  }

  /** `job` passes the `!job || !job.id` test. */
  predicate IsValidJob(job: Option<Job>) {
    job.Some? && IsValidId(job.value.id)
  }

  /** `bookmarks.some(bookmark => bookmark.id === id)`. */
  predicate HasId(bs: seq<Bookmark>, id: Option<JobId>) {
    exists i | 0 <= i < |bs| :: bs[i].job.id == id
  }

  /** `bookmarks.filter(bookmark => bookmark.id !== id)`. */
  function Without(bs: seq<Bookmark>, id: Option<JobId>): seq<Bookmark> {
    Seqs.Filter(bs, (b: Bookmark) => b.job.id != id)
  }

  /** How many entries carry the identifier `id`. */
  function Occurrences(bs: seq<Bookmark>, id: Option<JobId>): nat {
    |Seqs.Filter(bs, (b: Bookmark) => b.job.id == id)|
  }

  /** No identifier is stored twice. */
  predicate DistinctIds(bs: seq<Bookmark>) {
    forall i, j :: 0 <= i < j < |bs| ==> bs[i].job.id != bs[j].job.id
  }

  /**
   * What the operations keep true of the persisted value: every entry has an
   * identifier that `saveBookmark` would accept, and no identifier occurs twice.
   */
  predicate Invariant(stored: Stored) {
    stored.Some? ==>
      (forall i | 0 <= i < |stored.value| :: IsValidId(stored.value[i].job.id))
      && DistinctIds(stored.value)
  }

  // ---------------------------------------------------------------------------
  // The operations on the persisted value

  /** `getBookmarks`: the stored sequence; `[]` when nothing is stored or the read fails. */
  function Read(stored: Stored, readFails: bool): (r: seq<Bookmark>)
    ensures Invariant(stored) ==> DistinctIds(r)
    ensures r != [] ==> !readFails && stored == Some(r)
  {
    if readFails || stored.None? then [] else stored.value
  }

  /** `isJobBookmarked`: some entry read from the store has identifier `jobId`. */
  predicate Contains(stored: Stored, jobId: Option<JobId>, readFails: bool)
    ensures Contains(stored, jobId, readFails) ==> !readFails && stored.Some?
  {
    HasId(Read(stored, readFails), jobId)
  }

  /** `initDB`: write `[]` when nothing is stored; `false` when a storage call fails. */
  function Init(stored: Stored, readFails: bool, writeFails: bool): (r: Step<bool>)
    ensures r.stored == stored || (stored.None? && r.stored == Some([]))
    ensures r.out ==> r.stored.Some?
    ensures r.out <==> !readFails && (stored.Some? || !writeFails)
  {
    if readFails then Step(stored, false)
    else if stored.Some? then Step(stored, true)
    else if writeFails then Step(stored, false)
    else Step(Some([]), true)
  }

  /**
   * `saveBookmark`: reject an invalid job; report an existing entry with the
   * same identifier without writing; otherwise append the job, stamped with
   * `now`, to the sequence just read and write that back.
   */
  function Save(stored: Stored, job: Option<Job>, now: string, readFails: bool, writeFails: bool)
    : (r: Step<Outcome<SaveReply>>)
    ensures r.stored == stored || r.out == Resolved(SaveReply(true, BookmarkedSuccessfully, false))
    ensures r.out.Resolved? ==> r.out.value.success
    ensures r.out.Resolved? ==> IsValidJob(job) && r.stored.Some? && HasId(r.stored.value, job.value.id)
  {
    if !IsValidJob(job) then Step(stored, Rejected(InvalidJobData))
    else
      var bookmarks := Read(stored, readFails);
      if HasId(bookmarks, job.value.id) then
        Step(stored, Resolved(SaveReply(true, AlreadyBookmarked, true)))
      else if writeFails then Step(stored, Rejected(FailedToSave))
      else
        var updated := bookmarks + [Bookmark(job.value, now)];
        assert updated[|bookmarks|].job.id == job.value.id;
        Step(Some(updated), Resolved(SaveReply(true, BookmarkedSuccessfully, false)))
  }

  /**
   * `removeBookmark`: reject a missing or falsy identifier; report "not found"
   * without writing when no entry has it; otherwise write back the sequence
   * with every entry of that identifier filtered out.
   */
  function Remove(stored: Stored, jobId: Option<JobId>, readFails: bool, writeFails: bool)
    : (r: Step<Outcome<Reply>>)
    ensures r.stored == stored || r.out == Resolved(Reply(true, RemovedSuccessfully))
    ensures r.out.Resolved? && r.out.value.success ==> r.stored.Some? && !HasId(r.stored.value, jobId)
  {
    if !IsValidId(jobId) then Step(stored, Rejected(JobIdRequired))
    else
      var bookmarks := Read(stored, readFails);
      if !HasId(bookmarks, jobId) then Step(stored, Resolved(Reply(false, BookmarkNotFound)))
      else if writeFails then Step(stored, Rejected(FailedToRemove))
      else Step(Some(Without(bookmarks, jobId)), Resolved(Reply(true, RemovedSuccessfully)))
  }

  /** `clearBookmarks`: write `[]`. */
  function Clear(stored: Stored, writeFails: bool): (r: Step<Outcome<Reply>>)
    ensures r.out.Resolved? <==> !writeFails
    ensures r.stored == if writeFails then stored else Some([])
  {
    if writeFails then Step(stored, Rejected(FailedToClear))
    else Step(Some([]), Resolved(Reply(true, ClearedSuccessfully)))
  }

  // ---------------------------------------------------------------------------
  // The store object

  class BookmarkStore {
    /** What is persisted under the bookmarks key. */
    var stored: Stored

    /** The store as found on the device. */
    constructor (persisted: Stored)
      ensures stored == persisted
    {
      stored := persisted;
    }

    method InitDB(readFails: bool, writeFails: bool) returns (ok: bool)
      modifies this
      ensures Step(stored, ok) == Init(old(stored), readFails, writeFails)
    {
      if readFails {
        return false;
      }
      if stored.None? {
        if writeFails {
          return false;
        }
        stored := Some([]);
      }
      return true;
    }

    method GetBookmarks(readFails: bool) returns (bookmarks: seq<Bookmark>)
      ensures bookmarks == Read(stored, readFails)
      ensures readFails || stored.None? ==> bookmarks == []
      ensures !readFails && stored.Some? ==> bookmarks == stored.value
    {
      if readFails || stored.None? {
        return [];
      }
      return stored.value;
    }

    method IsJobBookmarked(jobId: Option<JobId>, readFails: bool) returns (found: bool)
      ensures found == Contains(stored, jobId, readFails)
      ensures found <==> !readFails && stored.Some?
                         && exists i :: 0 <= i < |stored.value| && stored.value[i].job.id == jobId
    {
      var bookmarks := GetBookmarks(readFails);
      found := HasId(bookmarks, jobId);
    }

    method SaveBookmark(job: Option<Job>, now: string, readFails: bool, writeFails: bool)
      returns (result: Outcome<SaveReply>)
      modifies this
      ensures Step(stored, result) == Save(old(stored), job, now, readFails, writeFails)
    {
      if !IsValidJob(job) {
        return Rejected(InvalidJobData);
      }
      var bookmarks := GetBookmarks(readFails);
      if HasId(bookmarks, job.value.id) {
        return Resolved(SaveReply(true, AlreadyBookmarked, true));
      }
      var updated := bookmarks + [Bookmark(job.value, now)];
      if writeFails {
        return Rejected(FailedToSave);
      }
      stored := Some(updated);
      return Resolved(SaveReply(true, BookmarkedSuccessfully, false));
    }

    method RemoveBookmark(jobId: Option<JobId>, readFails: bool, writeFails: bool)
      returns (result: Outcome<Reply>)
      modifies this
      ensures Step(stored, result) == Remove(old(stored), jobId, readFails, writeFails)
    {
      if !IsValidId(jobId) {
        return Rejected(JobIdRequired);
      }
      var bookmarks := GetBookmarks(readFails);
      if !HasId(bookmarks, jobId) {
        return Resolved(Reply(false, BookmarkNotFound));
      }
      var updated := Without(bookmarks, jobId);
      if writeFails {
        return Rejected(FailedToRemove);
      }
      stored := Some(updated);
      return Resolved(Reply(true, RemovedSuccessfully));
    }

    method ClearBookmarks(writeFails: bool) returns (result: Outcome<Reply>)
      modifies this
      ensures Step(stored, result) == Clear(old(stored), writeFails)
    {
      if writeFails {
        return Rejected(FailedToClear);
      }
      stored := Some([]);
      return Resolved(Reply(true, ClearedSuccessfully));
    }
  }

  // ---------------------------------------------------------------------------
  // Facts about identifiers in a sequence of bookmarks

  /** Filtering an identifier out leaves no entry with it, keeps every other entry, and keeps their order. */
  lemma WithoutSpec(bs: seq<Bookmark>, id: Option<JobId>)
    ensures !HasId(Without(bs, id), id)
    ensures forall k :: 0 <= k < |bs| && bs[k].job.id != id ==> bs[k] in Without(bs, id)
    ensures Seqs.IsSubsequence(Without(bs, id), bs)
  {
    Seqs.FilterIsSubsequence(bs, (b: Bookmark) => b.job.id != id);
  }

  /** With distinct identifiers, filtering out a present one removes exactly one entry. */
  lemma {:induction false} WithoutDropsOne(bs: seq<Bookmark>, id: Option<JobId>)
    requires DistinctIds(bs) && HasId(bs, id)
    ensures |Without(bs, id)| == |bs| - 1
    decreases |bs|
  {
    var rest := bs[1..];
    assert DistinctIds(rest);
    if bs[0].job.id == id {
      assert !HasId(rest, id);
      Seqs.FilterKeepsAll(rest, (b: Bookmark) => b.job.id != id);
    } else {
      assert HasId(rest, id);
      WithoutDropsOne(rest, id);
    }
  }

  /** Filtering an identifier out keeps the identifiers distinct. */
  lemma {:induction false} WithoutKeepsDistinct(bs: seq<Bookmark>, id: Option<JobId>)
    requires DistinctIds(bs)
    ensures DistinctIds(Without(bs, id))
    decreases |bs|
  {
    if bs != [] {
      var rest := bs[1..];
      WithoutKeepsDistinct(rest, id);
      var tail := Without(rest, id);
      if bs[0].job.id != id {
        assert Without(bs, id) == [bs[0]] + tail;
        forall k | 0 <= k < |tail| ensures bs[0].job.id != tail[k].job.id {
          assert tail[k] in rest;
        }
      } else {
        assert Without(bs, id) == tail;
      }
    }
  }

  /** With distinct identifiers, a present identifier occurs exactly once. */
  lemma {:induction false} DistinctOccursOnce(bs: seq<Bookmark>, id: Option<JobId>)
    requires DistinctIds(bs) && HasId(bs, id)
    ensures Occurrences(bs, id) == 1
    decreases |bs|
  {
    var rest := bs[1..];
    assert DistinctIds(rest);
    if bs[0].job.id == id {
      assert !HasId(rest, id);
      Seqs.FilterKeepsNone(rest, (b: Bookmark) => b.job.id == id);
    } else {
      assert HasId(rest, id);
      DistinctOccursOnce(rest, id);
    }
  }

  // ---------------------------------------------------------------------------
  // initDB

  /** An existing value is left as it is, whatever happens. */
  lemma InitKeepsExisting(stored: Stored, readFails: bool, writeFails: bool)
    requires stored.Some?
    ensures Init(stored, readFails, writeFails).stored == stored
  {
  }

  /** Without storage faults `initDB` leaves a sequence stored, and a second run changes nothing. */
  lemma InitIdempotent(stored: Stored)
    ensures Init(stored, false, false).stored.Some?
    ensures Init(Init(stored, false, false).stored, false, false) == Init(stored, false, false)
  {
  }

  /** `initDB` writes `[]` or nothing, so it keeps the invariant. */
  lemma InitPreservesInvariant(stored: Stored, readFails: bool, writeFails: bool)
    requires Invariant(stored)
    ensures Invariant(Init(stored, readFails, writeFails).stored)
  {
  }

  // ---------------------------------------------------------------------------
  // saveBookmark

  /** A missing job, a missing identifier, `0` and `""` are rejected, and nothing is written. */
  lemma SaveRejectsInvalid(stored: Stored, job: Option<Job>, now: string, readFails: bool, writeFails: bool)
    requires job.None? || job.value.id in {None, Some(Num(0)), Some(Str(""))}
    ensures Save(stored, job, now, readFails, writeFails) == Step(stored, Rejected(InvalidJobData))
  {
  }

  /** An entry with the same identifier makes the call report `isExisting` and write nothing. */
  lemma SaveExistingWritesNothing(stored: Stored, job: Option<Job>, now: string, readFails: bool, writeFails: bool)
    requires IsValidJob(job) && Contains(stored, job.value.id, readFails)
    ensures Save(stored, job, now, readFails, writeFails)
            == Step(stored, Resolved(SaveReply(true, AlreadyBookmarked, true)))
  {
  }

  /**
   * A new job is appended: the sequence grows by one, the earlier entries
   * stay where they were, and the last entry is the job stamped with `now`.
   */
  lemma SaveAppends(stored: Stored, job: Option<Job>, now: string)
    requires IsValidJob(job) && !Contains(stored, job.value.id, false)
    ensures var after := Save(stored, job, now, false, false);
            && after.out == Resolved(SaveReply(true, BookmarkedSuccessfully, false))
            && after.stored.Some?
            && |after.stored.value| == |Read(stored, false)| + 1
            && after.stored.value[..|Read(stored, false)|] == Read(stored, false)
            && after.stored.value[|Read(stored, false)|] == Bookmark(job.value, now)
  {
    var bs := Read(stored, false);
    assert (bs + [Bookmark(job.value, now)])[..|bs|] == bs;
  }

  /**
   * The call rejects exactly when the job is invalid, or when it is new and
   * the write fails; an existing entry is reported even if writing would fail.
   */
  lemma SaveRejectsExactly(stored: Stored, job: Option<Job>, now: string, readFails: bool, writeFails: bool)
    ensures Save(stored, job, now, readFails, writeFails).out.Rejected?
            <==> !IsValidJob(job) || (!Contains(stored, job.value.id, readFails) && writeFails)
  {
  }

  /** A failed write rejects the call and leaves the persisted value as it was. */
  lemma SaveWriteFailureKeepsStore(stored: Stored, job: Option<Job>, now: string, readFails: bool)
    ensures Save(stored, job, now, readFails, true).stored == stored
  {
  }

  /**
   * `getBookmarks` swallows a read failure and yields `[]`, so a save that
   * cannot read the store replaces whatever was stored by the one new entry.
   */
  lemma SaveAfterFailedReadOverwrites(stored: Stored, job: Option<Job>, now: string)
    requires IsValidJob(job)
    ensures Save(stored, job, now, true, false).stored == Some([Bookmark(job.value, now)])
  {
    assert [] + [Bookmark(job.value, now)] == [Bookmark(job.value, now)];
  }

  lemma SavePreservesInvariant(stored: Stored, job: Option<Job>, now: string, readFails: bool, writeFails: bool)
    requires Invariant(stored)
    ensures Invariant(Save(stored, job, now, readFails, writeFails).stored)
  {
    if IsValidJob(job) && !Contains(stored, job.value.id, readFails) && !writeFails {
      var bs := Read(stored, readFails);
      var after := bs + [Bookmark(job.value, now)];
      forall i, j | 0 <= i < j < |after| ensures after[i].job.id != after[j].job.id {
        if j == |bs| {
          assert after[i] == bs[i];
        }
      }
    }
  }

  /** After a save without storage faults the job is bookmarked, whether it was new or not. */
  lemma SaveThenContains(stored: Stored, job: Option<Job>, now: string)
    requires IsValidJob(job)
    ensures Contains(Save(stored, job, now, false, false).stored, job.value.id, false)
  {
    var bs := Read(stored, false);
    if !HasId(bs, job.value.id) {
      var after := bs + [Bookmark(job.value, now)];
      assert after[|bs|].job.id == job.value.id;
    }
  }

  /**
   * Saving the same job twice: the second call reports `isExisting`, writes
   * nothing, and exactly one entry carries the job's identifier.
   */
  lemma SaveTwiceKeepsOne(stored: Stored, job: Option<Job>, first: string, second: string)
    requires Invariant(stored) && IsValidJob(job)
    ensures var once := Save(stored, job, first, false, false);
            var twice := Save(once.stored, job, second, false, false);
            && twice == Step(once.stored, Resolved(SaveReply(true, AlreadyBookmarked, true)))
            && Occurrences(Read(twice.stored, false), job.value.id) == 1
  {
    var once := Save(stored, job, first, false, false);
    SaveThenContains(stored, job, first);
    SavePreservesInvariant(stored, job, first, false, false);
    DistinctOccursOnce(Read(once.stored, false), job.value.id);
  }

  // ---------------------------------------------------------------------------
  // removeBookmark

  /** A missing identifier, `0` and `""` are rejected, and nothing is written. */
  lemma RemoveRejectsInvalid(stored: Stored, jobId: Option<JobId>, readFails: bool, writeFails: bool)
    requires jobId in {None, Some(Num(0)), Some(Str(""))}
    ensures Remove(stored, jobId, readFails, writeFails) == Step(stored, Rejected(JobIdRequired))
  {
  }

  /** An absent identifier gives a failure result, not a rejection, and nothing is written. */
  lemma RemoveAbsentWritesNothing(stored: Stored, jobId: Option<JobId>, readFails: bool, writeFails: bool)
    requires IsValidId(jobId) && !Contains(stored, jobId, readFails)
    ensures Remove(stored, jobId, readFails, writeFails) == Step(stored, Resolved(Reply(false, BookmarkNotFound)))
  {
  }

  /**
   * A present identifier is filtered out: no entry has it afterwards, every
   * other entry is kept in its order, and with distinct identifiers the
   * sequence is one shorter.
   */
  lemma RemovePresent(stored: Stored, jobId: Option<JobId>)
    requires IsValidId(jobId) && Contains(stored, jobId, false)
    ensures var after := Remove(stored, jobId, false, false);
            var before := Read(stored, false);
            && after.out == Resolved(Reply(true, RemovedSuccessfully))
            && !Contains(after.stored, jobId, false)
            && Seqs.IsSubsequence(Read(after.stored, false), before)
            && (forall k :: 0 <= k < |before| && before[k].job.id != jobId ==> before[k] in Read(after.stored, false))
            && (DistinctIds(before) ==> |Read(after.stored, false)| == |before| - 1)
  {
    var before := Read(stored, false);
    WithoutSpec(before, jobId);
    if DistinctIds(before) {
      WithoutDropsOne(before, jobId);
    }
  }

  lemma RemovePreservesInvariant(stored: Stored, jobId: Option<JobId>, readFails: bool, writeFails: bool)
    requires Invariant(stored)
    ensures Invariant(Remove(stored, jobId, readFails, writeFails).stored)
  {
    var bs := Read(stored, readFails);
    if IsValidId(jobId) && HasId(bs, jobId) && !writeFails {
      WithoutKeepsDistinct(bs, jobId);
      var after := Without(bs, jobId);
      forall i | 0 <= i < |after| ensures IsValidId(after[i].job.id) {
        assert after[i] in bs;
      }
    }
  }

  // ---------------------------------------------------------------------------
  // clearBookmarks

  /** After a successful clear the store reads as empty. */
  lemma ClearThenRead(stored: Stored)
    ensures Clear(stored, false).out.Resolved?
    ensures Read(Clear(stored, false).stored, false) == []
  {
  }

  /** `clearBookmarks` writes `[]` or nothing, so it keeps the invariant. */
  lemma ClearPreservesInvariant(stored: Stored, writeFails: bool)
    requires Invariant(stored)
    ensures Invariant(Clear(stored, writeFails).stored)
  {
  }

  // ---------------------------------------------------------------------------
  // A walk through the store

  /**
   * Starting from an empty store: saving job 1 adds it, saving it again
   * reports it as existing, the store then holds one entry, removing `"1"`
   * finds nothing because `"1"` is not `1`, removing `1` succeeds, and the
   * store reads as empty again.
   */
  lemma Walkthrough(job: Job, t1: string, t2: string)
    requires job.id == Some(Num(1))
    ensures var s1 := Save(Some([]), Some(job), t1, false, false);
            var s2 := Save(s1.stored, Some(job), t2, false, false);
            var s3 := Remove(s2.stored, Some(Str("1")), false, false);
            var s4 := Remove(s3.stored, Some(Num(1)), false, false);
            && s1.out == Resolved(SaveReply(true, BookmarkedSuccessfully, false))
            && s2.out == Resolved(SaveReply(true, AlreadyBookmarked, true))
            && |Read(s2.stored, false)| == 1
            && s3 == Step(s2.stored, Resolved(Reply(false, BookmarkNotFound)))
            && s4.out == Resolved(Reply(true, RemovedSuccessfully))
            && Read(s4.stored, false) == []
  {
    assert IsValidJob(Some(job));
    assert [] + [Bookmark(job, t1)] == [Bookmark(job, t1)];
    var s1 := Save(Some([]), Some(job), t1, false, false);
    assert s1.stored == Some([Bookmark(job, t1)]);
    assert [Bookmark(job, t1)][0].job.id == Some(Num(1));
    var s4 := Remove(s1.stored, Some(Num(1)), false, false);
    WithoutDropsOne([Bookmark(job, t1)], Some(Num(1)));
  }
}
