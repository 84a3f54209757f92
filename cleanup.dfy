/** The backend's background sweep (`cleanup_old_files` in backend/main.py):
    every pass deletes the regular files of the upload and output directories
    that are more than an hour old. Times are integers in microseconds, the
    resolution of Python's `datetime`; the clock and the directory listings are
    parameters. */
module Cleanup {
  import opened Common

  /** `timedelta(hours=1)` in microseconds. */
  const OneHour: int := 3_600_000_000

  /** One result of `directory.glob("*")`: its name, whether `is_file()` holds,
      and its modification time. */
  datatype DirEntry = DirEntry(name: string, isFile: bool, mtime: int)

  /** A regular file strictly older than one hour at time `now` is deleted; one
      exactly an hour old, and any entry that is not a regular file, stays. */
  predicate Expired(now: int, e: DirEntry)
  {
    e.isFile && now - e.mtime > OneHour
  }

  /** The entries a pass at time `now` leaves, in listing order. */
  function Survivors(entries: seq<DirEntry>, now: int): seq<DirEntry>
  {
    Keep(entries, (e: DirEntry) => !Expired(now, e))
  }

  /** The entries a pass at time `now` deletes, in listing order. */
  function Deleted(entries: seq<DirEntry>, now: int): seq<DirEntry>
  {
    Keep(entries, (e: DirEntry) => Expired(now, e))
  }

  /** The inner loop of one pass over one directory: visits the entries in
      order and unlinks each expired file. */
  method SweepDirectory(entries: seq<DirEntry>, now: int) returns (kept: seq<DirEntry>, unlinked: seq<DirEntry>)
    ensures kept == Survivors(entries, now)
    ensures unlinked == Deleted(entries, now)
  {
    kept, unlinked := [], [];
    var i := 0;
    while i < |entries|
      invariant 0 <= i <= |entries|
      invariant kept == Survivors(entries[..i], now)
      invariant unlinked == Deleted(entries[..i], now)
    {
      var e := entries[i];
      assert entries[..i + 1][..i] == entries[..i];
      if e.isFile && now - e.mtime > OneHour {
        unlinked := unlinked + [e];
      } else {
        kept := kept + [e];
      }
      i := i + 1;
    }
    assert entries[..i] == entries;
  }

  /** A pass keeps exactly the entries that are not expired. */
  lemma SurvivorsExact(entries: seq<DirEntry>, now: int, e: DirEntry)
    ensures e in Survivors(entries, now) <==> e in entries && !Expired(now, e)
    ensures e in Deleted(entries, now) <==> e in entries && Expired(now, e)
  {
    KeepMembers(entries, (d: DirEntry) => !Expired(now, d), e);
    KeepMembers(entries, (d: DirEntry) => Expired(now, d), e);
  }

  /** A pass loses nothing and invents nothing: the kept and the deleted entries
      together are the listing. */
  lemma {:induction false} SweepPartitions(entries: seq<DirEntry>, now: int)
    ensures multiset(Survivors(entries, now)) + multiset(Deleted(entries, now)) == multiset(entries)
    decreases |entries|
  {
    if entries != [] {
      var init := entries[..|entries| - 1];
      var last := entries[|entries| - 1];
      SweepPartitions(init, now);
      assert entries == init + [last];
      KeepAppend(init, [last], (e: DirEntry) => !Expired(now, e));
      KeepAppend(init, [last], (e: DirEntry) => Expired(now, e));
      if Expired(now, last) {
        assert Survivors(entries, now) == Survivors(init, now);
        assert Deleted(entries, now) == Deleted(init, now) + [last];
      } else {
        assert Survivors(entries, now) == Survivors(init, now) + [last];
        assert Deleted(entries, now) == Deleted(init, now);
      }
      assert multiset(entries) == multiset(init) + multiset{last};
    }
  }

  /** A second pass at the same time deletes nothing more. */
  lemma SweepIdempotent(entries: seq<DirEntry>, now: int)
    ensures Survivors(Survivors(entries, now), now) == Survivors(entries, now)
  {
    var kept := Survivors(entries, now);
    forall i | 0 <= i < |kept|
      ensures !Expired(now, kept[i])
    {
      SurvivorsExact(entries, now, kept[i]);
    }
    KeepAll(kept, (e: DirEntry) => !Expired(now, e));
  }

  /** A pass at a later time subsumes an earlier one: sweeping at `now` and then
      at `later` leaves what a single sweep at `later` leaves. */
  lemma {:induction false} LaterSweepSubsumes(entries: seq<DirEntry>, now: int, later: int)
    requires now <= later
    ensures Survivors(Survivors(entries, now), later) == Survivors(entries, later)
    decreases |entries|
  {
    if entries != [] {
      var init := entries[..|entries| - 1];
      var last := entries[|entries| - 1];
      LaterSweepSubsumes(init, now, later);
      KeepAppend(Survivors(init, now),
                 if !Expired(now, last) then [last] else [],
                 (e: DirEntry) => !Expired(later, e));
    }
  }

  /** The two directories the sweep visits. */
  class Storage {
    var uploads: seq<DirEntry>
    var outputs: seq<DirEntry>

    constructor (uploads: seq<DirEntry>, outputs: seq<DirEntry>)
      ensures this.uploads == uploads && this.outputs == outputs
    {
      this.uploads := uploads;
      this.outputs := outputs;
    }

    /** No regular file in either directory is more than an hour old at `now`. */
    predicate NoneExpired(now: int)
      reads this
    {
      (forall i :: 0 <= i < |uploads| ==> !Expired(now, uploads[i]))
      && (forall i :: 0 <= i < |outputs| ==> !Expired(now, outputs[i]))
    }

    /** One pass of the `while True` loop at time `now`: the upload directory,
        then the output directory. */
    method CleanupPass(now: int)
      modifies this
      ensures uploads == Survivors(old(uploads), now)
      ensures outputs == Survivors(old(outputs), now)
      ensures NoneExpired(now)
    {
      var unlinkedUploads, unlinkedOutputs;
      uploads, unlinkedUploads := SweepDirectory(uploads, now);
      outputs, unlinkedOutputs := SweepDirectory(outputs, now);
      forall i | 0 <= i < |uploads|
        ensures !Expired(now, uploads[i])
      {
        SurvivorsExact(old(uploads), now, uploads[i]);
      }
      forall i | 0 <= i < |outputs|
        ensures !Expired(now, outputs[i])
      {
        SurvivorsExact(old(outputs), now, outputs[i]);
      }
    }
  }
}
