/**
 The checkpoint file and its Temporary-Delete-Commit protocol (storage/checkpoint.go), with a crash
 possible between any two file operations and in the middle of writing the temporary file.
 */
module CheckpointFile {
  import opened Options
  import opened Bytes

  /** `checkpoint_new.tmp`, `checkpoint_latest.dat`, and other files of the directory by name. */
  datatype Dir = Dir(tmp: Option<seq<byte>>, latest: Option<seq<byte>>, others: set<string>)

  /**
   Where SaveCheckpoint stops. `InTemp(k)` leaves the first `k` bytes of the temporary file, and
   `InCleanup(done)` stops when the last step has dealt with the names in `done`.
   */
  datatype Crash =
    InTemp(k: nat) | AfterTemp | AfterDelete | AfterRename | InCleanup(done: set<string>) | NoCrash

  predicate StartsWith(name: string, prefix: string) {
    |prefix| <= |name| && name[..|prefix|] == prefix
  }

  /** Old checkpoints and state files, which the last step removes. */
  predicate Stale(name: string) {
    name != "state_latest.dat.gz" && (StartsWith(name, "checkpoint_") || StartsWith(name, "state_"))
  }

  function Prefix(data: seq<byte>, k: nat): seq<byte> {
    if k <= |data| then data[..k] else data
  }

  function Cleaned(others: set<string>, done: set<string>): set<string> {
    set n | n in others && !(n in done && Stale(n))
  }

  /** The directory that a crash at the given point leaves behind. */
  function SaveUntil(d: Dir, data: seq<byte>, crash: Crash): Dir {
    match crash
    case InTemp(k) => d.(tmp := Some(Prefix(data, k)))
    case AfterTemp => d.(tmp := Some(data))
    case AfterDelete => d.(tmp := Some(data), latest := None)
    case AfterRename => d.(tmp := None, latest := Some(data))
    case InCleanup(done) => Dir(None, Some(data), Cleaned(d.others, done))
    case NoCrash => Dir(None, Some(data), Cleaned(d.others, d.others))
  }

  /** recoverCheckpointTransaction. */
  function Recover(d: Dir): Dir {
    if d.tmp.None? then d
    else if d.latest.None? then d.(tmp := None, latest := d.tmp)
    else d.(tmp := None)
  }

  predicate ReachedDelete(crash: Crash) {
    !crash.InTemp? && !crash.AfterTemp?
  }

  class CheckpointDir {
    var tmp: Option<seq<byte>>
    var latest: Option<seq<byte>>
    var others: set<string>

    ghost function Content(): Dir
      reads this
    {
      Dir(tmp, latest, others)
    }

    constructor ()
      ensures Content() == Dir(None, None, {})
    {
      tmp, latest, others := None, None, {};
    }

    /** SaveCheckpoint, stopped at the given point. */
    method SaveCheckpoint(data: seq<byte>, crash: Crash)
      modifies this
      ensures Content() == SaveUntil(old(Content()), data, crash)
    {
      if crash.InTemp? {
        tmp := Some(Prefix(data, crash.k));
        return;
      }
      tmp := Some(data);
      if crash.AfterTemp? {
        return;
      }
      if latest.Some? {
        latest := None;
      }
      if crash.AfterDelete? {
        return;
      }
      latest, tmp := tmp, None;
      if crash.AfterRename? {
        return;
      }
      var pending := if crash.InCleanup? then others * crash.done else others;
      ghost var all := pending;
      while pending != {}
        invariant pending <= all && pending <= others && tmp == None && latest == Some(data)
        invariant others == Cleaned(old(others), all - pending)
        decreases pending
      {
        var name :| name in pending;
        if Stale(name) {
          others := others - {name};
        }
        pending := pending - {name};
      }
    }

    /** recoverCheckpointTransaction, or nothing when it is interrupted before its one file operation. */
    method RecoverTransaction(interrupted: bool)
      modifies this
      ensures Content() == if interrupted then old(Content()) else Recover(old(Content()))
    {
      if interrupted {
        return;
      }
      if tmp.Some? {
        if latest.None? {
          latest, tmp := tmp, None;
        } else {
          tmp := None;
        }
      }
    }
  }

  // ---- crash safety ----

  /**
   After a crash anywhere and recovery, the latest file is wholly old or wholly new, new exactly when
   the delete step was reached, and there is no temporary file.
   */
  lemma CrashSafe(d: Dir, data: seq<byte>, crash: Crash)
    requires d.latest.Some?
    ensures Recover(SaveUntil(d, data, crash)).tmp == None
    ensures Recover(SaveUntil(d, data, crash)).latest == if ReachedDelete(crash) then Some(data) else d.latest
  {
  }

  /** Which other files a completed save leaves: the state file, and whatever is named otherwise. */
  lemma SaveKeepsFile(d: Dir, data: seq<byte>, name: string)
    ensures name in SaveUntil(d, data, NoCrash).others <==>
            && name in d.others
            && (name == "state_latest.dat.gz"
                || !((|name| >= 11 && name[..11] == "checkpoint_") || (|name| >= 6 && name[..6] == "state_")))
  {
  }

  /** A stop while writing leaves a prefix of the data in the temporary file, and all else as it was. */
  lemma TornTemp(d: Dir, data: seq<byte>, k: nat)
    ensures
      var r := SaveUntil(d, data, InTemp(k));
      && r.latest == d.latest && r.others == d.others && r.tmp.Some? && r.tmp.value <= data
      && |r.tmp.value| == if k < |data| then k else |data|
  {
  }

  /** The first checkpoint ever saved has no such guarantee: a torn temporary file becomes the latest. */
  lemma CrashSafeIff(d: Dir, data: seq<byte>)
    ensures (forall crash :: Recover(SaveUntil(d, data, crash)).latest in {d.latest, Some(data)})
            <==> d.latest.Some? || data == []
  {
    if d.latest.None? && data != [] {
      var r := Recover(SaveUntil(d, data, InTemp(0)));
      assert r.latest == Some([]);
    }
    if d.latest.Some? || data == [] {
      forall crash ensures Recover(SaveUntil(d, data, crash)).latest in {d.latest, Some(data)} {
        assert crash.InTemp? && data == [] ==> Prefix(data, crash.k) == [];
      }
    }
  }

  /** One save, stopped somewhere, then a restart whose recovery may be interrupted several times. */
  datatype Attempt = Attempt(data: seq<byte>, crash: Crash, interruptions: seq<bool>)

  /** The directory after some recovery runs, those marked true having been interrupted. */
  ghost function Restarting(d: Dir, interruptions: seq<bool>): Dir {
    if interruptions == [] then d
    else
      var i := |interruptions| - 1;
      var before := Restarting(d, interruptions[..i]);
      if interruptions[i] then before else Recover(before)
  }

  /** A restart ends with a recovery that is not interrupted. */
  ghost function Restart(d: Dir, interruptions: seq<bool>): Dir {
    Recover(Restarting(d, interruptions))
  }

  lemma {:induction false} InterruptionsHarmless(d: Dir, interruptions: seq<bool>)
    ensures Restarting(d, interruptions) in {d, Recover(d)} && Restart(d, interruptions) == Recover(d)
  {
    if interruptions != [] {
      InterruptionsHarmless(d, interruptions[..|interruptions| - 1]);
    }
  }

  ghost function Run(d: Dir, attempts: seq<Attempt>): Dir {
    if attempts == [] then d
    else
      var i := |attempts| - 1;
      Restart(SaveUntil(Run(d, attempts[..i]), attempts[i].data, attempts[i].crash), attempts[i].interruptions)
  }

  /** The last checkpoint of the run whose delete step was reached. */
  ghost function Durable(start: seq<byte>, attempts: seq<Attempt>): seq<byte> {
    if attempts == [] then start
    else
      var i := |attempts| - 1;
      if ReachedDelete(attempts[i].crash) then attempts[i].data else Durable(start, attempts[..i])
  }

  /** Over any run of crashing saves and restarts there is exactly one whole checkpoint, the durable one. */
  lemma {:induction false} RunsKeepOneCheckpoint(d: Dir, start: seq<byte>, attempts: seq<Attempt>)
    requires d.latest == Some(start) && d.tmp == None
    ensures Run(d, attempts).latest == Some(Durable(start, attempts)) && Run(d, attempts).tmp == None
  {
    if attempts != [] {
      var i := |attempts| - 1;
      var before := Run(d, attempts[..i]);
      RunsKeepOneCheckpoint(d, start, attempts[..i]);
      InterruptionsHarmless(SaveUntil(before, attempts[i].data, attempts[i].crash), attempts[i].interruptions);
      CrashSafe(before, attempts[i].data, attempts[i].crash);
    }
  }
}
