/**
  One process's view of one file of the disk cache. Every call moves the shared
  system by steps of the protocol only, and before every call the other
  processes, in requests under either protocol of access, may have moved as they
  please. `isDap4` is the protocol of access of this process's request.
*/
module DiskCache {
  import opened Common
  import opened DiskProtocol

  datatype Lock = NoLock | Shared | Exclusive

  /** Outcomes the operating system decides: a seek, a read, a write, a removal. */
  datatype Io = Io(seekOk: bool, got: nat, written: int, unlinkOk: bool)

  datatype CacheError = CannotRemoveCorruptFile

  lemma KeptByOthers(e: Entry, s: System, t: System, p: Pid)
    requires Interfered(e, s, t, p)
    ensures Inv(e, t) && At(t, p) == At(s, p)
  {
  }

  class HDF5DiskCache {
    const entry: Entry              // what belongs under this name
    const pid: Pid
    var file: Option<seq<byte>>
    var lock: Lock
    var fpos: nat
    ghost var sys: System           // all processes, this one included

    constructor (entry: Entry, pid: Pid)
      ensures this.entry == entry && this.pid == pid && AtRest()
    {
      this.entry, this.pid := entry, pid;
      file, lock, fpos := None, NoLock, 0;
      sys := System(None, {}, None, map[]);
    }

    ghost function Phase(): Phase
      reads this
    {
      At(sys, pid)
    }

    /** The fields are this process's part of a system in which the invariant of the protocol holds. */
    ghost predicate Sound()
      reads this
    {
      && sys.file == file && Inv(entry, sys)
      && (lock == Shared <==> Reads(Phase()))
      && (lock == Exclusive <==> Writes(Phase()) || Phase().Unlinked?)
    }

    /** Between two requests. */
    ghost predicate AtRest()
      reads this
    {
      Sound() && (Phase().Idle? || Phase().Missed? || Phase().Hit? || Phase().Done?)
    }

    /** After a miss of a request under this protocol, the lock released. */
    ghost predicate HasMissed(isDap4: bool)
      reads this
    {
      Sound() && Phase() == Missed(isDap4)
    }

    /** The others have moved. A process that waits for its lock goes on when no writer, or nobody at all, is left. */
    method Interfere(noWriter: bool, noReader: bool)
      requires Sound() && (noWriter || noReader ==> lock == NoLock)
      modifies this`file, this`sys
      ensures Sound() && Interfered(entry, old(sys), sys, pid)
      ensures (noWriter ==> sys.exclusive == None) && (noReader ==> sys.shared == {})
      ensures lock != NoLock && !Phase().Unlinked? ==> file == old(file)
    {
      LocksOf(sys, pid);
      if lock == NoLock {
        var f: Option<seq<byte>> :| f == None || Left(entry, f.value);
        file := f;
        ghost var alone := AloneWith(entry, sys, pid, f);
        ghost var t :| Interfered(entry, sys, t, pid) && t.file == f
                       && (noWriter ==> t.exclusive == None) && (noReader ==> t.shared == {});
        assert Interfered(entry, sys, t, pid);
        KeptByOthers(entry, sys, t, pid);
        sys := t;
      }
    }

    /** A step of the protocol by this process. */
    ghost method Go(t: System)
      requires Inv(entry, sys) && Step(entry, sys, t, pid)
      modifies this`sys
      ensures sys == t && Inv(entry, t)
    {
      StepKeepsInv(entry, sys, t, pid);
      sys := t;
    }

    /** The next request begins: whatever the last one came to is over. */
    ghost method Begin()
      requires AtRest()
      modifies this`sys
      ensures Sound() && Phase() == Idle && sys.file == old(sys.file)
      ensures sys.exclusive == old(sys.exclusive)
    {
      if Phase().Missed? {
        Go(To(sys, pid, Done));
      }
      if !Phase().Idle? {
        Go(To(sys, pid, Idle));
      }
    }

    method GetReadLock(ghost isDap4: bool) returns (ok: bool)
      requires AtRest()
      modifies this
      ensures Sound() && Phase() == if ok then Opened(isDap4) else Missed(isDap4)
      ensures (ok <==> file.Some?) && (ok ==> fpos == 0)
    {
      Interfere(true, false);
      Begin();
      ok := file.Some?;
      ghost var t := if ok then To(sys.(shared := sys.shared + {pid}), pid, Opened(isDap4)) else To(sys, pid, Missed(isDap4));
      assert LockTried(sys, t, pid, isDap4);
      Go(t);
      if ok {
        lock, fpos := Shared, 0;
      }
    }

    method UnlockAndClose()
      requires Sound() && lock != NoLock
      requires Phase().Rejected? || Phase().Fetched? || Phase().Unlinked?
               || (Phase().Written? && Phase().ret == entry.Of(Phase().isDap4).total)
      modifies this`lock, this`sys
      ensures Sound() && lock == NoLock && Phase() == Closed(old(Phase()))
    {
      Go(if Phase().Unlinked? then To(sys, pid, Done) else To(Release(sys, pid), pid, Closed(Phase())));
      lock := NoLock;
    }

    /** The file goes only if nobody has it locked. */
    method PurgeFile()
      requires Sound() && Phase().Purging?
      modifies this`file, this`sys
      ensures HasMissed(old(Phase()).isDap4)
    {
      ghost var missed := Missed(Phase().isDap4);
      if * {
        Interfere(true, true);
        Go(To(sys.(file := None), pid, missed));
        file := None;
      } else {
        Interfere(false, false);
        Go(To(sys, pid, missed));
      }
    }

    method IsValid(expectedFileSize: nat) returns (ok: bool)
      requires Sound() && Phase().Opened? && expectedFileSize == |entry.Of(Phase().isDap4).image|
      modifies this`file, this`sys
      ensures Sound() && Phase() == if ok then Validated(old(Phase()).isDap4) else Rejected(old(Phase()).isDap4)
      ensures file == old(file) && file.Some? && (ok <==> |file.value| == expectedFileSize)
    {
      ghost var d := Phase().isDap4;
      LocksOf(sys, pid);
      Interfere(false, false);
      ok := |file.value| == expectedFileSize;
      Go(To(sys, pid, if ok then Validated(d) else Rejected(d)));
    }

    /**
      It is a hit exactly if the file that is found has the expected size. A hit
      keeps the shared lock on it; every other outcome has released it.
    */
    method GetDataFromCache(expectedFileSize: nat, ghost isDap4: bool) returns (ok: bool, ghost found: Option<seq<byte>>)
      requires AtRest() && expectedFileSize == |entry.Of(isDap4).image|
      modifies this
      ensures ok ==> Sound() && Phase() == Validated(isDap4) && lock == Shared && fpos == 0
      ensures ok <==> found.Some? && |found.value| == expectedFileSize
      ensures ok ==> file == found && Hittable(entry, isDap4, found.value)
      ensures !ok ==> HasMissed(isDap4) && lock == NoLock
    {
      ok := GetReadLock(isDap4);
      found := file;
      if !ok {
        return;
      }
      ok := IsValid(expectedFileSize);
      if !ok {
        UnlockAndClose();
        PurgeFile();
      } else {
        assert PhaseKnows(entry, sys, Phase());
      }
    }

    method Seek(pos: nat, seekOk: bool) returns (ok: bool)
      requires Sound() && Phase().Validated?
      modifies this`fpos, this`sys
      ensures ok == seekOk && (ok ==> fpos == pos)
      ensures Sound() && Phase() == if ok then old(Phase()) else Rejected(old(Phase()).isDap4)
    {
      ok := seekOk;
      if ok {
        fpos := pos;
      } else {
        Go(To(sys, pid, Rejected(Phase().isDap4)));
      }
    }

    /** At most `total` bytes of the file from the file position on; fewer only if the system says so. */
    method Read(total: nat, got: nat) returns (bytes: seq<byte>)
      requires Sound() && Phase().Validated? && file.Some? && fpos + total <= |file.value|
      modifies this`file, this`sys
      ensures Sound() && file == old(file) && Phase() == Fetched(old(Phase()).isDap4, file.value, fpos, fpos + total, bytes)
      ensures |bytes| == (if total <= got then total else got) && bytes == file.value[fpos..fpos + |bytes|]
    {
      Interfere(false, false);
      var n := if total <= got then total else got;
      bytes := file.value[fpos..fpos + n];
      ghost var t := To(sys, pid, Fetched(Phase().isDap4, file.value, fpos, fpos + total, bytes));
      assert WindowRead(sys, t, pid, fpos, fpos + n, fpos + total);
      Go(t);
    }

    /** Created together with its exclusive lock, only if there is no such file. */
    method CreateAndLock(ghost isDap4: bool, ghost payload: seq<byte>) returns (ok: bool)
      requires HasMissed(isDap4) && DiskProtocol.Payload(entry.Of(isDap4), payload)
      modifies this
      ensures Sound() && Phase() == if ok then Writing(isDap4, payload, 0) else Done
      ensures if ok then file == Some([]) else file.Some?
    {
      Interfere(false, false);
      ok := file.None?;
      if ok {
        Go(Created(sys, pid, isDap4, payload));
        file, lock, fpos := Some([]), Exclusive, 0;
      } else {
        Go(To(sys, pid, Done));
      }
    }

    /** One call that writes as much as the system lets it; the result is what it returns. */
    method WriteAll(buf: seq<byte>, written: int, ghost isDap4: bool) returns (retVal: int)
      requires Sound() && Phase() == Writing(isDap4, buf, 0)
      modifies this`file, this`sys
      ensures Sound() && Phase().Written? && Phase().isDap4 == isDap4 && Phase().payload == buf && Phase().ret == retVal
      ensures retVal == (if 0 <= written <= |buf| then written else -1)
      ensures retVal == |buf| ==> file == Some(buf)
    {
      LocksOf(sys, pid);
      Interfere(false, false);
      assert PhaseKnows(entry, sys, Phase());
      retVal := if 0 <= written <= |buf| then written else -1;
      var n := if retVal < 0 then 0 else retVal;
      file := Some(buf[..n]);
      Go(To(sys.(file := file), pid, Writing(isDap4, buf, n)));
      Go(To(sys, pid, Written(isDap4, buf, n, retVal)));
      assert n == |buf| ==> buf[..n] == buf;
    }

    /** Removes the file after a short write. */
    method Unlink(unlinkOk: bool)
      requires Sound() && Phase().Written? && Phase().ret != entry.Of(Phase().isDap4).total
      modifies this`file, this`sys
      ensures Sound() && lock == Exclusive && Phase() == if unlinkOk then Unlinked else Stuck
    {
      LocksOf(sys, pid);
      Interfere(false, false);
      if unlinkOk {
        Go(To(Release(sys, pid).(file := None), pid, Unlinked));
        file := None;
      } else {
        Go(To(sys, pid, Stuck));
      }
    }

    /**
      Every outcome that is not an exception has released the lock. Success has
      left exactly `buf` in the file; a failed removal leaves the lock held.
    */
    method WriteCachedData2(buf: seq<byte>, io: Io, ghost isDap4: bool) returns (r: Result<bool, CacheError>)
      requires HasMissed(isDap4) && DiskProtocol.Payload(entry.Of(isDap4), buf)
      modifies this
      ensures r.Ok? ==> AtRest() && lock == NoLock
      ensures r == Ok(true) ==> file == Some(buf)
      ensures r.Err? ==> Sound() && Phase() == Stuck && lock == Exclusive && io.written != |buf| && !io.unlinkOk
      ensures r == Ok(false) && io.written == |buf| ==> file.Some?
    {
      var created := CreateAndLock(isDap4, buf);
      if !created {
        return Ok(false);
      }
      var retVal := WriteAll(buf, io.written, isDap4);
      var done := false;
      if retVal != |buf| {
        Unlink(io.unlinkOk);
        if !io.unlinkOk {
          return Err(CannotRemoveCorruptFile);
        }
      } else {
        done := true;
      }
      UnlockAndClose();
      r := Ok(done);
    }
  }
}
