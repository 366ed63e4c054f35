/**
  The disk cache as a protocol between any number of processes that share one
  cache file. A step is one call that a process makes: acquire or release a
  lock, check the size, read, write, remove. The base class of the cache is
  assumed to give shared and exclusive file locks, to create a file together
  with its exclusive lock, and to remove a file only while nobody else has it
  locked.

  The name of a file does not say which protocol it was written for, so requests
  under DAP2 and DAP4 share it even where they expect different bytes in it.
*/
module DiskProtocol {
  import opened Common

  type Pid = nat
  type Bytes = seq<byte>

  /** What one protocol keeps under the name: the image its readers expect and the number of bytes its writers write. */
  datatype Content = Content(image: Bytes, total: nat)

  /** What belongs under the name, by protocol. */
  datatype Entry = Entry(dap2: Content, dap4: Content)
  {
    function Of(isDap4: bool): Content { if isDap4 then dap4 else dap2 }
  }

  /** Both protocols keep the same. */
  predicate Agree(e: Entry)
  {
    e.dap2 == e.dap4
  }

  /** What a writer may write: the image, and whatever follows it if it writes more. */
  ghost predicate Payload(c: Content, b: Bytes)
  {
    |b| == c.total && c.image <= b
  }

  /** What a write can leave behind at any moment: a part of the image, or all of it and a part of what follows. */
  predicate Begun(c: Content, b: Bytes)
  {
    |b| <= c.total && (b <= c.image || c.image <= b)
  }

  /** ... of either protocol. */
  predicate Left(e: Entry, b: Bytes)
  {
    Begun(e.dap2, b) || Begun(e.dap4, b)
  }

  /** A file that a reader takes for its image: of the right size, whoever has left it. */
  predicate Hittable(e: Entry, isDap4: bool, b: Bytes)
  {
    Left(e, b) && |b| == |e.Of(isDap4).image|
  }

  /**
    How far a process is in its current request, and the protocol of the
    request. Locks are held from Opened to Rejected and from Writing to Stuck.
  */
  datatype Phase =
    | Idle
    | Opened(isDap4: bool)                       // has the shared lock
    | Validated(isDap4: bool)                    // the size check passed: a hit
      // a window of the file, which held `seen`, was read, perhaps short
    | Fetched(isDap4: bool, seen: Bytes, lo: nat, hi: nat, bytes: Bytes)
    | Rejected(isDap4: bool)                     // wrong size or failed seek, lock still held
    | Purging(isDap4: bool)                      // lock released, file to be removed
    | Missed(isDap4: bool)                       // to be read from the data file
      // created and locked, `done` bytes of `payload` written
    | Writing(isDap4: bool, payload: Bytes, done: nat)
      // write returned `ret`: the bytes written, or -1
    | Written(isDap4: bool, payload: Bytes, done: nat, ret: int)
    | Unlinked                                   // removed after a short write, not yet closed
    | Stuck                                      // removal failed: exception with the lock held
      // answered from the cache, in which the file held `seen`
    | Hit(isDap4: bool, seen: Bytes, lo: nat, hi: nat, bytes: Bytes)
    | Done                                       // answered from the data file

  /** The cache file under its name, who holds which lock on it, and every process's phase. */
  datatype System = System(file: Option<Bytes>, shared: set<Pid>, exclusive: Option<Pid>, phase: map<Pid, Phase>)

  function At(s: System, p: Pid): Phase
  {
    if p in s.phase then s.phase[p] else Idle
  }

  function To(s: System, p: Pid, phase: Phase): System
  {
    s.(phase := s.phase[p := phase])
  }

  ghost predicate Unlocked(s: System)
  {
    s.shared == {} && s.exclusive == None
  }

  function Release(s: System, p: Pid): System
  {
    s.(shared := s.shared - {p}, exclusive := if s.exclusive == Some(p) then None else s.exclusive)
  }

  // ----- what a reader does

  ghost predicate GetReadLock(s: System, t: System, p: Pid)
  {
    && At(s, p).Idle?
    && exists d: bool :: LockTried(s, t, p, d)
  }

  ghost predicate LockTried(s: System, t: System, p: Pid, d: bool)
  {
    || t == To(s, p, Missed(d))
    || (s.file.Some? && s.exclusive == None && t == To(s.(shared := s.shared + {p}), p, Opened(d)))
  }

  ghost predicate IsValid(e: Entry, s: System, t: System, p: Pid)
  {
    && At(s, p).Opened? && s.file.Some?
    && var d := At(s, p).isDap4;
       t == To(s, p, if |s.file.value| == |e.Of(d).image| then Validated(d) else Rejected(d))
  }

  /** A failed seek, or a read of some prefix of a window. */
  ghost predicate ReadWindow(s: System, t: System, p: Pid)
  {
    && At(s, p).Validated? && s.file.Some?
    && (t == To(s, p, Rejected(At(s, p).isDap4))
        || exists lo: nat, got: nat, hi: nat :: WindowRead(s, t, p, lo, got, hi))
  }

  ghost predicate WindowRead(s: System, t: System, p: Pid, lo: nat, got: nat, hi: nat)
  {
    && At(s, p).Validated? && s.file.Some? && lo <= got <= hi <= |s.file.value|
    && t == To(s, p, Fetched(At(s, p).isDap4, s.file.value, lo, hi, s.file.value[lo..got]))
  }

  /** Where a process is when its lock is gone. */
  function Closed(phase: Phase): Phase
  {
    match phase
    case Rejected(d) => Purging(d)
    case Fetched(d, seen, lo, hi, bytes) => if lo + |bytes| == hi then Hit(d, seen, lo, hi, bytes) else Purging(d)
    case _ => Done
  }

  ghost predicate UnlockAndClose(s: System, t: System, p: Pid)
  {
    || ((At(s, p).Rejected? || At(s, p).Fetched?) && t == To(Release(s, p), p, Closed(At(s, p))))
    || (At(s, p).Unlinked? && t == To(s, p, Done))
  }

  ghost predicate PurgeFile(s: System, t: System, p: Pid)
  {
    && At(s, p).Purging?
    && var missed := Missed(At(s, p).isDap4);
       (t == To(s, p, missed) || (Unlocked(s) && t == To(s.(file := None), p, missed)))
  }

  // ----- what a writer does

  ghost predicate CreateAndLock(e: Entry, s: System, t: System, p: Pid)
  {
    && At(s, p).Missed?
    && var d := At(s, p).isDap4;
       (t == To(s, p, Done)
        || (s.file.None? && exists payload: Bytes :: Payload(e.Of(d), payload) && t == Created(s, p, d, payload)))
  }

  function Created(s: System, p: Pid, d: bool, payload: Bytes): System
  {
    To(s.(file := Some([]), exclusive := Some(p)), p, Writing(d, payload, 0))
  }

  ghost predicate Write(s: System, t: System, p: Pid)
  {
    && At(s, p).Writing?
    && var d, payload, done := At(s, p).isDap4, At(s, p).payload, At(s, p).done;
       (t == To(s, p, Written(d, payload, done, done)) || t == To(s, p, Written(d, payload, done, -1))
        || exists more: nat {:trigger payload[..more]} ::
             done <= more <= |payload| && t == To(s.(file := Some(payload[..more])), p, Writing(d, payload, more)))
  }

  /** A complete write is unlocked; a short one is removed first, which leaves the lock on a nameless file. */
  ghost predicate FinishWrite(e: Entry, s: System, t: System, p: Pid)
  {
    && At(s, p).Written?
    && if At(s, p).ret == e.Of(At(s, p).isDap4).total then t == To(Release(s, p), p, Done)
       else t == To(s, p, Stuck) || t == To(Release(s, p).(file := None), p, Unlinked)
  }

  // ----- what can happen around them

  /** Some process makes room and evicts the file. */
  ghost predicate Evict(s: System, t: System)
  {
    Unlocked(s) && t == s.(file := None)
  }

  /** A process starts over after an answer. */
  ghost predicate Restart(s: System, t: System, p: Pid)
  {
    (At(s, p).Hit? || At(s, p).Done?) && t == To(s, p, Idle)
  }

  /** A process dies: the system drops its locks, the file stays as it is. */
  ghost predicate Crash(s: System, t: System, p: Pid)
  {
    t == To(Release(s, p), p, Idle)
  }

  ghost predicate Step(e: Entry, s: System, t: System, p: Pid)
  {
    || GetReadLock(s, t, p) || IsValid(e, s, t, p) || ReadWindow(s, t, p) || UnlockAndClose(s, t, p)
    || PurgeFile(s, t, p) || CreateAndLock(e, s, t, p) || Write(s, t, p) || FinishWrite(e, s, t, p)
    || Evict(s, t) || Restart(s, t, p)
  }

  ghost predicate Initial(s: System)
  {
    Unlocked(s) && s.phase == map[]
  }

  /** An interleaving: at each point some process makes a step, or dies if `crashes`. */
  ghost predicate Run(e: Entry, crashes: bool, run: seq<System>)
  {
    && |run| > 0 && Initial(run[0])
    && forall i :: 0 < i < |run| ==> Moves(e, crashes, run[i - 1], run[i])
  }

  ghost predicate Moves(e: Entry, crashes: bool, s: System, t: System)
  {
    exists p: Pid :: Step(e, s, t, p) || (crashes && Crash(s, t, p))
  }

  // ----- invariants

  ghost predicate Reads(phase: Phase)
  {
    phase.Opened? || phase.Validated? || phase.Fetched? || phase.Rejected?
  }

  ghost predicate Writes(phase: Phase)
  {
    phase.Writing? || phase.Written? || phase.Stuck?
  }

  /** Locks are held by exactly the processes inside a read or a write, and never both kinds at once. */
  ghost predicate LocksMatch(s: System)
  {
    && (forall p: Pid :: p in s.shared <==> Reads(At(s, p)))
    && (forall p: Pid :: s.exclusive == Some(p) <==> Writes(At(s, p)))
    && (s.shared == {} || s.exclusive == None)
    && (!Unlocked(s) ==> s.file.Some?)
  }

  /** What a process knows in its phase. */
  ghost predicate PhaseKnows(e: Entry, s: System, phase: Phase)
  {
    match phase
    case Validated(d) => s.file.Some? && Hittable(e, d, s.file.value)
    case Fetched(d, seen, lo, hi, bytes) =>
      Hittable(e, d, seen) && lo <= hi <= |seen| && lo + |bytes| <= hi && bytes == seen[lo..lo + |bytes|]
    case Hit(d, seen, lo, hi, bytes) => Hittable(e, d, seen) && lo <= hi <= |seen| && bytes == seen[lo..hi]
    case Writing(d, payload, done) =>
      Payload(e.Of(d), payload) && done <= |payload| && s.file == Some(payload[..done])
    case Written(d, payload, done, ret) =>
      Payload(e.Of(d), payload) && done <= |payload| && (ret == done || ret == -1) && s.file == Some(payload[..done])
    case _ => true
  }

  ghost predicate Inv(e: Entry, s: System)
  {
    && LocksMatch(s)
    && (s.file.Some? ==> Left(e, s.file.value))
    && forall p: Pid :: PhaseKnows(e, s, At(s, p))
  }

  /** A file as a writer of one of the protocols leaves it in the end. */
  ghost predicate Complete(e: Entry, b: Bytes)
  {
    Payload(e.dap2, b) || Payload(e.dap4, b)
  }

  /** Holds as long as no process dies. */
  ghost predicate CompleteWhenUnlocked(e: Entry, s: System)
  {
    s.exclusive == None && s.file.Some? ==> Complete(e, s.file.value)
  }

  // ----- every step keeps them

  /** The locks of process `q` and its phase, taken out of the invariant. */
  lemma LocksOf(s: System, q: Pid)
    requires LocksMatch(s)
    ensures q in s.shared <==> Reads(At(s, q))
    ensures s.exclusive == Some(q) <==> Writes(At(s, q))
  {
  }

  /** A step of `p` changes no other process's phase, and the file only when nobody else has it locked. */
  lemma StepFrame(e: Entry, s: System, t: System, p: Pid)
    requires Inv(e, s) && (Step(e, s, t, p) || Crash(s, t, p))
    ensures forall q: Pid :: q != p ==> At(t, q) == At(s, q)
    ensures t.file != s.file ==> s.shared == {} && (s.exclusive == None || s.exclusive == Some(p))
  {
    LocksOf(s, p);
  }

  /** A process that has moved on has its own lock exactly if its new phase says so. */
  ghost predicate OwnLocks(t: System, p: Pid)
  {
    && (p in t.shared <==> Reads(At(t, p)))
    && (t.exclusive == Some(p) <==> Writes(At(t, p)))
    && (t.shared == {} || t.exclusive == None)
    && (!Unlocked(t) ==> t.file.Some?)
  }

  ghost predicate ReaderStep(e: Entry, s: System, t: System, p: Pid)
  {
    GetReadLock(s, t, p) || IsValid(e, s, t, p) || ReadWindow(s, t, p) || UnlockAndClose(s, t, p)
  }

  lemma ReaderLocks(e: Entry, s: System, t: System, p: Pid)
    requires Inv(e, s) && ReaderStep(e, s, t, p)
    ensures OwnLocks(t, p) && OthersKeep(s, t, p)
  {
    LocksOf(s, p);
  }

  lemma OtherLocks(e: Entry, s: System, t: System, p: Pid)
    requires Inv(e, s) && (Step(e, s, t, p) || Crash(s, t, p)) && !ReaderStep(e, s, t, p)
    ensures OwnLocks(t, p) && OthersKeep(s, t, p)
  {
    hide GetReadLock, IsValid, ReadWindow, UnlockAndClose;
    LocksOf(s, p);
  }

  /** The locks and the phases of all other processes. */
  ghost predicate OthersKeep(s: System, t: System, p: Pid)
  {
    forall q: Pid :: q != p ==>
      At(t, q) == At(s, q) && (q in t.shared <==> q in s.shared) && (t.exclusive == Some(q) <==> s.exclusive == Some(q))
  }

  lemma StepKeepsLocks(e: Entry, s: System, t: System, p: Pid)
    requires Inv(e, s) && (Step(e, s, t, p) || Crash(s, t, p))
    ensures LocksMatch(t)
  {
    hide Step, Crash, ReaderStep, Reads, Writes;
    if ReaderStep(e, s, t, p) {
      ReaderLocks(e, s, t, p);
    } else {
      OtherLocks(e, s, t, p);
    }
    forall q: Pid
      ensures q in t.shared <==> Reads(At(t, q))
      ensures t.exclusive == Some(q) <==> Writes(At(t, q))
    {
      LocksOf(s, q);
    }
  }

  lemma ReaderKnows(e: Entry, s: System, t: System, p: Pid)
    requires Inv(e, s) && ReaderStep(e, s, t, p)
    ensures t.file.Some? ==> Left(e, t.file.value)
    ensures PhaseKnows(e, t, At(t, p))
  {
    assert PhaseKnows(e, s, At(s, p));
  }

  lemma PartBegun(c: Content, payload: Bytes, n: nat)
    requires Payload(c, payload) && n <= |payload|
    ensures Begun(c, payload[..n]) && (n == |payload| ==> payload[..n] == payload)
  {
    if n <= |c.image| {
      assert payload[..n] == c.image[..n];
    } else {
      assert payload[..n][..|c.image|] == c.image;
    }
  }

  lemma OwnKnowledge(e: Entry, s: System, t: System, p: Pid)
    requires Inv(e, s) && (Step(e, s, t, p) || Crash(s, t, p))
    ensures t.file.Some? ==> Left(e, t.file.value)
    ensures PhaseKnows(e, t, At(t, p))
  {
    hide GetReadLock, IsValid, ReadWindow, UnlockAndClose;
    if ReaderStep(e, s, t, p) {
      ReaderKnows(e, s, t, p);
    } else {
      assert PhaseKnows(e, s, At(s, p));
      LocksOf(s, p);
      forall d: bool, payload: Bytes, n: nat | Payload(e.Of(d), payload) && n <= |payload|
        ensures Left(e, payload[..n])
      {
        PartBegun(e.Of(d), payload, n);
      }
    }
  }

  lemma StepKeepsKnowledge(e: Entry, s: System, t: System, p: Pid)
    requires Inv(e, s) && (Step(e, s, t, p) || Crash(s, t, p))
    ensures t.file.Some? ==> Left(e, t.file.value)
    ensures forall q: Pid :: PhaseKnows(e, t, At(t, q))
  {
    OwnKnowledge(e, s, t, p);
    StepFrame(e, s, t, p);
    forall q: Pid
      ensures PhaseKnows(e, t, At(t, q))
    {
      if q != p {
        assert PhaseKnows(e, s, At(s, q));
        LocksOf(s, q);
      }
    }
  }

  lemma StepKeepsInv(e: Entry, s: System, t: System, p: Pid)
    requires Inv(e, s) && (Step(e, s, t, p) || Crash(s, t, p))
    ensures Inv(e, t)
  {
    StepKeepsLocks(e, s, t, p);
    StepKeepsKnowledge(e, s, t, p);
  }

  lemma StepKeepsComplete(e: Entry, s: System, t: System, p: Pid)
    requires Inv(e, s) && CompleteWhenUnlocked(e, s) && Step(e, s, t, p)
    ensures CompleteWhenUnlocked(e, t)
  {
    assert PhaseKnows(e, s, At(s, p));
    LocksOf(s, p);
  }

  // ----- whole runs

  /** What a run may find under the name: nothing, or what some earlier write left behind. */
  ghost predicate Starts(e: Entry, s: System)
  {
    s.file.Some? ==> Left(e, s.file.value)
  }

  lemma {:induction false} RunInv(e: Entry, crashes: bool, run: seq<System>, i: nat)
    requires Run(e, crashes, run) && i < |run| && Starts(e, run[0])
    ensures Inv(e, run[i])
  {
    if i != 0 {
      RunInv(e, crashes, run, i - 1);
      assert Moves(e, crashes, run[i - 1], run[i]);
      var p: Pid :| Step(e, run[i - 1], run[i], p) || (crashes && Crash(run[i - 1], run[i], p));
      StepKeepsInv(e, run[i - 1], run[i], p);
    }
  }

  /**
    In every interleaving, even with processes dying in the middle of a write,
    a process that answers from the cache has the requested bytes of one file,
    of the size of its own image, that some writer has left. Every process that
    has returned normally holds no lock.
  */
  lemma HitsAreOfOneFile(e: Entry, crashes: bool, run: seq<System>, i: nat, p: Pid)
    requires Run(e, crashes, run) && i < |run| && Starts(e, run[0])
    ensures At(run[i], p).Validated? ==> run[i].file.Some? && Hittable(e, At(run[i], p).isDap4, run[i].file.value)
    ensures At(run[i], p).Hit? ==>
              var h := At(run[i], p);
              Hittable(e, h.isDap4, h.seen) && h.lo <= h.hi <= |h.seen| && h.bytes == h.seen[h.lo..h.hi]
    ensures At(run[i], p).Hit? || At(run[i], p).Done? || At(run[i], p).Missed? || At(run[i], p).Idle? ==>
              p !in run[i].shared && run[i].exclusive != Some(p)
    ensures run[i].shared == {} || run[i].exclusive == None
  {
    RunInv(e, crashes, run, i);
    assert PhaseKnows(e, run[i], At(run[i], p));
    LocksOf(run[i], p);
  }

  /** The process has answered from the cache, and not with the requested bytes of its own image. */
  ghost predicate WrongHit(e: Entry, phase: Phase)
  {
    phase.Hit? && var image := e.Of(phase.isDap4).image;
                  !(phase.lo <= phase.hi <= |image| && phase.bytes == image[phase.lo..phase.hi])
  }

  /** Where the protocols agree, a file of the size of the image is the image: what the size check relies on. */
  lemma AgreedHittable(e: Entry, d: bool, b: Bytes)
    requires Agree(e) && Hittable(e, d, b)
    ensures b == e.Of(d).image
  {
  }

  /** Where the protocols agree, every hit of every run is the requested bytes of the complete image. */
  lemma HitsAreComplete(e: Entry, crashes: bool, run: seq<System>, i: nat, p: Pid)
    requires Agree(e) && Run(e, crashes, run) && i < |run| && Starts(e, run[0])
    ensures At(run[i], p).Validated? ==> run[i].file == Some(e.Of(At(run[i], p).isDap4).image)
    ensures !WrongHit(e, At(run[i], p))
  {
    HitsAreOfOneFile(e, crashes, run, i, p);
    var phase := At(run[i], p);
    if phase.Validated? {
      AgreedHittable(e, phase.isDap4, run[i].file.value);
    } else if phase.Hit? {
      AgreedHittable(e, phase.isDap4, phase.seen);
    }
  }

  lemma FullSizeIsComplete(e: Entry, crashes: bool, run: seq<System>, i: nat, d: bool)
    requires Agree(e) && Run(e, crashes, run) && i < |run| && Starts(e, run[0])
    ensures run[i].file.Some? && |run[i].file.value| == |e.Of(d).image| ==> run[i].file.value == e.Of(d).image
  {
    RunInv(e, crashes, run, i);
  }

  /** Without deaths, whenever no exclusive lock is held an existing file is complete. */
  lemma {:induction false} UnlockedFileIsComplete(e: Entry, run: seq<System>, i: nat)
    requires Run(e, false, run) && i < |run|
    requires run[0].file.Some? ==> Complete(e, run[0].file.value)
    ensures run[i].exclusive == None && run[i].file.Some? ==> Complete(e, run[i].file.value)
  {
    hide Step, Inv;
    CompleteIsLeft(e);
    if i != 0 {
      UnlockedFileIsComplete(e, run, i - 1);
      RunInv(e, false, run, i - 1);
      assert Moves(e, false, run[i - 1], run[i]);
      var p: Pid :| Step(e, run[i - 1], run[i], p);
      StepKeepsComplete(e, run[i - 1], run[i], p);
    }
  }

  lemma CompleteIsLeft(e: Entry)
    ensures forall b :: Complete(e, b) ==> Left(e, b)
  {
  }

  /** Without deaths, a reader that expects less than any writer writes never has a hit. */
  lemma ShorterIsNeverHit(e: Entry, run: seq<System>, i: nat, p: Pid, d: bool)
    requires Run(e, false, run) && i < |run|
    requires |e.Of(d).image| < e.dap2.total && |e.Of(d).image| < e.dap4.total
    requires run[0].file.Some? ==> Complete(e, run[0].file.value)
    ensures At(run[i], p) != Validated(d)
  {
    CompleteIsLeft(e);
    UnlockedFileIsComplete(e, run, i);
    RunInv(e, false, run, i);
    assert PhaseKnows(e, run[i], At(run[i], p));
    LocksOf(run[i], p);
  }

  // ----- runs within one protocol

  /** No process is in a request under the other protocol. */
  ghost predicate Only(d: bool, s: System)
  {
    forall p: Pid :: OnlyPhase(d, At(s, p))
  }

  predicate OnlyPhase(d: bool, phase: Phase)
  {
    phase.Idle? || phase.Unlinked? || phase.Stuck? || phase.Done? || phase.isDap4 == d
  }

  /** Such a run does not notice that there is another protocol. */
  lemma OneProtocolStep(e: Entry, d: bool, s: System, t: System, p: Pid)
    requires Step(e, s, t, p) && Only(d, s) && Only(d, t)
    ensures Step(Entry(e.Of(d), e.Of(d)), s, t, p)
  {
    assert OnlyPhase(d, At(s, p)) && OnlyPhase(d, At(t, p));
  }

  lemma OneProtocolRun(e: Entry, d: bool, crashes: bool, run: seq<System>)
    requires Run(e, crashes, run) && forall i :: 0 <= i < |run| ==> Only(d, run[i])
    ensures Run(Entry(e.Of(d), e.Of(d)), crashes, run)
  {
    hide Step, Crash, Only;
    var one := Entry(e.Of(d), e.Of(d));
    forall i | 0 < i < |run|
      ensures Moves(one, crashes, run[i - 1], run[i])
    {
      assert Moves(e, crashes, run[i - 1], run[i]);
      var p: Pid :| Step(e, run[i - 1], run[i], p) || (crashes && Crash(run[i - 1], run[i], p));
      if Step(e, run[i - 1], run[i], p) {
        OneProtocolStep(e, d, run[i - 1], run[i], p);
      }
    }
  }

  /** As long as all requests are under one protocol, deaths or not, every hit is its complete image. */
  lemma OneProtocolHitsAreComplete(e: Entry, d: bool, crashes: bool, run: seq<System>, i: nat, p: Pid)
    requires Run(e, crashes, run) && i < |run| && forall j :: 0 <= j < |run| ==> Only(d, run[j])
    requires run[0].file.Some? ==> Begun(e.Of(d), run[0].file.value)
    ensures !WrongHit(e, At(run[i], p))
  {
    var one := Entry(e.Of(d), e.Of(d));
    OneProtocolRun(e, d, crashes, run);
    HitsAreComplete(one, crashes, run, i, p);
    assert Only(d, run[i]);
    assert OnlyPhase(d, At(run[i], p));
  }

  // ----- runs that end in a hit

  ghost predicate Ends(run: seq<System>, s: System)
  {
    |run| > 0 && run[|run| - 1] == s
  }

  /** One more step. */
  lemma Extend(e: Entry, crashes: bool, run: seq<System>, s: System, t: System, p: Pid) returns (longer: seq<System>)
    requires Run(e, crashes, run) && Ends(run, s) && (Step(e, s, t, p) || (crashes && Crash(s, t, p)))
    ensures Run(e, crashes, longer) && Ends(longer, t) && longer[0] == run[0]
  {
    hide Step, Crash;
    longer := run + [t];
    forall i | 0 < i < |longer|
      ensures Moves(e, crashes, longer[i - 1], longer[i])
    {
      if i < |run| {
        assert Moves(e, crashes, run[i - 1], run[i]);
      } else {
        assert Moves(e, crashes, s, t);
      }
    }
  }

  /**
    A writer that is cut short after `n` bytes, or is done if these are all:
    there is a run that leaves an unlocked file of exactly the first `n` bytes
    of what is written behind. It takes a death only for less than all.
  */
  lemma WriterLeaves(e: Entry, d: bool, payload: Bytes, n: nat, p: Pid) returns (run: seq<System>, last: System)
    requires Payload(e.Of(d), payload) && n <= |payload|
    ensures Run(e, n < |payload|, run) && run[0].file == None && Ends(run, last)
    ensures Unlocked(last) && last.file == Some(payload[..n]) && At(last, p) == Idle
  {
    var crashes := n < |payload|;
    var s0 := System(None, {}, None, map[]);
    var s1 := To(s0, p, Missed(d));
    var s2 := Created(s1, p, d, payload);
    var s3 := To(s2.(file := Some(payload[..n])), p, Writing(d, payload, n));
    run := [s0];
    assert LockTried(s0, s1, p, d);
    run := Extend(e, crashes, run, s0, s1, p);
    assert CreateAndLock(e, s1, s2, p);
    run := Extend(e, crashes, run, s1, s2, p);
    assert Write(s2, s3, p);
    run := Extend(e, crashes, run, s2, s3, p);
    if crashes {
      last := To(Release(s3, p), p, Idle);
      run := Extend(e, crashes, run, s3, last, p);
    } else {
      run, last := WriterDone(e, d, payload, p, run, s3);
    }
  }

  lemma WriterDone(e: Entry, d: bool, payload: Bytes, p: Pid, run: seq<System>, s: System) returns (longer: seq<System>, last: System)
    requires Run(e, false, run) && Ends(run, s) && Payload(e.Of(d), payload)
    requires At(s, p) == Writing(d, payload, |payload|) && s.shared == {} && s.exclusive == Some(p)
    ensures Run(e, false, longer) && longer[0] == run[0] && Ends(longer, last)
    ensures Unlocked(last) && last.file == s.file && At(last, p) == Idle
  {
    var t := To(s, p, Written(d, payload, |payload|, |payload|));
    var u := To(Release(t, p), p, Done);
    last := To(u, p, Idle);
    assert Write(s, t, p) && FinishWrite(e, t, u, p) && Restart(u, last, p);
    longer := Extend(e, false, run, s, t, p);
    longer := Extend(e, false, longer, t, u, p);
    longer := Extend(e, false, longer, u, last, p);
  }

  /** A reader that finds a file of the size of its image reads a window of it and answers with that. */
  lemma ReaderHits(e: Entry, crashes: bool, d: bool, p: Pid, run: seq<System>, s: System, lo: nat, hi: nat)
    returns (longer: seq<System>, last: System)
    requires Run(e, crashes, run) && Ends(run, s)
    requires Unlocked(s) && At(s, p) == Idle && s.file.Some? && |s.file.value| == |e.Of(d).image| && lo <= hi <= |s.file.value|
    ensures Run(e, crashes, longer) && longer[0] == run[0] && Ends(longer, last)
    ensures last.file == s.file && At(last, p) == Hit(d, s.file.value, lo, hi, s.file.value[lo..hi])
  {
    var f := s.file.value;
    var t := To(s.(shared := s.shared + {p}), p, Opened(d));
    var u := To(t, p, Validated(d));
    var v := To(u, p, Fetched(d, f, lo, hi, f[lo..hi]));
    last := To(Release(v, p), p, Hit(d, f, lo, hi, f[lo..hi]));
    assert LockTried(s, t, p, d) && IsValid(e, t, u, p);
    longer := Extend(e, crashes, run, s, t, p);
    longer := Extend(e, crashes, longer, t, u, p);
    assert WindowRead(u, v, p, lo, hi, hi);
    longer := Extend(e, crashes, longer, u, v, p);
    assert UnlockAndClose(v, last, p);
    longer := Extend(e, crashes, longer, v, last, p);
  }

  /**
    What a writer of one protocol leaves can be a hit of the other, as it is:
    whenever its first bytes, all of them or what a death leaves, are as many as
    the image of the other. No process has to be wrong for that.
  */
  lemma OtherProtocolHits(e: Entry, d: bool, payload: Bytes, lo: nat, hi: nat, p: Pid) returns (run: seq<System>, last: System)
    requires Payload(e.Of(!d), payload) && lo <= hi <= |e.Of(d).image| <= |payload|
    ensures Run(e, |e.Of(d).image| < |payload|, run) && run[0].file == None && Ends(run, last)
    ensures At(last, p) == Hit(d, payload[..|e.Of(d).image|], lo, hi, payload[lo..hi])
  {
    var n := |e.Of(d).image|;
    run, last := WriterLeaves(e, !d, payload, n, p);
    run, last := ReaderHits(e, n < |payload|, d, p, run, last, lo, hi);
    assert payload[..n][lo..hi] == payload[lo..hi];
  }

  /**
    A file of the wrong size does not stay in the way: there is a run in which
    one request finds it, removes it and writes its own, and the next one is
    answered from that.
  */
  lemma StaleFileReplaced(e: Entry, d: bool, stale: Bytes, lo: nat, hi: nat, p: Pid) returns (run: seq<System>, last: System)
    requires var c := e.Of(d); |stale| != |c.image| && c.total == |c.image| && lo <= hi <= |c.image|
    ensures Run(e, false, run) && run[0].file == Some(stale) && Ends(run, last)
    ensures last.file == Some(e.Of(d).image) && At(last, p) == Hit(d, e.Of(d).image, lo, hi, e.Of(d).image[lo..hi])
  {
    var image := e.Of(d).image;
    var s0 := System(Some(stale), {}, None, map[]);
    var s1 := To(s0.(shared := s0.shared + {p}), p, Opened(d));
    var s2 := To(s1, p, Rejected(d));
    var s3 := To(Release(s2, p), p, Purging(d));
    var s4 := To(s3.(file := None), p, Missed(d));
    var s5 := Created(s4, p, d, image);
    var s6 := To(s5.(file := Some(image)), p, Writing(d, image, |image|));
    run := [s0];
    assert s3.shared == {} && Unlocked(s3);
    assert LockTried(s0, s1, p, d);
    assert IsValid(e, s1, s2, p);
    assert UnlockAndClose(s2, s3, p);
    assert PurgeFile(s3, s4, p);
    run := Extend(e, false, run, s0, s1, p);
    run := Extend(e, false, run, s1, s2, p);
    run := Extend(e, false, run, s2, s3, p);
    run := Extend(e, false, run, s3, s4, p);
    assert Payload(e.Of(d), image);
    assert At(s4, p) == Missed(d) && s4.file.None? && s5 == Created(s4, p, d, image);
    assert CreateAndLock(e, s4, s5, p);
    run := Extend(e, false, run, s4, s5, p);
    assert image[..|image|] == image;
    assert Write(s5, s6, p);
    run := Extend(e, false, run, s5, s6, p);
    run, last := WriterDone(e, d, image, p, run, s6);
    run, last := ReaderHits(e, false, d, p, run, last, lo, hi);
  }

  // ----- what one process sees of the others

  /**
    From `s` to `t` only other processes may have moved: the phase of `p` is
    the same, and so is the file if `p` has it locked.
  */
  ghost predicate Interfered(e: Entry, s: System, t: System, p: Pid)
  {
    Inv(e, t) && At(t, p) == At(s, p) && (Reads(At(s, p)) || Writes(At(s, p)) ==> t.file == s.file)
  }

  ghost predicate MovesWithout(e: Entry, s: System, t: System, p: Pid)
  {
    exists q: Pid :: q != p && (Step(e, s, t, q) || Crash(s, t, q))
  }

  /** Whatever other processes do, deaths included, is interference in that sense. */
  lemma {:induction false} OthersInterfere(e: Entry, run: seq<System>, p: Pid)
    requires |run| > 0 && Inv(e, run[0])
    requires forall i :: 0 < i < |run| ==> MovesWithout(e, run[i - 1], run[i], p)
    ensures Interfered(e, run[0], run[|run| - 1], p)
  {
    hide Step, Crash;
    if |run| > 1 {
      var n := |run| - 1;
      var front := run[..n];
      assert forall i :: 0 <= i < n ==> front[i] == run[i];
      OthersInterfere(e, front, p);
      var s, t := run[n - 1], run[n];
      assert MovesWithout(e, s, t, p);
      var q: Pid :| q != p && (Step(e, s, t, q) || Crash(s, t, q));
      StepKeepsInv(e, s, t, q);
      StepFrame(e, s, t, q);
      LocksOf(s, p);
    }
  }

  /** The others may have left any begun file behind, and be gone, as far as a process without a lock can tell. */
  lemma AloneWith(e: Entry, s: System, p: Pid, f: Option<Bytes>) returns (t: System)
    requires Inv(e, s) && !Reads(At(s, p)) && !Writes(At(s, p)) && (f.Some? ==> Left(e, f.value))
    ensures Interfered(e, s, t, p) && t.file == f && Unlocked(t)
  {
    t := System(f, {}, None, map[p := At(s, p)]);
    assert PhaseKnows(e, s, At(s, p));
  }
}
