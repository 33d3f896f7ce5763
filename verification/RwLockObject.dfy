/** SemRWLock as the object each process holds, over the shared counters and the
    three semaphores. Every method runs the statements of the source from P(0) to the
    closing V(0); the outcome of P(0) is a parameter. That this is also what happens
    when other processes interleave is RwLockSection.PassIsAtomic. */
module RwLockObject {
  import opened RwLock
  import opened RwLockSection

  datatype Ret = Success | AlreadyLocked | ControlFailed | MustWait

  datatype LockState = NLocked | Locked(role: Role)

  class SharedLock {
    var control: nat
    var readTokens: nat
    var writeTokens: nat
    var mode: Mode
    var readers: int
    var waitReaders: int
    var writers: int
    var waitWriters: int

    /** Create: counters cleared, readers preferred, control released once. */
    constructor ()
      ensures Snapshot() == Initial(0).shared
    {
      control, readTokens, writeTokens := 0, 0, 0;
      mode := PreferRead;
      readers, waitReaders, writers, waitWriters := 0, 0, 0, 0;
      new;
      control := control + 1;
    }

    ghost function Snapshot(): Shared
      reads this
    {
      Shared(control, readTokens, writeTokens, mode, readers, waitReaders, writers, waitWriters)
    }

    method ReleaseAllReaders()
      requires waitReaders > 0
      modifies this
      ensures Snapshot() == old(Snapshot()).(
                readTokens := old(readTokens) + old(waitReaders),
                waitReaders := 0,
                readers := old(readers) + old(waitReaders))
    {
      var loop := waitReaders;
      while loop > 0
        invariant 0 <= loop == waitReaders
        invariant Snapshot() == old(Snapshot()).(
                    readTokens := old(readTokens) + old(waitReaders) - loop,
                    waitReaders := loop,
                    readers := old(readers) + old(waitReaders) - loop)
      {
        readTokens := readTokens + 1;
        waitReaders := waitReaders - 1;
        readers := readers + 1;
        loop := loop - 1;
      }
    }

    method ReleaseOneWriter()
      modifies this
      ensures Snapshot() == old(Snapshot()).(
                writeTokens := old(writeTokens) + 1,
                waitWriters := old(waitWriters) - 1,
                writers := old(writers) + 1)
    {
      writeTokens := writeTokens + 1;
      waitWriters := waitWriters - 1;
      writers := writers + 1;
    }
  }

  class SemRWLock {
    const shared: SharedLock
    var state: LockState

    constructor (shared: SharedLock)
      ensures this.shared == shared && state == NLocked
    {
      this.shared := shared;
      state := NLocked;
    }

    /** What a release lets in: with readers preferred every waiting reader, and a writer
        only if there was none and nobody is left; with writers preferred one writer as soon
        as nobody of the releaser's role is left, and the readers only if no writer waited.
        Each unit leaves a wait counter, is a token, and is a holder from then on. */
    twostate predicate LetsIn(own: Role)
      reads this, shared
    {
      var readersLeft := old(shared.readers) - (if own.Reader? then 1 else 0);
      var writersLeft := old(shared.writers) - (if own.Writer? then 1 else 0);
      var ownLeft := if own.Reader? then readersLeft else writersLeft;
      var lettingReaders := shared.readTokens - old(shared.readTokens);
      var lettingWriters := shared.writeTokens - old(shared.writeTokens);
      && shared.mode == old(shared.mode) && shared.control == old(shared.control)
      && shared.waitReaders + lettingReaders == old(shared.waitReaders) && shared.readers == readersLeft + lettingReaders
      && shared.waitWriters + lettingWriters == old(shared.waitWriters) && shared.writers == writersLeft + lettingWriters
      && lettingReaders >= 0 && (lettingReaders > 0 ==> shared.waitReaders == 0) && 0 <= lettingWriters <= 1
      && (shared.mode.PreferRead? && old(shared.waitReaders) >= 0 ==>
            && shared.waitReaders == 0
            && (lettingWriters == 1 <==> old(shared.waitReaders) == 0 && old(shared.waitWriters) > 0 && readersLeft == 0))
      && (shared.mode.PreferWrite? && old(shared.waitReaders) >= 0 ==>
            && (lettingWriters == 1 <==> ownLeft == 0 && old(shared.waitWriters) > 0)
            && (shared.waitReaders == 0 <==>
                  old(shared.waitReaders) == 0 || (ownLeft == 0 && old(shared.waitWriters) <= 0)))
    }

    /** RLock up to its first V(0). MustWait means the caller goes on to P(1). */
    method RLock(granted: bool) returns (ret: Ret)
      requires granted ==> shared.control > 0
      modifies this, shared
      ensures ret == AlreadyLocked <==> old(state) != NLocked
      ensures ret == ControlFailed <==> old(state) == NLocked && !granted
      ensures ret.AlreadyLocked? || ret.ControlFailed? ==>
                shared.Snapshot() == old(shared.Snapshot()) && state == old(state)
      ensures ret.Success? || ret.MustWait? ==>
                var inside := old(shared.Snapshot()).(control := old(shared.control) - 1);
                && shared.Snapshot() == Finish(inside, LockDecide(Reader))
                && ret == (if MayGrant(inside, Reader) then Success else MustWait)
                && state == (if ret.Success? then Locked(Reader) else NLocked)
      ensures old(state) == NLocked && granted ==>
                && (ret.Success? <==>
                      old(shared.writers) == 0 && (old(shared.mode).PreferWrite? ==> old(shared.waitWriters) == 0))
                && shared.Snapshot() == if ret.Success? then old(shared.Snapshot()).(readers := old(shared.readers) + 1)
                                        else old(shared.Snapshot()).(waitReaders := old(shared.waitReaders) + 1)
    {
      if state != NLocked { return AlreadyLocked; }
      if !granted { return ControlFailed; }
      shared.control := shared.control - 1;
      match shared.mode {
        case PreferRead =>
          if shared.writers == 0 {
            shared.readers := shared.readers + 1;
            shared.control := shared.control + 1;
            ret := Success;
          } else {
            shared.waitReaders := shared.waitReaders + 1;
            shared.control := shared.control + 1;
            ret := MustWait;
          }
        case PreferWrite =>
          if shared.writers == 0 && shared.waitWriters == 0 {
            shared.readers := shared.readers + 1;
            shared.control := shared.control + 1;
            ret := Success;
          } else {
            shared.waitReaders := shared.waitReaders + 1;
            shared.control := shared.control + 1;
            ret := MustWait;
          }
      }
      if ret == Success { state := Locked(Reader); }
    }

    /** WLock up to its first V(0). MustWait means the caller goes on to P(2). */
    method WLock(granted: bool) returns (ret: Ret)
      requires granted ==> shared.control > 0
      modifies this, shared
      ensures ret == AlreadyLocked <==> old(state) != NLocked
      ensures ret == ControlFailed <==> old(state) == NLocked && !granted
      ensures ret.AlreadyLocked? || ret.ControlFailed? ==>
                shared.Snapshot() == old(shared.Snapshot()) && state == old(state)
      ensures ret.Success? || ret.MustWait? ==>
                var inside := old(shared.Snapshot()).(control := old(shared.control) - 1);
                && shared.Snapshot() == Finish(inside, LockDecide(Writer))
                && ret == (if MayGrant(inside, Writer) then Success else MustWait)
                && state == (if ret.Success? then Locked(Writer) else NLocked)
      ensures old(state) == NLocked && granted ==>
                && (ret.Success? <==>
                      && old(shared.writers) == 0 && old(shared.readers) == 0
                      && (old(shared.mode).PreferRead? ==> old(shared.waitReaders) == 0))
                && shared.Snapshot() == if ret.Success? then old(shared.Snapshot()).(writers := old(shared.writers) + 1)
                                        else old(shared.Snapshot()).(waitWriters := old(shared.waitWriters) + 1)
    {
      if state != NLocked { return AlreadyLocked; }
      if !granted { return ControlFailed; }
      shared.control := shared.control - 1;
      match shared.mode {
        case PreferRead =>
          if shared.writers == 0 && shared.readers == 0 && shared.waitReaders == 0 {
            shared.writers := shared.writers + 1;
            shared.control := shared.control + 1;
            ret := Success;
          } else {
            shared.waitWriters := shared.waitWriters + 1;
            shared.control := shared.control + 1;
            ret := MustWait;
          }
        case PreferWrite =>
          if shared.writers == 0 && shared.readers == 0 {
            shared.writers := shared.writers + 1;
            shared.control := shared.control + 1;
            ret := Success;
          } else {
            shared.waitWriters := shared.waitWriters + 1;
            shared.control := shared.control + 1;
            ret := MustWait;
          }
      }
      if ret == Success { state := Locked(Writer); }
    }

    /** The rest of a lock call that had to wait: P(1) or P(2) goes through. */
    method TakeToken(role: Role)
      requires if role.Reader? then shared.readTokens > 0 else shared.writeTokens > 0
      modifies this, shared
      ensures shared.Snapshot() == AdvanceShared(old(shared.Snapshot()), Blocked(role))
      ensures state == Locked(role)
    {
      match role {
        case Reader => shared.readTokens := shared.readTokens - 1;
        case Writer => shared.writeTokens := shared.writeTokens - 1;
      }
      state := Locked(role);
    }

    /** UnLock, with its release loops. */
    method UnLock(granted: bool) returns (ret: Ret)
      requires granted ==> shared.control > 0
      modifies this, shared
      ensures ret == ControlFailed <==> old(state) != NLocked && !granted
      ensures ret == Success <==> old(state) == NLocked || granted
      ensures old(state) == NLocked || !granted ==>
                shared.Snapshot() == old(shared.Snapshot()) && state == old(state)
      ensures old(state).Locked? && granted ==>
                && shared.Snapshot() == Finish(old(shared.Snapshot()).(control := old(shared.control) - 1),
                                               UnlockDrop(old(state).role))
                && LetsIn(old(state).role) && state == NLocked
    {
      match state {
        case NLocked =>
        case Locked(role) =>
          if !granted { return ControlFailed; }
          shared.control := shared.control - 1;
          match role {
            case Reader => UnLockReader();
            case Writer => UnLockWriter();
          }
          shared.control := shared.control + 1;
      }
      state := NLocked;
      return Success;
    }

    method UnLockReader()
      modifies shared
      ensures shared.Snapshot().(control := old(shared.control) + 1) ==
                Finish(old(shared.Snapshot()), UnlockDrop(Reader))
      ensures LetsIn(Reader)
    {
      shared.readers := shared.readers - 1;
      match shared.mode {
        case PreferRead =>
          if shared.waitReaders > 0 {
            shared.ReleaseAllReaders();
          } else if shared.readers == 0 && shared.waitWriters > 0 {
            shared.ReleaseOneWriter();
          }
        case PreferWrite =>
          if shared.readers == 0 {
            if shared.waitWriters > 0 {
              shared.ReleaseOneWriter();
            } else if shared.waitReaders > 0 {
              shared.ReleaseAllReaders();
            }
          }
      }
    }

    method UnLockWriter()
      modifies shared
      ensures shared.Snapshot().(control := old(shared.control) + 1) ==
                Finish(old(shared.Snapshot()), UnlockDrop(Writer))
      ensures LetsIn(Writer)
    {
      shared.writers := shared.writers - 1;
      match shared.mode {
        case PreferRead =>
          if shared.waitReaders > 0 {
            shared.ReleaseAllReaders();
          } else if shared.readers == 0 && shared.waitWriters > 0 {
            shared.ReleaseOneWriter();
          }
        case PreferWrite =>
          if shared.writers == 0 {
            if shared.waitWriters > 0 {
              shared.ReleaseOneWriter();
            } else if shared.waitReaders > 0 {
              shared.ReleaseAllReaders();
            }
          }
      }
    }

    method SetPerfer(granted: bool, mode: Mode) returns (ret: Ret)
      requires granted ==> shared.control > 0
      modifies shared
      ensures !granted ==> ret == ControlFailed && shared.Snapshot() == old(shared.Snapshot())
      ensures granted ==> ret == Success
      ensures granted ==>
                shared.Snapshot() == Finish(old(shared.Snapshot()).(control := old(shared.control) - 1), ModeSet(mode))
      ensures granted ==> shared.Snapshot() == old(shared.Snapshot()).(mode := mode)
    {
      if !granted { return ControlFailed; }
      shared.control := shared.control - 1;
      shared.mode := mode;
      shared.control := shared.control + 1;
      return Success;
    }
  }
}
