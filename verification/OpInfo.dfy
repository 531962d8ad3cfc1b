/** The `oplock_info` object and the inode that lists such objects, as they are updated in place.
    Each method is proved to do what the corresponding function of module Oplock says. */
module OpInfos {
  import opened Basics
  import opened Oplock
  import Refcount

  datatype Status = Success | InvalidOplockProtocol | Unsuccessful | RequestNotAccepted | InvalidDeviceState

  class OpInfo {
    const isLease: bool
    const ref: Refcount.Opinfo
    var level: Level
    var opState: OpState
    var leaseState: Caching
    var newState: Caching
    var breakingCnt: nat
    var openTrunc: bool

    ghost function Abs(): Op
      reads this
    {
      Op(isLease, level, leaseState, newState, opState, breakingCnt, openTrunc)
    }

    /** alloc_opinfo and alloc_lease. */
    constructor (lease: bool, req: Caching)
      ensures isLease == lease && fresh(ref) && ref.Abs() == Refcount.Obj(1, Refcount.Allocated, 0, 0)
      ensures Abs() == Op(lease, NoOplock, if lease then req else NOTHING, NOTHING, Idle, 0, false)
    {
      isLease := lease;
      level := NoOplock;
      opState := Idle;
      leaseState := if lease then req else NOTHING;
      newState := NOTHING;
      breakingCnt := 0;
      openTrunc := false;
      ref := new Refcount.Opinfo();
    }

    /** set_oplock_level with grant_write_oplock, grant_read_oplock and grant_none_oplock. */
    method SetOplockLevel(lev: Level, req: Caching)
      requires opState == Idle && newState == NOTHING && breakingCnt == 0 && !openTrunc
      requires !isLease ==> leaseState == NOTHING
      modifies this
      ensures Abs() == Granted(isLease, lev, req)
    {
      match lev {
        case Batch => level := Batch;
        case Exclusive => level := Exclusive;
        case LevelII => level := LevelII;
        case NoOplock => level := NoOplock;
      }
      if isLease {
        if IsWrite(lev) {
          leaseState := req;
        } else if lev == LevelII {
          leaseState := R;
          if req.h {
            leaseState := leaseState.(h := true);
          }
        } else {
          leaseState := NOTHING;
        }
      }
    }

    method WriteToRead() returns (ok: bool)
      modifies this
      ensures ok == Applies(old(Abs()), Change.WriteToRead) && Abs() == Apply(old(Abs()), Change.WriteToRead)
    {
      if !(level == Batch || level == Exclusive) {
        return false;
      }
      level := LevelII;
      if isLease {
        leaseState := newState;
      }
      return true;
    }

    method ReadHandleToRead() returns (ok: bool)
      modifies this
      ensures ok && Abs() == Apply(old(Abs()), Change.ReadHandleToRead)
    {
      leaseState := newState;
      level := LevelII;
      return true;
    }

    method WriteToNone() returns (ok: bool)
      modifies this
      ensures ok == Applies(old(Abs()), Change.WriteToNone) && Abs() == Apply(old(Abs()), Change.WriteToNone)
    {
      if !(level == Batch || level == Exclusive) {
        return false;
      }
      level := NoOplock;
      if isLease {
        leaseState := newState;
      }
      return true;
    }

    method ReadToNone() returns (ok: bool)
      modifies this
      ensures ok == Applies(old(Abs()), Change.ReadToNone) && Abs() == Apply(old(Abs()), Change.ReadToNone)
    {
      if level != LevelII {
        return false;
      }
      level := NoOplock;
      if isLease {
        leaseState := newState;
      }
      return true;
    }

    /** smb20_oplock_break once the opinfo of the file is found. */
    method OplockBreak(req: AckLevel) returns (st: Status)
      modifies this
      ensures Abs() == PlainAck(old(Abs()), req)
      ensures st == Success <==> PlainAckTaken(old(Abs()))
      ensures st == InvalidOplockProtocol <==> old(level) == NoOplock
      ensures st == Unsuccessful <==> old(level) != NoOplock && old(opState) == Idle
    {
      if level == NoOplock {
        return InvalidOplockProtocol;
      }
      if opState == Idle {
        return Unsuccessful;
      }
      var change: Change;
      var err := InvalidDeviceState;
      if (level == Exclusive || level == Batch) && req == AckOther {
        err := InvalidOplockProtocol;
        change := Change.WriteToNone;
      } else if level == LevelII && req != AckNone {
        err := InvalidOplockProtocol;
        change := Change.ReadToNone;
      } else if (level == Exclusive || level == Batch) && req == AckII {
        change := Change.WriteToRead;
      } else if (level == Exclusive || level == Batch) && req == AckNone {
        change := Change.WriteToNone;
      } else {
        change := Change.ReadToNone;
      }
      var ok := true;
      match change {
        case WriteToRead => ok := WriteToRead();
        case WriteToNone => ok := WriteToNone();
        case ReadToNone => ok := ReadToNone();
        case _ =>
      }
      opState := Idle;
      return if ok then Success else err;
    }

    method CheckLeaseState(req: Caching) returns (bad: bool)
      modifies this`newState
      ensures bad == !LeaseStateOk(old(newState), req)
      ensures newState == if bad then old(newState) else req
    {
      if newState == RH && !req.w {
        newState := req;
        return false;
      }
      return newState != req;
    }

    /** A turn of lookup_lease_in_table: the opinfo is held if it is the lease that `key` says it is and
        awaits an acknowledgement, and otherwise put back. */
    method LookupLease(key: bool, ghost id: nat) returns (found: bool)
      requires isLease
      modifies ref
      ensures found <==> old(ref.refcount) != 0 && key && LeaseFound(Abs())
      ensures ref.Abs() == old(ref.Abs()).(count := old(ref.refcount) + if found then 1 else 0)
      ensures ref.trace == old(ref.trace) +
                if found || old(ref.refcount) == 0 then [Refcount.Get(id)] else [Refcount.Get(id), Refcount.Put(id)]
    {
      var held := ref.TryGet(id);
      if !held {
        return false;
      }
      if opState == Idle || opState == Closing || !(leaseState.h || leaseState.w) || !key {
        ref.Release(id);
        return false;
      }
      return true;
    }

    /** The part of smb21_lease_break that carries out an acknowledgement that passed the checks. */
    method TakeLeaseAck(req: Caching) returns (st: Status)
      requires isLease && breakingCnt > 0
      modifies this
      ensures var o := old(Abs());
              var c := LeaseChange(o, req);
              && Abs() == Apply(o, c).(opState := Idle, breaking := o.breaking - 1)
              && (st == Success <==> c == NoChange || Applies(o, c))
              && st != RequestNotAccepted
    {
      var change := NoChange;
      var err := InvalidDeviceState;
      if req.w {
        err := InvalidOplockProtocol;
        change := if leaseState.w then Change.WriteToNone else Change.ReadToNone;
      } else if leaseState == R && req != NOTHING {
        err := InvalidOplockProtocol;
        change := Change.ReadToNone;
      } else if req == NOTHING {
        change := if leaseState.w then Change.WriteToNone else Change.ReadToNone;
      } else if req.r {
        change := if leaseState.w then Change.WriteToRead else Change.ReadHandleToRead;
      }
      var ok := true;
      match change {
        case WriteToRead => ok := WriteToRead();
        case ReadHandleToRead => ok := ReadHandleToRead();
        case WriteToNone => ok := WriteToNone();
        case ReadToNone => ok := ReadToNone();
        case NoChange =>
      }
      breakingCnt := breakingCnt - 1;
      opState := Idle;
      return if ok then Success else err;
    }

    /** smb21_lease_break, for an opinfo in the lease table that its lookup comes to. The exits for an
        acknowledgement that is not taken leave the reference of the lookup held. (The test of op_state
        right after the lookup repeats one of the lookup's.) */
    method LeaseBreak(req: Caching, key: bool, ghost id: nat) returns (st: Status)
      requires isLease
      modifies this, ref
      ensures var live := old(ref.refcount) != 0;
              && Abs() == (if live && key then LeaseAck(old(Abs()), req) else old(Abs()))
              && ref.trace == old(ref.trace) + Refcount.LeaseBreakSteps(id, live, key, old(Abs()), req)
              && ref.refcount ==
                   old(ref.refcount) + (if Refcount.Refused(live, key, old(Abs()), req) then 1 else 0)
              && (st == Success ==> live && key && LeaseAckTaken(old(Abs()), req))
              && (live && key && LeaseOk(old(Abs())) && LeaseAckTaken(old(Abs()), req) ==> st == Success)
              && (st == RequestNotAccepted <==>
                    live && key && LeaseFound(old(Abs())) && !LeaseStateOk(old(newState), req))
    {
      var found := LookupLease(key, id);
      if !found {
        return Unsuccessful;
      }
      var bad := CheckLeaseState(req);
      if bad {
        return RequestNotAccepted;
      }
      if breakingCnt == 0 {
        return Unsuccessful;
      }
      st := TakeLeaseAck(req);
      ref.Release(id);
    }

    /** smb_send_oplock_break_notification up to the first wait; `mustWait` if an earlier break of
        the lease is still unanswered. */
    method BreakEnter() returns (mustWait: bool)
      modifies this`breakingCnt
      ensures Abs() == Enter(old(Abs()))
      ensures mustWait == (isLease && opState == AckWait)
    {
      if isLease && !(leaseState == R) {
        breakingCnt := breakingCnt + 1;
      }
      return isLease && opState == AckWait;
    }

    /** smb_send_oplock_break_notification from the offer to the choice of `ack_required`, and the
        downgrade made without an acknowledgement. */
    method BreakOffer() returns (ackRequired: bool)
      modifies this
      ensures ackRequired == AckNeeded(old(Abs()))
      ensures Abs() == if ackRequired then Offer(old(Abs())) else Unacked(Offer(old(Abs())))
    {
      if isLease {
        if openTrunc {
          newState := NOTHING;
        } else if leaseState.w {
          newState := if leaseState.h then RH else R;
        } else {
          newState := if leaseState.h then R else NOTHING;
        }
        if leaseState.w || leaseState.h {
          opState := AckWait;
        }
        ackRequired := !((openTrunc && !leaseState.w) || leaseState == R);
        if !ackRequired && leaseState == R {
          level := NoOplock;
          leaseState := NOTHING;
        }
      } else {
        ackRequired := level == Batch || level == Exclusive;
        if ackRequired {
          opState := AckWait;
        } else if level == LevelII {
          level := NoOplock;
        }
      }
    }

    /** What a wait for an acknowledgement does when it expires. */
    method WaitExpired()
      modifies this
      ensures Abs() == TimedOut(old(Abs()))
    {
      if isLease {
        leaseState := NOTHING;
      }
      level := NoOplock;
      opState := Idle;
    }

    /** close_id_del_oplock, once the opinfo is off the inode's list. */
    method MarkClosed()
      modifies this
      ensures Abs() == Closed(old(Abs()))
    {
      if opState == AckWait {
        opState := Closing;
        if isLease {
          breakingCnt := 0;
        }
      }
    }
  }

  datatype Outcome = Done | Refused | MustBreak(prevLease: bool, prevState: Caching)

  /** `cifsd_inode`: its list of opinfos, newest first, and their count. */
  class CifsdInode {
    var opList: seq<OpInfo>
    var opCount: nat

    ghost predicate Valid()
      reads this
    {
      opCount == |opList| && forall i, j :: 0 <= i < j < |opList| ==> opList[i] != opList[j]
    }

    constructor ()
      ensures Valid() && opList == []
    {
      opList := [];
      opCount := 0;
    }

    /** The `out:` part of smb_grant_oplock. */
    method AddGranted(lease: bool, lev: Level, req: Caching) returns (o: OpInfo)
      requires Valid()
      modifies this
      ensures Valid() && fresh(o) && opList == [o] + old(opList) && o.Abs() == Granted(lease, lev, req)
    {
      o := new OpInfo(lease, req);
      o.SetOplockLevel(lev, req);
      opCount := opCount + 1;
      opList := [o] + opList;
    }

    /** smb_grant_oplock up to the break of a writer at the head of the list. */
    method GrantBegin(lease: bool, reqLevel: Level, req: Caching, attrOnly: bool, shareError: bool)
      returns (out: Outcome)
      requires Valid()
      modifies this
      ensures Valid()
      ensures var head := if old(opList) == [] then None else Some(old(opList[0].Abs()));
              match Decide(head, lease, reqLevel, req, attrOnly, shareError)
              case GrantNow(n) =>
                out == Done && opList != [] && opList[1..] == old(opList) && fresh(opList[0]) && opList[0].Abs() == n
              case RefuseOpen => out == Refused && opList == old(opList)
              case BreakHead =>
                head.Some? && out == MustBreak(head.value.isLease, head.value.state) && opList == old(opList)
    {
      if opCount == 0 {
        var o := AddGranted(lease, reqLevel, req);
        return Done;
      }
      if attrOnly {
        var o := AddGranted(lease, NoOplock, req);
        return Done;
      }
      var prev := opList[0];
      if shareError && prev.level == Exclusive {
        return Refused;
      }
      if prev.level != Batch && prev.level != Exclusive {
        out := GrantShared(lease, reqLevel, req, prev.isLease, prev.leaseState, shareError);
        return;
      }
      return MustBreak(prev.isLease, prev.leaseState);
    }

    /** smb_grant_oplock from op_break_not_needed: the opener shares the file with another holder. */
    method GrantShared(lease: bool, reqLevel: Level, req: Caching, prevLease: bool, prevState: Caching,
                       shareError: bool) returns (out: Outcome)
      requires Valid()
      modifies this
      ensures Valid()
      ensures out == if shareError then Refused else Done
      ensures shareError ==> opList == old(opList)
      ensures !shareError ==>
                && opList != [] && opList[1..] == old(opList) && fresh(opList[0])
                && opList[0].Abs() == Stacked(lease, reqLevel, req, prevLease, prevState)
    {
      if shareError {
        return Refused;
      }
      var lev, r := reqLevel, req;
      if lev != NoOplock {
        lev := LevelII;
      }
      if prevLease && !lease && prevState.h {
        lev := NoOplock;
      }
      if !prevLease && lease {
        lev := LevelII;
        r := R;
      }
      var o := AddGranted(lease, lev, r);
      return Done;
    }

    /** smb_grant_oplock after the break: `enoent` if the holder closed meanwhile. */
    method GrantEnd(lease: bool, reqLevel: Level, req: Caching, prevLease: bool, prevState: Caching,
                    shareError: bool, enoent: bool) returns (out: Outcome)
      requires Valid()
      modifies this
      ensures Valid()
      ensures match Resolve(enoent, lease, reqLevel, req, prevLease, prevState, shareError)
              case GrantNow(n) =>
                out == Done && opList != [] && opList[1..] == old(opList) && fresh(opList[0]) && opList[0].Abs() == n
              case _ => out == Refused && opList == old(opList)
    {
      if enoent {
        var o := AddGranted(lease, reqLevel, req);
        return Done;
      }
      out := GrantShared(lease, reqLevel, req, prevLease, prevState, shareError);
    }

    /** close_id_del_oplock. */
    method CloseOpinfo(o: OpInfo, i: nat)
      requires Valid() && i < |opList| && opList[i] == o
      modifies this, o
      ensures Valid() && opList == old(opList[..i] + opList[i + 1..]) && o !in opList
      ensures o.Abs() == Closed(old(o.Abs()))
    {
      opList := opList[..i] + opList[i + 1..];
      o.MarkClosed();
      opCount := opCount - 1;
    }
  }
}
