/** Oplock and lease levels of one open file, and how one `oplock_info` changes:
    granting, breaking, acknowledging and timing out (oplock.c, smb2pdu.c).
    Only the SMB2 levels are modelled. */
module Oplock {

  import opened Basics

  datatype Level = NoOplock | LevelII | Exclusive | Batch

  /** A lease state: the READ (0x1), HANDLE (0x2) and WRITE (0x4) caching bits. */
  datatype Caching = Caching(r: bool, h: bool, w: bool) {
    ghost predicate Within(c: Caching) {
      (r ==> c.r) && (h ==> c.h) && (w ==> c.w)
    }

    ghost function Bits(): nat {
      (if r then 1 else 0) + (if h then 1 else 0) + (if w then 1 else 0)
    }
  }

  const NOTHING := Caching(false, false, false)
  const R := Caching(true, false, false)
  const RH := Caching(true, true, false)
  const RW := Caching(true, false, true)
  const RWH := Caching(true, true, true)
  const HANDLE_ONLY := Caching(false, true, false)

  datatype OpState = Idle | AckWait | Closing

  /** What one `oplock_info` holds; `state` and `newState` are those of its lease. */
  datatype Op = Op(isLease: bool, level: Level, state: Caching, newState: Caching,
                   opState: OpState, breaking: nat, trunc: bool)

  /** The level a client names when it acknowledges a plain oplock break. */
  datatype AckLevel = AckNone | AckII | AckOther

  datatype Change = NoChange | WriteToRead | ReadHandleToRead | WriteToNone | ReadToNone

  predicate IsWrite(level: Level) {
    level.Exclusive? || level.Batch?
  }

  // ---- Granting ----

  function LevelOf(c: Caching): Level {
    if c == RWH then Batch
    else if c == RW then Exclusive
    else if c.r && !c.w then LevelII
    else NoOplock
  }

  /** A fresh `oplock_info` after set_oplock_level. */
  function Granted(isLease: bool, level: Level, req: Caching): Op {
    var state :=
      if !isLease || level.NoOplock? then NOTHING
      else if level.LevelII? then Caching(true, req.h, false)
      else req;
    Op(isLease, level, state, NOTHING, Idle, 0, false)
  }

  /** What an opener that found another holder asks set_oplock_level for. */
  function Stacked(isLease: bool, level: Level, req: Caching, prevLease: bool, prevState: Caching): Op {
    if isLease && !prevLease then Granted(true, LevelII, R)
    else if level.NoOplock? || (prevLease && !isLease && prevState.h) then Granted(isLease, NoOplock, req)
    else Granted(isLease, LevelII, req)
  }

  /** What becomes of an open. */
  datatype Decision = GrantNow(o: Op) | RefuseOpen | BreakHead

  /** smb_grant_oplock up to the break of a writer: `head` is the newest opinfo of the inode. */
  function Decide(head: Option<Op>, isLease: bool, level: Level, req: Caching, attrOnly: bool,
                  shareError: bool): Decision {
    match head
    case None => GrantNow(Granted(isLease, level, req))
    case Some(h) =>
      if attrOnly then GrantNow(Granted(isLease, NoOplock, req))
      else if shareError && (h.level.Exclusive? || !IsWrite(h.level)) then RefuseOpen
      else if IsWrite(h.level) then BreakHead
      else GrantNow(Stacked(isLease, level, req, h.isLease, h.state))
  }

  /** smb_grant_oplock after the break of a holder that was, or was not, closed meanwhile. */
  function Resolve(closed: bool, isLease: bool, level: Level, req: Caching, prevLease: bool, prevState: Caching,
                   shareError: bool): Decision {
    if closed then GrantNow(Granted(isLease, level, req))
    else if shareError then RefuseOpen
    else GrantNow(Stacked(isLease, level, req, prevLease, prevState))
  }

  // ---- Breaking ----

  function Offered(c: Caching, trunc: bool): Caching {
    if trunc then NOTHING
    else if c.w then Caching(true, c.h, false)
    else if c.h then R
    else NOTHING
  }

  predicate AckNeeded(o: Op) {
    if o.isLease then o.state != R && (o.trunc ==> o.state.w) else IsWrite(o.level)
  }

  function Enter(o: Op): Op {
    if o.isLease && o.state != R then o.(breaking := o.breaking + 1) else o
  }

  function Offer(o: Op): Op {
    if o.isLease then
      o.(newState := Offered(o.state, o.trunc),
         opState := if o.state.w || o.state.h then AckWait else o.opState)
    else o.(opState := if IsWrite(o.level) then AckWait else o.opState)
  }

  /** The downgrade made at once when no acknowledgement is awaited. */
  function Unacked(o: Op): Op {
    if o.isLease then (if o.state == R then o.(level := NoOplock, state := NOTHING) else o)
    else if o.level.LevelII? then o.(level := NoOplock)
    else o
  }

  function TimedOut(o: Op): Op {
    o.(level := NoOplock, state := if o.isLease then NOTHING else o.state, opState := Idle)
  }

  function Closed(o: Op): Op {
    if o.opState.AckWait? then o.(opState := Closing, breaking := if o.isLease then 0 else o.breaking) else o
  }

  // ---- Acknowledging ----

  predicate Applies(o: Op, c: Change) {
    match c
    case WriteToRead => IsWrite(o.level)
    case WriteToNone => IsWrite(o.level)
    case ReadToNone => o.level.LevelII?
    case ReadHandleToRead => true
    case NoChange => false
  }

  /** opinfo_write_to_read, opinfo_read_handle_to_read, opinfo_write_to_none, opinfo_read_to_none. */
  function Apply(o: Op, c: Change): Op {
    if !Applies(o, c) then o
    else o.(level := if c.WriteToRead? || c.ReadHandleToRead? then LevelII else NoOplock,
            state := if o.isLease || c.ReadHandleToRead? then o.newState else o.state)
  }

  predicate PlainAckTaken(o: Op) {
    !o.level.NoOplock? && !o.opState.Idle?
  }

  function PlainAck(o: Op, a: AckLevel): Op {
    if !PlainAckTaken(o) then o
    else
      var c := if o.level.LevelII? then ReadToNone else if a.AckII? then WriteToRead else WriteToNone;
      Apply(o, c).(opState := Idle)
  }

  predicate LeaseFound(o: Op) {
    o.isLease && o.opState.AckWait? && (o.state.h || o.state.w)
  }

  predicate LeaseStateOk(offered: Caching, a: Caching) {
    offered == a || (offered == RH && !a.w)
  }

  predicate LeaseAckTaken(o: Op, a: Caching) {
    LeaseFound(o) && LeaseStateOk(o.newState, a) && o.breaking > 0
  }

  function LeaseChange(o: Op, a: Caching): Change {
    if a.w || (o.state == R && a != NOTHING) || a == NOTHING then
      (if o.state.w then WriteToNone else ReadToNone)
    else if a.r then (if o.state.w then WriteToRead else ReadHandleToRead)
    else NoChange
  }

  function LeaseAck(o: Op, a: Caching): Op {
    if !LeaseFound(o) || !LeaseStateOk(o.newState, a) then o
    else if o.breaking == 0 then o.(newState := a)
    else Apply(o.(newState := a), LeaseChange(o, a)).(opState := Idle, breaking := o.breaking - 1)
  }

  // ---- Level/state agreement of one lease, and what every change does to it ----

  ghost predicate Agrees(o: Op) {
    o.isLease ==>
      && (o.level.Batch? <==> o.state.w && o.state.h)
      && (o.level.Exclusive? <==> o.state.w && !o.state.h)
      && (o.level.LevelII? <==> o.state.r && !o.state.w)
      && (o.level.NoOplock? <==> o.state == NOTHING)
      && (o.state.w || o.state.h ==> o.state.r)
  }

  /** Agreement, strengthened to be inductive: an awaited offer is a strict part of the state. */
  ghost predicate LeaseOk(o: Op) {
    && Agrees(o)
    && (o.isLease ==> !o.newState.w)
    && (o.isLease && o.opState.AckWait? ==>
          (o.state.w || o.state.h) && o.newState.Within(o.state) && o.newState != o.state)
  }

  /** The one lease acknowledgement that is accepted and yet changes nothing. */
  ghost predicate HandleOnlyAck(o: Op, a: Caching) {
    LeaseAckTaken(o, a) && a == HANDLE_ONLY
  }

  lemma GrantsAgree(isLease: bool, level: Level, req: Caching, prevLease: bool, prevState: Caching)
    requires isLease ==> level == LevelOf(req)
    ensures LeaseOk(Granted(isLease, level, req))
    ensures LeaseOk(Granted(isLease, NoOplock, req))
    ensures LeaseOk(Stacked(isLease, level, req, prevLease, prevState))
    ensures !IsWrite(Stacked(isLease, level, req, prevLease, prevState).level)
  {
  }

  lemma BreaksAgree(o: Op, trunc: bool)
    requires LeaseOk(o)
    ensures !(o.isLease && o.opState.AckWait?) ==> LeaseOk(Offer(Enter(o.(trunc := trunc))))
    ensures LeaseOk(Enter(o.(trunc := trunc)))
    ensures LeaseOk(Unacked(o)) && LeaseOk(TimedOut(o)) && LeaseOk(Closed(o))
  {
  }

  /** Every lease acknowledgement keeps agreement. An accepted one leaves the lease exactly in the
      acknowledged state, strictly below the old state and within the offer; any other leaves level
      and state alone. HANDLE alone is the one accepted value that changes neither. */
  lemma LeaseAckExact(o: Op, a: Caching)
    requires LeaseOk(o)
    ensures var n := LeaseAck(o, a);
            && LeaseOk(n)
            && (!LeaseAckTaken(o, a) || a == HANDLE_ONLY ==> n.state == o.state && n.level == o.level)
            && (LeaseAckTaken(o, a) ==>
                  && (n.state == a <==> a != HANDLE_ONLY)
                  && (a != HANDLE_ONLY ==>
                        a.Within(o.newState) && a.Within(o.state) && a != o.state && a.Bits() < o.state.Bits())
                  && n.opState == Idle && n.breaking == o.breaking - 1)
  {
  }

  /** A plain acknowledgement sent to a lease fits the offer: LEVEL_II names the read caching offered to
      a lease that caches writes, anything else the nothing offered. */
  ghost predicate PlainAckFits(o: Op, a: AckLevel) {
    if a.AckII? && IsWrite(o.level) then o.newState.r else o.newState == NOTHING
  }

  /** A plain acknowledgement keeps agreement exactly when it fits the offer. */
  lemma PlainAckExact(o: Op, a: AckLevel)
    requires LeaseOk(o)
    ensures var n := PlainAck(o, a);
            && (Agrees(n) <==> (o.isLease && PlainAckTaken(o) ==> PlainAckFits(o, a)))
            && (Agrees(n) ==> LeaseOk(n))
            && (PlainAckTaken(o) ==> !IsWrite(n.level) && n.opState == Idle)
  {
  }
}
