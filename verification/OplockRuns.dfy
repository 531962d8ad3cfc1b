/** One inode as a state machine: opens, breaks, acknowledgements, timeouts and closes in any
    order. Grants are serialised (one open at a time is between its start and its grant); breaks
    started by writers, truncating opens and lock requests run concurrently with it and with each other.
    Lease keys of the opens are pairwise distinct. */
module OplockRuns {
  import opened Basics
  import opened Oplock

  /** Where a thread inside smb_send_oplock_break_notification is. */
  datatype Phase = PreWait | WaitAck | WaitBrk | Finish

  datatype Breaker = Breaker(target: nat, phase: Phase)

  datatype Request = Request(isLease: bool, level: Level, caching: Caching, attrOnly: bool, shareError: bool)

  /** An open that is waiting for the break it started. */
  datatype Pending = Pending(id: nat, req: Request, breaker: nat, prevLease: bool, prevState: Caching)

  datatype Inode = Inode(ops: map<nat, Op>, list: seq<nat>, breakers: map<nat, Breaker>, pending: Option<Pending>)

  datatype Event =
    | Open(id: nat, req: Request, bid: nat)
    | BreakStart(bid: nat, id: nat, trunc: bool)
    | BreakStep(bid: nat)
    | BreakTimeout(bid: nat)
    | AckPlain(id: nat, ack: AckLevel)
    | AckLease(id: nat, caching: Caching)
    | Close(id: nat)

  const EMPTY := Inode(map[], [], map[], None)

  function ReqLevel(req: Request): Level {
    if req.isLease then LevelOf(req.caching) else req.level
  }

  function Add(s: Inode, id: nat, o: Op): Inode {
    s.(ops := s.ops[id := o], list := [id] + s.list)
  }

  function Full(req: Request): Op {
    Granted(req.isLease, ReqLevel(req), req.caching)
  }

  function Shared(req: Request, prevLease: bool, prevState: Caching): Op {
    Stacked(req.isLease, ReqLevel(req), req.caching, prevLease, prevState)
  }

  function SetOp(s: Inode, id: nat, o: Op): Inode {
    s.(ops := s.ops[id := o])
  }

  function SetPhase(s: Inode, bid: nat, b: Breaker): Inode {
    s.(breakers := s.breakers[bid := b])
  }

  /** Send the offer, then wait for the acknowledgement or go straight on. */
  function MakeOffer(s: Inode, bid: nat, id: nat, o: Op): Inode {
    if AckNeeded(o) then SetPhase(SetOp(s, id, Offer(o)), bid, Breaker(id, WaitAck))
    else SetPhase(SetOp(s, id, Unacked(Offer(o))), bid, Breaker(id, Finish))
  }

  function StartBreak(s: Inode, bid: nat, id: nat, o: Op): Inode {
    if o.isLease && o.opState.AckWait? then SetPhase(SetOp(s, id, Enter(o)), bid, Breaker(id, PreWait))
    else MakeOffer(s, bid, id, Enter(o))
  }

  /** The end of smb_send_oplock_break_notification, and of the open that called it. */
  function EndBreak(s: Inode, bid: nat, id: nat, o: Op): Inode {
    var closing := o.opState.Closing?;
    var t := SetOp(s, id, if closing then o.(opState := Idle) else o).(breakers := s.breakers - {bid});
    if s.pending.None? || s.pending.value.breaker != bid then t
    else
      var p := s.pending.value;
      var u := t.(pending := None);
      match Resolve(closing, p.req.isLease, ReqLevel(p.req), p.req.caching, p.prevLease, p.prevState, p.req.shareError)
      case GrantNow(n) => Add(u, p.id, n)
      case _ => u
  }

  function OpenStep(s: Inode, id: nat, req: Request, bid: nat): Inode {
    if s.pending.Some? || id in s.ops || bid in s.breakers || (s.list != [] && s.list[0] !in s.ops) then s
    else
      var head := if s.list == [] then None else Some(s.ops[s.list[0]]);
      match Decide(head, req.isLease, ReqLevel(req), req.caching, req.attrOnly, req.shareError)
      case GrantNow(n) => Add(s, id, n)
      case RefuseOpen => s
      case BreakHead =>
        if head.None? then s
        else
          var h := head.value;
          StartBreak(s, bid, s.list[0], h).(pending := Some(Pending(id, req, bid, h.isLease, h.state)))
  }

  /** smb_break_all_levII_oplock breaks any level II holder; smb_break_all_write_oplock only the head. */
  predicate Breakable(s: Inode, id: nat, o: Op) {
    || (o.level.LevelII? && !(o.isLease && (o.state.w || (o.newState == NOTHING && o.breaking > 0))))
    || (IsWrite(o.level) && s.list != [] && s.list[0] == id)
  }

  function Next(s: Inode, e: Event): Inode {
    match e
    case Open(id, req, bid) => OpenStep(s, id, req, bid)
    case BreakStart(bid, id, trunc) =>
      if bid in s.breakers || id !in s.list || id !in s.ops || !Breakable(s, id, s.ops[id]) then s
      else StartBreak(s, bid, id, s.ops[id].(trunc := trunc))
    case BreakStep(bid) =>
      if bid !in s.breakers || s.breakers[bid].target !in s.ops then s
      else
        var b := s.breakers[bid];
        var o := s.ops[b.target];
        if b.phase.Finish? then EndBreak(s, bid, b.target, o)
        else if b.phase.WaitBrk? then
          (if o.breaking > 0 then s else SetPhase(s, bid, b.(phase := Finish)))
        else if o.opState.AckWait? then s
        else if b.phase.PreWait? then MakeOffer(s, bid, b.target, o.(trunc := false))
        else SetPhase(s, bid, b.(phase := if o.isLease then WaitBrk else Finish))
    case BreakTimeout(bid) =>
      if bid !in s.breakers || s.breakers[bid].target !in s.ops then s
      else
        var b := s.breakers[bid];
        var o := s.ops[b.target];
        if b.phase.Finish? then s
        else if b.phase.WaitBrk? then
          (if o.breaking == 0 then s
           else SetPhase(SetOp(s, b.target, o.(breaking := 0)), bid, b.(phase := Finish)))
        else if !o.opState.AckWait? then s
        else if b.phase.PreWait? then MakeOffer(s, bid, b.target, TimedOut(o).(trunc := false))
        else SetPhase(SetOp(s, b.target, TimedOut(o)), bid, b.(phase := if o.isLease then WaitBrk else Finish))
    case AckPlain(id, ack) =>
      if id !in s.list || id !in s.ops then s else SetOp(s, id, PlainAck(s.ops[id], ack))
    case AckLease(id, c) =>
      if id !in s.list || id !in s.ops then s else SetOp(s, id, LeaseAck(s.ops[id], c))
    case Close(id) =>
      if id !in s.list || id !in s.ops then s
      else SetOp(s, id, Closed(s.ops[id])).(list := Without(s.list, id))
  }

  function Run(s: Inode, es: seq<Event>): Inode
    decreases |es|
  {
    if es == [] then s else Run(Next(s, es[0]), es[1..])
  }

  // ---- Single writer ----

  ghost predicate Writer(s: Inode, id: nat) {
    id in s.list && id in s.ops && IsWrite(s.ops[id].level)
  }

  /** A holder of an exclusive or batch level is the only opinfo on the list. */
  ghost predicate SingleWriter(s: Inode) {
    forall id: nat :: Writer(s, id) ==> s.list == [id]
  }

  ghost predicate WellFormed(s: Inode) {
    && (forall id :: id in s.list ==> id in s.ops && !s.ops[id].opState.Closing?)
    && (forall bid :: bid in s.breakers ==> s.breakers[bid].target in s.ops)
    && (forall id :: id in s.ops && s.ops[id].isLease && IsWrite(s.ops[id].level) ==> s.ops[id].state.w)
  }

  /** A holder that is still a writer does not get in the way of the open that waits for it: the open
      will be refused anyway, or the offer is still to be made, or it has not been answered. */
  ghost predicate Harmless(req: Request, phase: Phase, o: Op) {
    req.shareError || phase.PreWait? || (phase.WaitAck? && o.opState.AckWait?)
  }

  /** What the waiting open relies on: only its holder can be listed, and a holder that is still a
      writer is harmless. */
  ghost predicate PendingOk(s: Inode) {
    s.pending.Some? ==>
      var p := s.pending.value;
      && p.breaker in s.breakers
      && p.id !in s.ops
      && var b := s.breakers[p.breaker];
      && (forall i :: i in s.list ==> i == b.target)
      && |s.list| <= 1
      && (Writer(s, b.target) ==> Harmless(p.req, b.phase, s.ops[b.target]))
  }

  ghost predicate Inv(s: Inode) {
    WellFormed(s) && SingleWriter(s) && PendingOk(s)
  }

  /** An answer that changes nothing does no harm: the open is to be refused, or the answer is to an
      earlier offer. */
  ghost predicate AnswerHarmless(s: Inode, p: Pending) {
    p.req.shareError || (p.breaker in s.breakers && s.breakers[p.breaker].phase.PreWait?)
  }

  /** Exactly the events after which single writer cannot be lost without another such event: an
      attribute-only open must not find a writer, and a holder must not answer the offer made for an
      open that is to be granted with HANDLE caching alone. */
  ghost predicate InScope(s: Inode, e: Event) {
    match e
    case Open(id, req, bid) =>
      s.pending.None? && id !in s.ops && bid !in s.breakers && s.list != [] && req.attrOnly ==>
        !Writer(s, s.list[0])
    case AckLease(id, c) =>
      s.pending.Some? && id in s.list && id in s.ops && HandleOnlyAck(s.ops[id], c) && Writer(s, id) ==>
        AnswerHarmless(s, s.pending.value)
    case _ => true
  }

  /** Changing one opinfo, or moving its breaker too, keeps the invariant if no writer appears and
      the holder a pending open waits for stays unanswered while it is a writer. */
  lemma OpKeeps(s: Inode, id: nat, o: Op)
    requires Inv(s) && id in s.ops
    requires IsWrite(o.level) ==> IsWrite(s.ops[id].level)
    requires o.isLease && IsWrite(o.level) ==> o.state.w
    requires id in s.list ==> !o.opState.Closing?
    requires s.pending.Some? && Writer(s, id) && IsWrite(o.level) ==>
               o.opState.AckWait? || AnswerHarmless(s, s.pending.value)
    ensures Inv(SetOp(s, id, o))
  {
    assert forall i: nat :: Writer(SetOp(s, id, o), i) ==> Writer(s, i);
  }

  lemma ChangeKeeps(s: Inode, id: nat, o: Op, bid: nat, b: Breaker)
    requires Inv(s) && id in s.ops && b.target == id
    requires bid in s.breakers ==> s.breakers[bid].target == id
    requires IsWrite(o.level) ==> IsWrite(s.ops[id].level)
    requires o.isLease && IsWrite(o.level) ==> o.state.w
    requires id in s.list ==> !o.opState.Closing?
    requires s.pending.Some? && Writer(s, id) && IsWrite(o.level) ==>
               if bid == s.pending.value.breaker then Harmless(s.pending.value.req, b.phase, o)
               else o.opState.AckWait? || AnswerHarmless(s, s.pending.value)
    ensures Inv(SetPhase(SetOp(s, id, o), bid, b))
  {
    assert forall i: nat :: Writer(SetPhase(SetOp(s, id, o), bid, b), i) ==> Writer(s, i);
  }

  lemma OfferKeeps(s: Inode, bid: nat, id: nat, o: Op)
    requires Inv(s) && id in s.ops
    requires bid in s.breakers ==> s.breakers[bid].target == id
    requires o.level == s.ops[id].level || o.level.NoOplock?
    requires o.isLease && IsWrite(o.level) ==> o.state.w
    requires id in s.list ==> !o.opState.Closing?
    ensures Inv(MakeOffer(s, bid, id, o))
    ensures Writer(MakeOffer(s, bid, id, o), id) ==>
              var t := MakeOffer(s, bid, id, o); t.breakers[bid].phase.WaitAck? && t.ops[id].opState.AckWait?
  {
    if AckNeeded(o) {
      ChangeKeeps(s, id, Offer(o), bid, Breaker(id, WaitAck));
    } else {
      ChangeKeeps(s, id, Unacked(Offer(o)), bid, Breaker(id, Finish));
    }
  }

  lemma StartKeeps(s: Inode, bid: nat, id: nat, o: Op)
    requires Inv(s) && id in s.ops && bid !in s.breakers
    requires o == s.ops[id].(trunc := o.trunc)
    requires s.pending.Some? ==> bid != s.pending.value.breaker
    ensures var t := StartBreak(s, bid, id, o);
            && Inv(t) && t.list == s.list && t.pending == s.pending && t.ops.Keys == s.ops.Keys
            && bid in t.breakers && t.breakers[bid].target == id
            && (Writer(t, id) ==> !t.breakers[bid].phase.WaitBrk? && !t.breakers[bid].phase.Finish?
                                  && t.ops[id].opState.AckWait?)
  {
    if o.isLease && o.opState.AckWait? {
      ChangeKeeps(s, id, Enter(o), bid, Breaker(id, PreWait));
    } else {
      OfferKeeps(s, bid, id, Enter(o));
    }
  }

  lemma AddKeeps(s: Inode, id: nat, o: Op)
    requires Inv(s) && s.pending.None? && id !in s.ops && o.opState.Idle?
    requires IsWrite(o.level) ==> s.list == []
    requires o.isLease && IsWrite(o.level) ==> o.state.w
    ensures Inv(Add(s, id, o)) <==> forall i: nat :: !Writer(s, i)
  {
    var t := Add(s, id, o);
    assert forall i :: i in t.list <==> i == id || i in s.list;
    forall i: nat | Writer(s, i)
      ensures !Inv(t)
    {
      assert Writer(t, i) && t.list[1] == i;
    }
    if forall i: nat :: !Writer(s, i) {
      assert forall i: nat :: i != id && Writer(t, i) ==> Writer(s, i);
    }
  }

  /** An open starts to wait for the break of the only opinfo on the list. */
  lemma WaitKeeps(s: Inode, first: nat, p: Pending)
    requires Inv(s) && s.pending.None? && s.list == [first] && p.id !in s.ops
    requires p.breaker in s.breakers && s.breakers[p.breaker].target == first
    requires Writer(s, first) ==> Harmless(p.req, s.breakers[p.breaker].phase, s.ops[first])
    ensures Inv(s.(pending := Some(p)))
  {
    assert forall i: nat :: Writer(s.(pending := Some(p)), i) ==> Writer(s, i);
  }

  lemma OpenKeeps(s: Inode, id: nat, req: Request, bid: nat)
    requires Inv(s)
    ensures Inv(OpenStep(s, id, req, bid)) <==> InScope(s, Open(id, req, bid))
  {
    if s.pending.None? && id !in s.ops && bid !in s.breakers {
      if s.list == [] {
        AddKeeps(s, id, Full(req));
      } else {
        var first := s.list[0];
        assert first in s.list;
        var head := s.ops[first];
        if req.attrOnly {
          AddKeeps(s, id, Granted(req.isLease, NoOplock, req.caching));
        } else if !IsWrite(head.level) {
          AddKeeps(s, id, Shared(req, head.isLease, head.state));
        } else {
          assert Writer(s, first);
          StartKeeps(s, bid, first, head);
          WaitKeeps(StartBreak(s, bid, first, head), first, Pending(id, req, bid, head.isLease, head.state));
        }
      }
    }
  }

  /** A finished break leaves the inode to the open that waited for it, with no writer left if that open
      is to be granted. */
  lemma BreakEnds(s: Inode, bid: nat, id: nat, o: Op) returns (u: Inode)
    requires Inv(s) && bid in s.breakers && s.breakers[bid] == Breaker(id, Finish) && o == s.ops[id]
    requires s.pending.Some? && s.pending.value.breaker == bid
    ensures var n := if o.opState.Closing? then o.(opState := Idle) else o;
            u == SetOp(s, id, n).(breakers := s.breakers - {bid}, pending := None)
    ensures Inv(u) && (o.opState.Closing? ==> u.list == [])
    ensures !s.pending.value.req.shareError ==> forall i: nat :: !Writer(u, i)
  {
    var n := if o.opState.Closing? then o.(opState := Idle) else o;
    u := SetOp(s, id, n).(breakers := s.breakers - {bid}, pending := None);
    assert forall i: nat :: Writer(u, i) ==> Writer(s, i);
    assert s.list != [] ==> s.list[0] in s.list;
  }

  lemma EndPendingKeeps(s: Inode, bid: nat, id: nat, o: Op)
    requires Inv(s) && bid in s.breakers && s.breakers[bid] == Breaker(id, Finish) && o == s.ops[id]
    requires s.pending.Some? && s.pending.value.breaker == bid
    ensures Inv(EndBreak(s, bid, id, o))
  {
    var p := s.pending.value;
    var u := BreakEnds(s, bid, id, o);
    var n := if o.opState.Closing? then Full(p.req) else Shared(p.req, p.prevLease, p.prevState);
    AddKeeps(u, p.id, n);
    assert EndBreak(s, bid, id, o) == if o.opState.Closing? || !p.req.shareError then Add(u, p.id, n) else u;
  }

  lemma EndOtherKeeps(s: Inode, bid: nat, id: nat, o: Op)
    requires Inv(s) && bid in s.breakers && s.breakers[bid] == Breaker(id, Finish) && o == s.ops[id]
    requires s.pending.None? || s.pending.value.breaker != bid
    ensures Inv(EndBreak(s, bid, id, o))
  {
    var n := if o.opState.Closing? then o.(opState := Idle) else o;
    OpKeeps(s, id, n);
    assert forall i: nat :: Writer(SetOp(s, id, n).(breakers := s.breakers - {bid}), i) ==> Writer(s, i);
  }

  lemma EndKeeps(s: Inode, bid: nat)
    requires Inv(s) && bid in s.breakers && s.breakers[bid].phase.Finish?
    ensures Inv(EndBreak(s, bid, s.breakers[bid].target, s.ops[s.breakers[bid].target]))
  {
    var id := s.breakers[bid].target;
    if s.pending.Some? && s.pending.value.breaker == bid {
      EndPendingKeeps(s, bid, id, s.ops[id]);
    } else {
      EndOtherKeeps(s, bid, id, s.ops[id]);
    }
  }

  lemma CloseKeeps(s: Inode, id: nat)
    requires Inv(s) && id in s.list
    ensures Inv(Next(s, Close(id)))
  {
  }

  lemma NextKeeps(s: Inode, e: Event)
    requires Inv(s)
    ensures Inv(Next(s, e)) <==> InScope(s, e)
  {
    match e
    case Open(id, req, bid) => OpenKeeps(s, id, req, bid);
    case BreakStart(bid, id, trunc) =>
      if bid !in s.breakers && id in s.list {
        StartKeeps(s, bid, id, s.ops[id].(trunc := trunc));
      }
    case BreakStep(bid) => StepKeeps(s, bid);
    case BreakTimeout(bid) => TimeoutKeeps(s, bid);
    case AckPlain(id, ack) =>
      if id in s.list {
        OpKeeps(s, id, PlainAck(s.ops[id], ack));
      }
    case AckLease(id, c) => LeaseAckKeeps(s, id, c);
    case Close(id) =>
      if id in s.list {
        CloseKeeps(s, id);
      }
  }

  lemma StepKeeps(s: Inode, bid: nat)
    requires Inv(s)
    ensures Inv(Next(s, BreakStep(bid)))
  {
    if bid in s.breakers {
      var b := s.breakers[bid];
      var o := s.ops[b.target];
      if b.phase.Finish? {
        EndKeeps(s, bid);
      } else if b.phase.PreWait? && !o.opState.AckWait? {
        OfferKeeps(s, bid, b.target, o.(trunc := false));
      } else {
        var f := if b.phase.WaitAck? && o.isLease then WaitBrk else Finish;
        if (b.phase.WaitBrk? && o.breaking == 0) || (b.phase.WaitAck? && !o.opState.AckWait?) {
          ChangeKeeps(s, b.target, o, bid, b.(phase := f));
          assert SetOp(s, b.target, o) == s;
        }
      }
    }
  }

  lemma TimeoutKeeps(s: Inode, bid: nat)
    requires Inv(s)
    ensures Inv(Next(s, BreakTimeout(bid)))
  {
    if bid in s.breakers {
      var b := s.breakers[bid];
      var o := s.ops[b.target];
      if b.phase.PreWait? && o.opState.AckWait? {
        OfferKeeps(s, bid, b.target, TimedOut(o).(trunc := false));
      } else if b.phase.WaitAck? && o.opState.AckWait? {
        ChangeKeeps(s, b.target, TimedOut(o), bid, b.(phase := if o.isLease then WaitBrk else Finish));
      } else if b.phase.WaitBrk? && o.breaking > 0 {
        ChangeKeeps(s, b.target, o.(breaking := 0), bid, b.(phase := Finish));
      }
    }
  }

  lemma LeaseAckKeeps(s: Inode, id: nat, c: Caching)
    requires Inv(s)
    ensures Inv(Next(s, AckLease(id, c))) <==> InScope(s, AckLease(id, c))
  {
    if id in s.list {
      var o := s.ops[id];
      var n := LeaseAck(o, c);
      assert !(LeaseAckTaken(o, c) && c == HANDLE_ONLY) ==> !IsWrite(n.level) || n.opState == o.opState;
      if s.pending.Some? && Writer(s, id) && HandleOnlyAck(o, c) {
        assert Writer(SetOp(s, id, n), id);
      } else {
        OpKeeps(s, id, n);
      }
    }
  }

  ghost predicate RunInScope(s: Inode, es: seq<Event>)
    decreases |es|
  {
    es == [] || (InScope(s, es[0]) && RunInScope(Next(s, es[0]), es[1..]))
  }

  /** Single writer: in every run, whatever breaks, acknowledgements, timeouts and closes interleave
      with the serialised opens, a holder of an exclusive or batch level is alone on the list. */
  lemma {:induction false} SingleWriterAlways(s: Inode, es: seq<Event>)
    requires Inv(s) && RunInScope(s, es)
    ensures SingleWriter(Run(s, es)) && Inv(Run(s, es))
    decreases |es|
  {
    if es == [] {
    } else {
      NextKeeps(s, es[0]);
      SingleWriterAlways(Next(s, es[0]), es[1..]);
    }
  }

  /** A holder that closes instead of answering leaves the list to the waiting open, which is then
      granted the full level and lease state it asked for. */
  lemma CloseDuringBreak(s: Inode, id: nat)
    requires Inv(s) && s.pending.Some? && id in s.list && s.ops[id].opState.AckWait?
    requires s.breakers[s.pending.value.breaker] == Breaker(id, WaitAck)
    ensures var p := s.pending.value;
            var step := BreakStep(p.breaker);
            var t := Next(Next(Next(Next(s, Close(id)), step), step), step);
            t.list == [p.id] && t.ops[p.id] == Full(p.req) && t.pending.None?
  {
    var bid := s.pending.value.breaker;
    var s1 := Next(s, Close(id));
    assert s.list == [id] && s1.list == Without(s.list[1..], id) == [];
    var s2 := Next(s1, BreakStep(bid));
    if s.ops[id].isLease {
      assert Next(s2, BreakStep(bid)) == SetPhase(s2, bid, Breaker(id, Finish));
    }
  }

  /** The scope in terms of what clients send, without looking at the state. */
  lemma {:induction false} PlainScope(s: Inode, es: seq<Event>)
    requires forall e :: e in es ==> (e.Open? ==> !e.req.attrOnly) && (e.AckLease? ==> e.caching != HANDLE_ONLY)
    ensures RunInScope(s, es)
    decreases |es|
  {
    if es == [] {
    } else {
      assert es[0] in es;
      PlainScope(Next(s, es[0]), es[1..]);
    }
  }

  /** From an inode nobody has open, with no attribute-only opens and no acknowledgements of HANDLE caching
      alone, no run ever has a second opinfo beside a writer. */
  lemma SingleWriterFromStart(es: seq<Event>)
    requires forall e :: e in es ==> (e.Open? ==> !e.req.attrOnly) && (e.AckLease? ==> e.caching != HANDLE_ONLY)
    ensures SingleWriter(Run(EMPTY, es))
  {
    PlainScope(EMPTY, es);
    SingleWriterAlways(EMPTY, es);
  }

  /** An answer of HANDLE alone leaves the holder a writer, and lets the break end. */
  lemma HandleOnlyEnds(s: Inode, id: nat, b: nat) returns (last: Event)
    requires id in s.ops && b in s.breakers && s.breakers[b] == Breaker(id, WaitAck)
    requires s.ops[id].isLease && s.ops[id].opState.Idle?
    ensures last == BreakStep(b) || last == BreakTimeout(b)
    ensures Next(Next(s, BreakStep(b)), last) ==
              SetPhase(SetOp(s, id, s.ops[id].(breaking := 0)), b, Breaker(id, Finish))
  {
    var s2 := SetPhase(s, b, Breaker(id, WaitBrk));
    assert s2 == Next(s, BreakStep(b));
    last := if s.ops[id].breaking == 0 then BreakStep(b) else BreakTimeout(b);
    var t := SetPhase(SetOp(s, id, s.ops[id].(breaking := 0)), b, Breaker(id, Finish));
    assert Next(s2, last).ops == t.ops && Next(s2, last).breakers == t.breakers;
  }

  /** A break that ended grants the waiting open beside a holder that is still a writer. */
  lemma GrantsBeside(s: Inode, id: nat, p: Pending)
    requires s.pending == Some(p) && p.breaker in s.breakers && s.breakers[p.breaker] == Breaker(id, Finish)
    requires Writer(s, id) && s.list == [id] && p.id != id && !s.ops[id].opState.Closing? && !p.req.shareError
    ensures !SingleWriter(Next(s, BreakStep(p.breaker)))
  {
    var t := Next(s, BreakStep(p.breaker));
    assert t.list == [p.id, id] && Writer(t, id);
  }

  /** Why HANDLE alone is excluded: whenever the holder answers the offer made for an open that is to be
      granted so, three more steps grant that open beside a holder that still caches writes. */
  lemma HandleOnlyBreaks(s: Inode, id: nat, c: Caching) returns (es: seq<Event>)
    requires Inv(s) && !InScope(s, AckLease(id, c))
    ensures |es| == 3 && !SingleWriter(Run(Next(s, AckLease(id, c)), es))
    ensures forall i :: 0 <= i < |es| ==> es[i].BreakStep? || es[i].BreakTimeout?
  {
    var p, step := s.pending.value, BreakStep(s.pending.value.breaker);
    var s1 := SetOp(s, id, LeaseAck(s.ops[id], c));
    assert s1 == Next(s, AckLease(id, c));
    var last := HandleOnlyEnds(s1, id, p.breaker);
    var s3 := SetPhase(SetOp(s1, id, s1.ops[id].(breaking := 0)), p.breaker, Breaker(id, Finish));
    GrantsBeside(s3, id, p);
    es := [step, last, step];
    RunThree(s1, step, last, step);
  }

  lemma RunThree(s: Inode, a: Event, b: Event, c: Event)
    ensures Run(s, [a, b, c]) == Next(Next(Next(s, a), b), c)
  {
    assert [a, b, c][1..] == [b, c] && [b, c][1..] == [c] && [c][1..] == [];
    var t := Next(Next(s, a), b);
    assert Run(Next(s, a), [b, c]) == Run(t, [c]) == Run(Next(t, c), []);
  }

  /** The scope is exact for single writer itself: an event in scope keeps the invariant, and after one out
      of scope at most three more steps, none of them a client's doing, lose single writer. */
  lemma ScopeIsExact(s: Inode, e: Event) returns (es: seq<Event>)
    requires Inv(s)
    ensures InScope(s, e) ==> Inv(Next(s, e)) && SingleWriter(Next(s, e))
    ensures !InScope(s, e) ==> |es| <= 3 && !SingleWriter(Run(Next(s, e), es))
    ensures forall i :: 0 <= i < |es| ==> es[i].BreakStep? || es[i].BreakTimeout?
  {
    NextKeeps(s, e);
    es := [];
    if !InScope(s, e) {
      if e.AckLease? {
        es := HandleOnlyBreaks(s, e.id, e.caching);
      } else {
        assert Writer(s, s.list[0]) && Next(s, e).list == [e.id] + s.list;
        assert Writer(Next(s, e), s.list[0]);
      }
    }
  }

  lemma SecondOpen(s: Inode, h: Op, req: Request)
    requires h == Granted(true, Batch, RWH) && s == Inode(map[0 := h], [0], map[], None)
    requires req == Request(true, NoOplock, RWH, false, false)
    ensures !InScope(Next(s, Open(1, req, 0)), AckLease(0, HANDLE_ONLY))
  {
    var t := Next(s, Open(1, req, 0));
    assert t == StartBreak(s, 0, 0, h).(pending := Some(Pending(1, req, 0, true, RWH)));
    assert t.list == [0] && t.ops[0].newState == RH && t.ops[0].breaking == 1;
    assert t.breakers[0] == Breaker(0, WaitAck) && Writer(t, 0);
  }

  /** Such a state is reached by two opens: the first holds an RWH lease, the second waits for its break. */
  lemma HandleOnlyReachable(req: Request, es: seq<Event>)
    requires req == Request(true, NoOplock, RWH, false, false) && es == [Open(0, req, 0), Open(1, req, 0)]
    ensures var s := Run(EMPTY, es); Inv(s) && !InScope(s, AckLease(0, HANDLE_ONLY))
  {
    PlainScope(EMPTY, es);
    SingleWriterAlways(EMPTY, es);
    var h := Granted(true, Batch, RWH);
    var s := Inode(map[0 := h], [0], map[], None);
    assert Next(EMPTY, es[0]) == s;
    SecondOpen(s, h, req);
    assert es[1..] == [es[1]] && es[1..][1..] == [];
    assert Run(EMPTY, es) == Run(s, es[1..]) == Run(Next(s, es[1]), es[1..][1..]);
  }

  /** Why an attribute-only open must not find a writer: it becomes the head of the list, so the
      next open sees no writer there and is granted without breaking the one behind it. */
  lemma AttributeOpenHides(s: Inode, w: nat, id: nat, req: Request, bid: nat, id2: nat, req2: Request)
    requires Inv(s) && s.pending.None? && Writer(s, w) && bid !in s.breakers
    requires id !in s.ops && id2 !in s.ops && id != id2 && req.attrOnly && !req2.shareError
    ensures var t := Next(Next(s, Open(id, req, bid)), Open(id2, req2, bid));
            t.list == [id2, id, w] && Writer(t, w) && t.ops[w] == s.ops[w] && t.pending.None?
  {
    assert Next(s, Open(id, req, bid)).list == [id, w];
  }
}
