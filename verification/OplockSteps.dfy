/** What an open is granted, what a holder is offered and what an answer leaves, spelled out: the steps of
    module OplockRuns in terms of levels, caching bits and list positions alone. */
module OplockSteps {
  import opened Basics
  import opened Oplock
  import opened OplockRuns

  /** A lease request that is one of R, RH, RW and RWH, or an oplock request other than NONE. */
  predicate AsksForSome(req: Request) {
    if req.isLease then req.caching in {R, RH, RW, RWH} else req.level != NoOplock
  }

  /** A new opinfo with this level and lease state. */
  ghost predicate NewOp(o: Op, req: Request, level: Level, state: Caching) {
    && o.isLease == req.isLease && o.level == level && o.state == state
    && o.opState == Idle && o.breaking == 0 && !o.trunc && o.newState == NOTHING
  }

  /** The open is put at the head of the list and nothing else changes. */
  ghost predicate PutFirst(s: Inode, t: Inode, id: nat) {
    && t.list == [id] + s.list && id in t.ops && t.breakers == s.breakers && t.pending == s.pending
    && forall i :: i != id ==> (i in t.ops <==> i in s.ops) && (i in s.ops ==> t.ops[i] == s.ops[i])
  }

  /** The grant to an open that shares the file: LEVEL_II for a lease beside a plain holder, which gets R, and
      for an open that asks for something, other than a plain one beside a lease with HANDLE; nothing
      otherwise. */
  ghost predicate SharedGrant(o: Op, req: Request, besideLease: bool, beside: Caching) {
    if req.isLease && !besideLease then NewOp(o, req, LevelII, R)
    else if AsksForSome(req) && !(!req.isLease && besideLease && beside.h) then
      NewOp(o, req, LevelII, if req.isLease then Caching(true, req.caching.h, false) else NOTHING)
    else NewOp(o, req, NoOplock, NOTHING)
  }

  /** The grant to an open that has the file to itself: what it asked for. */
  ghost predicate SoleGrant(o: Op, req: Request) {
    if !req.isLease then NewOp(o, req, req.level, NOTHING)
    else if req.caching == RWH then NewOp(o, req, Batch, RWH)
    else if req.caching == RW then NewOp(o, req, Exclusive, RW)
    else if req.caching == RH || req.caching == R then NewOp(o, req, LevelII, req.caching)
    else NewOp(o, req, NoOplock, NOTHING)
  }

  /** An open that can start: no other one waits, and its identities are new. */
  ghost predicate CanStart(s: Inode, id: nat, bid: nat) {
    s.pending.None? && id !in s.ops && bid !in s.breakers && (s.list != [] ==> s.list[0] in s.ops)
  }

  /** The first open of an inode gets what it asked for. */
  lemma OpenAlone(s: Inode, id: nat, req: Request, bid: nat)
    requires CanStart(s, id, bid) && s.list == []
    ensures var t := Next(s, Open(id, req, bid)); PutFirst(s, t, id) && SoleGrant(t.ops[id], req)
  {
  }

  /** An open of a listed inode: attribute-only opens get nothing; a sharing violation refuses the open unless
      the head has BATCH; without a writer at the head the file is shared; with one, the open waits for its
      break, and remembers whether the head had a lease and what it cached. */
  lemma OpenBeside(s: Inode, id: nat, req: Request, bid: nat, h: Op)
    requires CanStart(s, id, bid) && s.list != [] && h == s.ops[s.list[0]]
    ensures var t := Next(s, Open(id, req, bid));
            if req.attrOnly then PutFirst(s, t, id) && NewOp(t.ops[id], req, NoOplock, NOTHING)
            else if req.shareError && h.level != Batch then t == s
            else if h.level == NoOplock || h.level == LevelII then
              PutFirst(s, t, id) && SharedGrant(t.ops[id], req, h.isLease, h.state)
            else Waits(s, t, id, req, bid, h)
  {
    if req.attrOnly || (req.shareError && h.level != Batch) {
    } else if h.level == NoOplock || h.level == LevelII {
      StackedIs(req, h.isLease, h.state);
    } else {
      OpenWaits(s, id, req, bid, h);
    }
  }

  /** The open waits for the break of the head, and nothing is granted. */
  ghost predicate Waits(s: Inode, t: Inode, id: nat, req: Request, bid: nat, h: Op)
    requires s.list != []
  {
    && t.list == s.list && id !in t.ops && t.pending == Some(Pending(id, req, bid, h.isLease, h.state))
    && bid in t.breakers && t.breakers[bid].target == s.list[0]
  }

  lemma StackedIs(req: Request, besideLease: bool, beside: Caching)
    ensures SharedGrant(Shared(req, besideLease, beside), req, besideLease, beside)
  {
  }

  lemma OpenWaits(s: Inode, id: nat, req: Request, bid: nat, h: Op)
    requires CanStart(s, id, bid) && s.list != [] && h == s.ops[s.list[0]]
    requires !req.attrOnly && !(req.shareError && h.level != Batch) && h.level != NoOplock && h.level != LevelII
    ensures Waits(s, Next(s, Open(id, req, bid)), id, req, bid, h)
  {
    assert s.list[0] in s.ops;
  }

  /** The end of the break an open waited for: if the holder closed, the open gets what it asked for; a
      sharing violation refuses it; otherwise it shares the file with what the holder was when the open came. */
  lemma OpenResumes(s: Inode, id: nat, p: Pending, o: Op)
    requires s.pending == Some(p) && p.breaker in s.breakers && s.breakers[p.breaker] == Breaker(id, Finish)
    requires id in s.ops && o == s.ops[id] && p.id !in s.ops
    ensures var t := Next(s, BreakStep(p.breaker));
            && t.pending == None && p.breaker !in t.breakers && t.ops[id] == o.(opState := t.ops[id].opState)
            && if o.opState.Closing? then t.list == [p.id] + s.list && SoleGrant(t.ops[p.id], p.req)
               else if p.req.shareError then t.list == s.list && p.id !in t.ops
               else t.list == [p.id] + s.list && SharedGrant(t.ops[p.id], p.req, p.prevLease, p.prevState)
  {
  }

  /** A caching right fewer: the first of WRITE, HANDLE and READ that is held. */
  ghost function OneLess(c: Caching): Caching {
    if c.w then Caching(c.r, c.h, false) else if c.h then Caching(c.r, false, false) else Caching(false, false, false)
  }

  /** A break of a lease that awaits no acknowledgement yet, for a truncating open or not. A lease that caches
      writes or handles is offered one caching right less, or nothing for a truncating open, and keeps what it
      has until it answers; only a truncating open does not wait for a lease that caches no writes. A lease
      that caches reads alone loses them at once. */
  lemma BreakOffers(s: Inode, bid: nat, id: nat, trunc: bool, o: Op)
    requires bid !in s.breakers && id in s.list && id in s.ops && o == s.ops[id] && Breakable(s, id, o)
    requires o.isLease && LeaseOk(o) && o.opState == Idle
    ensures var t := Next(s, BreakStart(bid, id, trunc));
            var n := t.ops[id];
            && t.list == s.list && bid in t.breakers && t.breakers[bid].target == id
            && n.newState == (if trunc then NOTHING else OneLess(o.state))
            && if o.state == R then
                 n.level == NoOplock && n.state == NOTHING && n.opState == Idle && t.breakers[bid].phase == Finish
               else
                 && n.level == o.level && n.state == o.state && n.opState == AckWait && n.breaking == o.breaking + 1
                 && t.breakers[bid].phase == if trunc && !o.state.w then Finish else WaitAck
  {
  }

  /** A break of a plain oplock: a writer keeps its level until it answers, and is waited for; LEVEL_II is lost
      at once. */
  lemma BreakAsks(s: Inode, bid: nat, id: nat, trunc: bool, o: Op)
    requires bid !in s.breakers && id in s.list && id in s.ops && o == s.ops[id] && Breakable(s, id, o)
    requires !o.isLease
    ensures var t := Next(s, BreakStart(bid, id, trunc));
            var n := t.ops[id];
            && t.list == s.list && bid in t.breakers && t.breakers[bid].target == id
            && if o.level == LevelII then
                 n.level == NoOplock && n.opState == o.opState && t.breakers[bid].phase == Finish
               else n.level == o.level && n.opState == AckWait && t.breakers[bid].phase == WaitAck
  {
  }

  /** A second break of a lease that has not answered the first only waits for that answer. */
  lemma BreakQueues(s: Inode, bid: nat, id: nat, trunc: bool, o: Op)
    requires bid !in s.breakers && id in s.list && id in s.ops && o == s.ops[id] && Breakable(s, id, o)
    requires o.isLease && LeaseOk(o) && o.opState == AckWait
    ensures var t := Next(s, BreakStart(bid, id, trunc));
            && t.list == s.list && t.ops[id] == o.(trunc := trunc, breaking := o.breaking + 1)
            && bid in t.breakers && t.breakers[bid] == Breaker(id, PreWait)
  {
  }

  /** A plain oplock whose break is awaited: LEVEL_II named by a writer leaves LEVEL_II, any other answer
      leaves nothing, and the break is answered. */
  lemma PlainAnswer(s: Inode, id: nat, a: AckLevel, o: Op)
    requires id in s.list && id in s.ops && o == s.ops[id] && !o.isLease
    requires o.opState == AckWait && o.level != NoOplock
    ensures var n := Next(s, AckPlain(id, a)).ops[id];
            && n.level == (if a == AckII && (o.level == Exclusive || o.level == Batch) then LevelII else NoOplock)
            && n.opState == Idle && n.state == o.state && !n.isLease
  {
  }

  /** A wait for an answer that expires takes level and caching rights away. */
  lemma WaitExpires(s: Inode, bid: nat, id: nat, o: Op)
    requires bid in s.breakers && s.breakers[bid] == Breaker(id, WaitAck) && id in s.ops && o == s.ops[id]
    requires o.opState == AckWait
    ensures var t := Next(s, BreakTimeout(bid));
            var n := t.ops[id];
            && n.level == NoOplock && n.opState == Idle && (o.isLease ==> n.state == NOTHING) && t.list == s.list
            && t.breakers[bid] == Breaker(id, if o.isLease then WaitBrk else Finish)
  {
  }

  /** A close takes the opinfo off the list and leaves its level; one whose break is awaited is marked, and a
      lease among those has no break left to count. */
  lemma Closes(s: Inode, id: nat, o: Op)
    requires id in s.list && id in s.ops && o == s.ops[id]
    ensures var t := Next(s, Close(id));
            var n := t.ops[id];
            && (forall i :: i in t.list <==> i in s.list && i != id) && n.level == o.level && n.state == o.state
            && n.opState == (if o.opState == AckWait then Closing else o.opState)
            && n.breaking == if o.opState == AckWait && o.isLease then 0 else o.breaking
  {
  }

  /** An answer to the break of a lease that awaits one. It is taken iff it is the state that was offered, or
      READ and HANDLE were offered and it does not name WRITE. Taken, it becomes the lease's state, with LEVEL_II
      if it caches reads and no level if it is nothing; HANDLE alone changes neither. */
  lemma LeaseAnswer(s: Inode, id: nat, c: Caching, o: Op)
    requires id in s.list && id in s.ops && o == s.ops[id] && o.isLease && LeaseOk(o)
    requires o.opState == AckWait && o.breaking > 0
    ensures var n := Next(s, AckLease(id, c)).ops[id];
            if c == o.newState || (o.newState == Caching(true, true, false) && !c.w) then
              && n.opState == Idle && n.breaking == o.breaking - 1
              && if c == Caching(false, true, false) then n.state == o.state && n.level == o.level
                 else n.state == c && n.level == if c.r then LevelII else NoOplock
            else n == o
  {
  }

  /** An answer nobody awaits changes nothing. */
  lemma UnawaitedAnswer(s: Inode, id: nat, c: Caching, a: AckLevel, o: Op)
    requires id in s.list && id in s.ops && o == s.ops[id] && o.opState == Idle
    ensures Next(s, AckLease(id, c)) == s && Next(s, AckPlain(id, a)) == s
  {
    assert s.ops[id := o] == s.ops;
  }

  /** What a break of a listed opinfo applies to: LEVEL_II, but for a lease with a break to nothing under way,
      and a writer at the head. */
  lemma BreakApplies(s: Inode, bid: nat, id: nat, trunc: bool, o: Op)
    requires bid !in s.breakers && id in s.list && id in s.ops && o == s.ops[id] && LeaseOk(o)
    ensures var t := Next(s, BreakStart(bid, id, trunc));
            bid in t.breakers <==>
              || (o.level == LevelII && !(o.isLease && o.newState == Caching(false, false, false) && o.breaking > 0))
              || ((o.level == Exclusive || o.level == Batch) && id == s.list[0])
  {
  }

  /** How a break goes on: it waits while its answer is awaited; then, for a lease, while breaks are counted;
      then it can end. One that came second makes its own offer once the first is answered. */
  lemma BreakProceeds(s: Inode, bid: nat, id: nat, o: Op, phase: Phase)
    requires bid in s.breakers && s.breakers[bid] == Breaker(id, phase) && id in s.ops && o == s.ops[id]
    requires phase != Finish
    ensures var t := Next(s, BreakStep(bid));
            if phase == WaitBrk then
              if o.breaking > 0 then t == s
              else t.ops == s.ops && t.list == s.list && t.breakers == s.breakers[bid := Breaker(id, Finish)]
            else if o.opState == AckWait then t == s
            else if phase == WaitAck then
              && t.ops == s.ops && t.list == s.list
              && t.breakers == s.breakers[bid := Breaker(id, if o.isLease then WaitBrk else Finish)]
            else t.list == s.list && t.breakers[bid].phase in {WaitAck, Finish}
  {
  }

  /** The offer a break that came second makes is the one a first break would make, for no truncating open;
      it is not counted again. */
  lemma SecondOffer(s: Inode, bid: nat, id: nat, o: Op)
    requires bid in s.breakers && s.breakers[bid] == Breaker(id, PreWait) && id in s.ops && o == s.ops[id]
    requires o.isLease && LeaseOk(o) && o.opState == Idle
    ensures var n := Next(s, BreakStep(bid)).ops[id];
            && n.newState == OneLess(o.state) && n.breaking == o.breaking
            && if o.state.w || o.state.h then n.opState == AckWait && n.state == o.state && n.level == o.level
               else n.opState == Idle && n.state == NOTHING && n.level == NoOplock
  {
  }
}
