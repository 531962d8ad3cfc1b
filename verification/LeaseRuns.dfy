/** Level/state agreement of every lease, and the shrinking of leases, over whole runs. */
module LeaseRuns {
  import opened Basics
  import opened Oplock
  import opened OplockRuns

  /** Each lease opinfo has W and H iff BATCH, W without H iff EXCLUSIVE, R without W iff LEVEL_II and
      nothing iff NONE. */
  ghost predicate AllAgree(s: Inode) {
    forall id :: id in s.ops ==> Agrees(s.ops[id])
  }

  /** The same, strengthened to be inductive. */
  ghost predicate AllOk(s: Inode) {
    forall id :: id in s.ops ==> LeaseOk(s.ops[id])
  }

  /** Exactly the events that keep agreement: all but the plain acknowledgements that are addressed to a
      lease and do not fit what it was offered. */
  ghost predicate LeaseScope(s: Inode, e: Event) {
    e.AckPlain? && e.id in s.list && e.id in s.ops && s.ops[e.id].isLease && PlainAckTaken(s.ops[e.id]) ==>
      PlainAckFits(s.ops[e.id], e.ack)
  }

  lemma OfferAgrees(s: Inode, bid: nat, id: nat, o: Op)
    requires AllOk(s) && LeaseOk(o) && !(o.isLease && o.opState.AckWait?)
    ensures AllOk(MakeOffer(s, bid, id, o))
  {
    BreaksAgree(o, o.trunc);
    BreaksAgree(Offer(o), o.trunc);
  }

  lemma StartAgrees(s: Inode, bid: nat, id: nat, o: Op)
    requires AllOk(s) && LeaseOk(o)
    ensures AllOk(StartBreak(s, bid, id, o))
  {
    BreaksAgree(o, o.trunc);
    if !(o.isLease && o.opState.AckWait?) {
      OfferAgrees(s, bid, id, Enter(o));
    }
  }

  lemma OpenAgrees(s: Inode, id: nat, req: Request, bid: nat)
    requires AllOk(s)
    ensures AllOk(OpenStep(s, id, req, bid))
  {
    if s.list != [] && s.list[0] in s.ops {
      var head := s.ops[s.list[0]];
      GrantsAgree(req.isLease, ReqLevel(req), req.caching, head.isLease, head.state);
      StartAgrees(s, bid, s.list[0], head);
    } else {
      GrantsAgree(req.isLease, ReqLevel(req), req.caching, false, NOTHING);
    }
  }

  lemma AddAgrees(s: Inode, id: nat, o: Op)
    requires AllOk(s) && LeaseOk(o)
    ensures AllOk(Add(s, id, o))
  {
  }

  lemma EndAgrees(s: Inode, bid: nat, id: nat, o: Op)
    requires AllOk(s) && LeaseOk(o)
    ensures AllOk(EndBreak(s, bid, id, o))
  {
    var closing := o.opState.Closing?;
    var t := SetOp(s, id, if closing then o.(opState := Idle) else o).(breakers := s.breakers - {bid});
    assert AllOk(t);
    if s.pending.Some? && s.pending.value.breaker == bid {
      var p := s.pending.value;
      var u := t.(pending := None);
      GrantsAgree(p.req.isLease, ReqLevel(p.req), p.req.caching, p.prevLease, p.prevState);
      AddAgrees(u, p.id, if closing then Full(p.req) else Shared(p.req, p.prevLease, p.prevState));
    }
  }

  lemma StepAgrees(s: Inode, bid: nat)
    requires AllOk(s)
    ensures AllOk(Next(s, BreakStep(bid)))
  {
    if bid in s.breakers && s.breakers[bid].target in s.ops {
      var b := s.breakers[bid];
      var o := s.ops[b.target];
      if b.phase.PreWait? {
        if !o.opState.AckWait? {
          OfferAgrees(s, bid, b.target, o.(trunc := false));
        }
      } else if b.phase.Finish? {
        EndAgrees(s, bid, b.target, o);
      }
    }
  }

  lemma TimeoutAgrees(s: Inode, bid: nat)
    requires AllOk(s)
    ensures AllOk(Next(s, BreakTimeout(bid)))
  {
    if bid in s.breakers && s.breakers[bid].target in s.ops {
      var b := s.breakers[bid];
      var o := s.ops[b.target];
      BreaksAgree(o, false);
      if b.phase.PreWait? && o.opState.AckWait? {
        OfferAgrees(s, bid, b.target, TimedOut(o).(trunc := false));
      }
    }
  }

  lemma AgreementNext(s: Inode, e: Event)
    requires AllOk(s)
    ensures AllAgree(Next(s, e)) <==> LeaseScope(s, e)
    ensures AllAgree(Next(s, e)) <==> AllOk(Next(s, e))
  {
    match e
    case Open(id, req, bid) => OpenAgrees(s, id, req, bid);
    case BreakStart(bid, id, trunc) =>
      if id in s.ops {
        StartAgrees(s, bid, id, s.ops[id].(trunc := trunc));
      }
    case BreakStep(bid) => StepAgrees(s, bid);
    case BreakTimeout(bid) => TimeoutAgrees(s, bid);
    case AckPlain(id, a) =>
      if id in s.list && id in s.ops {
        PlainAckExact(s.ops[id], a);
        assert Next(s, e).ops[id] == PlainAck(s.ops[id], a);
      }
    case AckLease(id, c) =>
      if id in s.list && id in s.ops {
        LeaseAckExact(s.ops[id], c);
        assert Next(s, e).ops[id] == LeaseAck(s.ops[id], c);
      }
    case Close(id) =>
      if id in s.ops {
        BreaksAgree(s.ops[id], false);
      }
  }

  ghost predicate RunInLeaseScope(s: Inode, es: seq<Event>)
    decreases |es|
  {
    es == [] || (LeaseScope(s, es[0]) && RunInLeaseScope(Next(s, es[0]), es[1..]))
  }

  /** In every run, each lease opinfo's state agrees with its level: through grants, stacked grants,
      breaks, acknowledgements, timeouts and breaks that await no acknowledgement. */
  lemma {:induction false} AgreementAlways(s: Inode, es: seq<Event>)
    requires AllOk(s) && RunInLeaseScope(s, es)
    ensures AllAgree(Run(s, es)) && AllOk(Run(s, es))
    decreases |es|
  {
    if es == [] {
    } else {
      AgreementNext(s, es[0]);
      AgreementAlways(Next(s, es[0]), es[1..]);
    }
  }

  /** The opinfos with a lease, and a waiting open that asks for one, have their identity in `ids`. */
  ghost predicate LeasesAmong(s: Inode, ids: iset<nat>) {
    && (forall id :: id in s.ops && s.ops[id].isLease ==> id in ids)
    && (s.pending.Some? && s.pending.value.req.isLease ==> s.pending.value.id in ids)
  }

  lemma OpenAmong(s: Inode, id: nat, req: Request, bid: nat, ids: iset<nat>)
    requires LeasesAmong(s, ids) && (req.isLease ==> id in ids)
    ensures LeasesAmong(OpenStep(s, id, req, bid), ids)
  {
  }

  lemma EndAmong(s: Inode, bid: nat, id: nat, o: Op, ids: iset<nat>)
    requires LeasesAmong(s, ids) && id in s.ops && o == s.ops[id]
    ensures LeasesAmong(EndBreak(s, bid, id, o), ids)
  {
  }

  lemma LeasesAmongNext(s: Inode, e: Event, ids: iset<nat>)
    requires LeasesAmong(s, ids) && (e.Open? && e.req.isLease ==> e.id in ids)
    ensures LeasesAmong(Next(s, e), ids)
  {
    match e
    case Open(id, req, bid) => OpenAmong(s, id, req, bid, ids);
    case BreakStep(bid) => StepAmong(s, bid, ids);
    case _ =>
  }

  lemma StepAmong(s: Inode, bid: nat, ids: iset<nat>)
    requires LeasesAmong(s, ids)
    ensures LeasesAmong(Next(s, BreakStep(bid)), ids)
  {
    if bid in s.breakers && s.breakers[bid].target in s.ops && s.breakers[bid].phase.Finish? {
      EndAmong(s, bid, s.breakers[bid].target, s.ops[s.breakers[bid].target], ids);
    }
  }

  lemma {:induction false} ClientLeaseScope(s: Inode, es: seq<Event>, ids: iset<nat>)
    requires LeasesAmong(s, ids)
    requires forall e :: e in es ==> (e.Open? && e.req.isLease ==> e.id in ids) && (e.AckPlain? ==> e.id !in ids)
    ensures RunInLeaseScope(s, es)
    decreases |es|
  {
    if es == [] {
    } else {
      assert es[0] in es;
      LeasesAmongNext(s, es[0], ids);
      ClientLeaseScope(Next(s, es[0]), es[1..], ids);
    }
  }

  /** From an inode nobody has open, whatever leases are acknowledged with, every lease agrees with its
      level after every run in which plain acknowledgements go to plain oplocks. */
  lemma AgreementFromStart(es: seq<Event>, ids: iset<nat>)
    requires forall e :: e in es ==> (e.Open? && e.req.isLease ==> e.id in ids) && (e.AckPlain? ==> e.id !in ids)
    ensures AllAgree(Run(EMPTY, es))
  {
    ClientLeaseScope(EMPTY, es, ids);
    AgreementAlways(EMPTY, es);
  }

  /** Agreement lost: the holder of an RWH lease answers its break with a plain acknowledgement of no oplock,
      and is left without a level but with the RH it was offered. */
  lemma PlainAckDisagrees(req: Request, es: seq<Event>)
    requires req == Request(true, NoOplock, RWH, false, false)
    requires es == [Open(0, req, 0), BreakStart(0, 0, false), AckPlain(0, AckNone)]
    ensures var s := Run(EMPTY, es);
            !AllAgree(s) && 0 in s.ops && s.ops[0].level == NoOplock && s.ops[0].state == RH
  {
    RunThree(EMPTY, es[0], es[1], es[2]);
    var s1 := Next(EMPTY, es[0]);
    assert s1.list == [0] && s1.ops[0] == Granted(true, Batch, RWH);
    var s2 := Next(s1, es[1]);
    assert s2.list == [0] && s2.ops[0].newState == RH && s2.ops[0].opState == AckWait;
    assert Next(s2, es[2]).ops[0] == PlainAck(s2.ops[0], AckNone);
  }

  // ---- Leases only shrink ----

  /** Event `e` completes a break of lease `id`: an accepted acknowledgement, an expired wait,
      or a break of a read-only lease, which awaits nothing. */
  ghost predicate Completes(s: Inode, e: Event, id: nat) {
    && id in s.ops && s.ops[id].isLease
    && match e
       case AckLease(i, c) => i == id && id in s.list && LeaseAckTaken(s.ops[id], c)
       case BreakTimeout(b) =>
         && b in s.breakers && s.breakers[b].target == id && s.ops[id].opState.AckWait?
         && (s.breakers[b].phase.PreWait? || s.breakers[b].phase.WaitAck?)
       case BreakStart(b, i, t) =>
         i == id && b !in s.breakers && id in s.list && Breakable(s, id, s.ops[id]) && s.ops[id].state == R
       case BreakStep(b) =>
         && b in s.breakers && s.breakers[b].target == id && s.breakers[b].phase.PreWait?
         && !s.ops[id].opState.AckWait? && s.ops[id].state == R
       case _ => false
  }

  /** The acknowledgement that completes a break and yet leaves the lease as it was. */
  ghost predicate AnsweredHandleOnly(e: Event) {
    e.AckLease? && e.caching == HANDLE_ONLY
  }

  /** How many breaks of lease `id` a run completes, other than by HANDLE alone. */
  ghost function Completed(s: Inode, es: seq<Event>, id: nat): nat
    decreases |es|
  {
    if es == [] then 0
    else
      (if Completes(s, es[0], id) && !AnsweredHandleOnly(es[0]) then 1 else 0)
      + Completed(Next(s, es[0]), es[1..], id)
  }

  /** Listed opinfos are open, and a waiting open has no opinfo yet. */
  ghost predicate Placed(s: Inode) {
    && (forall id :: id in s.list ==> id in s.ops && !s.ops[id].opState.Closing?)
    && (s.pending.Some? ==> s.pending.value.id !in s.ops)
  }

  lemma PlacedStart(s: Inode, bid: nat, id: nat, o: Op)
    requires Placed(s) && id in s.ops && (id in s.list ==> !o.opState.Closing?)
    ensures var t := StartBreak(s, bid, id, o);
            Placed(t) && t.list == s.list && t.pending == s.pending && t.ops.Keys == s.ops.Keys
  {
  }

  lemma PlacedOpen(s: Inode, id: nat, req: Request, bid: nat)
    requires Placed(s)
    ensures Placed(OpenStep(s, id, req, bid))
  {
    if s.list != [] {
      assert s.list[0] in s.list;
      PlacedStart(s, bid, s.list[0], s.ops[s.list[0]]);
    }
  }

  lemma PlacedEnd(s: Inode, bid: nat, id: nat, o: Op)
    requires Placed(s) && id in s.ops && o == s.ops[id]
    ensures Placed(EndBreak(s, bid, id, o))
  {
  }

  lemma PlacedStep(s: Inode, bid: nat)
    requires Placed(s)
    ensures Placed(Next(s, BreakStep(bid)))
  {
    if bid in s.breakers && s.breakers[bid].target in s.ops && s.breakers[bid].phase.Finish? {
      PlacedEnd(s, bid, s.breakers[bid].target, s.ops[s.breakers[bid].target]);
    }
  }

  lemma PlacedTimeout(s: Inode, bid: nat)
    requires Placed(s)
    ensures Placed(Next(s, BreakTimeout(bid)))
  {
  }

  lemma PlacedNext(s: Inode, e: Event)
    requires Placed(s)
    ensures Placed(Next(s, e))
  {
    match e
    case Open(id, req, bid) => PlacedOpen(s, id, req, bid);
    case BreakStart(bid, id, trunc) =>
      if id in s.list {
        PlacedStart(s, bid, id, s.ops[id].(trunc := trunc));
      }
    case BreakStep(bid) => PlacedStep(s, bid);
    case BreakTimeout(bid) => PlacedTimeout(s, bid);
    case _ =>
  }

  lemma OfferShrinks(s: Inode, bid: nat, i: nat, o: Op, id: nat)
    requires id in s.ops && s.ops[id].isLease
    requires i == id ==> o.isLease && o.state.Within(s.ops[id].state)
    ensures var t := MakeOffer(s, bid, i, o);
            && id in t.ops && t.ops[id].isLease && t.ops[id].state.Within(s.ops[id].state)
            && (i == id && o.state == R ==> t.ops[id].state == NOTHING)
            && (i == id && o.state == NOTHING ==> t.ops[id].state == NOTHING)
  {
  }

  lemma StartShrinks(s: Inode, bid: nat, i: nat, o: Op, id: nat)
    requires id in s.ops && s.ops[id].isLease
    requires i == id ==> LeaseOk(o) && o.isLease && o.state == s.ops[id].state
    ensures var t := StartBreak(s, bid, i, o);
            && id in t.ops && t.ops[id].isLease && t.ops[id].state.Within(s.ops[id].state)
            && (i == id && o.state == R ==> t.ops[id].state == NOTHING)
  {
    if !(o.isLease && o.opState.AckWait?) {
      OfferShrinks(s, bid, i, Enter(o), id);
    }
  }

  lemma StepShrinks(s: Inode, bid: nat, id: nat)
    requires s.pending.Some? ==> s.pending.value.id !in s.ops
    requires id in s.ops && s.ops[id].isLease
    ensures var t := Next(s, BreakStep(bid));
            && id in t.ops && t.ops[id].isLease && t.ops[id].state.Within(s.ops[id].state)
            && (Completes(s, BreakStep(bid), id) ==> t.ops[id].state == NOTHING)
  {
    if bid in s.breakers && s.breakers[bid].target in s.ops && s.breakers[bid].phase.PreWait? {
      var i := s.breakers[bid].target;
      OfferShrinks(s, bid, i, s.ops[i].(trunc := false), id);
    }
  }

  lemma TimeoutShrinks(s: Inode, bid: nat, id: nat)
    requires id in s.ops && s.ops[id].isLease
    ensures var t := Next(s, BreakTimeout(bid));
            && id in t.ops && t.ops[id].isLease && t.ops[id].state.Within(s.ops[id].state)
            && (Completes(s, BreakTimeout(bid), id) ==> t.ops[id].state == NOTHING)
  {
    if bid in s.breakers && s.breakers[bid].target in s.ops && s.breakers[bid].phase.PreWait? {
      var i := s.breakers[bid].target;
      OfferShrinks(s, bid, i, TimedOut(s.ops[i]).(trunc := false), id);
    }
  }

  lemma PlainAckShrinks(o: Op, a: AckLevel)
    requires LeaseOk(o) && o.isLease && !o.opState.Closing?
    ensures PlainAck(o, a).state.Within(o.state) && PlainAck(o, a).isLease
  {
  }

  lemma AckShrinks(s: Inode, e: Event, id: nat)
    requires Placed(s) && AllOk(s) && LeaseScope(s, e) && (e.AckPlain? || e.AckLease?)
    requires id in s.ops && s.ops[id].isLease
    ensures var t := Next(s, e);
            && id in t.ops && t.ops[id].isLease && t.ops[id].state.Within(s.ops[id].state)
            && (Completes(s, e, id) ==>
                  (t.ops[id].state.Bits() < s.ops[id].state.Bits() <==> !AnsweredHandleOnly(e)))
  {
    if e.id == id && id in s.list {
      if e.AckPlain? {
        PlainAckShrinks(s.ops[id], e.ack);
      } else {
        LeaseAckExact(s.ops[id], e.caching);
      }
    }
  }

  lemma OpenShrinks(s: Inode, id: nat, i: nat, req: Request, bid: nat)
    requires AllOk(s) && id in s.ops && s.ops[id].isLease
    ensures var t := OpenStep(s, i, req, bid);
            id in t.ops && t.ops[id].isLease && t.ops[id].state.Within(s.ops[id].state)
  {
    if s.list != [] && s.list[0] in s.ops {
      StartShrinks(s, bid, s.list[0], s.ops[s.list[0]], id);
    }
  }

  lemma ShrinkNext(s: Inode, e: Event, id: nat)
    requires Placed(s) && AllOk(s) && LeaseScope(s, e) && id in s.ops && s.ops[id].isLease
    ensures var t := Next(s, e);
            && id in t.ops && t.ops[id].isLease && t.ops[id].state.Within(s.ops[id].state)
            && (Completes(s, e, id) ==>
                  (t.ops[id].state.Bits() < s.ops[id].state.Bits() <==> !AnsweredHandleOnly(e)))
  {
    match e
    case Open(i, req, bid) => OpenShrinks(s, id, i, req, bid);
    case BreakStart(bid, i, trunc) =>
      if i in s.ops {
        StartShrinks(s, bid, i, s.ops[i].(trunc := trunc), id);
      }
    case BreakStep(bid) => StepShrinks(s, bid, id);
    case BreakTimeout(bid) => TimeoutShrinks(s, bid, id);
    case AckLease(i, c) => AckShrinks(s, e, id);
    case AckPlain(i, a) => AckShrinks(s, e, id);
    case Close(i) =>
  }

  /** Nothing widens a lease, every completed break but one answered with HANDLE alone strictly shrinks
      it, and so at most three such breaks take any lease to nothing. */
  lemma {:induction false} ThreeBreaksSuffice(s: Inode, es: seq<Event>, id: nat)
    requires Placed(s) && AllOk(s) && RunInLeaseScope(s, es)
    requires id in s.ops && s.ops[id].isLease
    ensures var t := Run(s, es);
            && id in t.ops && t.ops[id].state.Within(s.ops[id].state)
            && Completed(s, es, id) + t.ops[id].state.Bits() <= s.ops[id].state.Bits() <= 3
            && (Completed(s, es, id) == 3 ==> t.ops[id].state == NOTHING)
    decreases |es|
  {
    if es == [] {
    } else {
      ShrinkNext(s, es[0], id);
      PlacedNext(s, es[0]);
      AgreementNext(s, es[0]);
      ThreeBreaksSuffice(Next(s, es[0]), es[1..], id);
    }
  }
}
