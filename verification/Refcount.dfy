/** References to opinfos (oplock.c): the count, the list of an inode and its op_count, under every
    interleaving of gets, puts, opens and closes. */
module Refcount {

  import opened Basics
  import Oplock

  /** How far the open and the close of an opinfo have got: allocated, counted in op_count, on the list,
      off the list, out of op_count, and its list reference put. */
  datatype Phase = Allocated | Counted | Linked | Unlinked | Uncounted | Dropped

  /** An opinfo: its reference count, its phase, and how often its release was scheduled and done. */
  datatype Obj = Obj(count: int, phase: Phase, scheduled: nat, freed: nat)

  /** One inode, all opinfos ever allocated for it, and one element in `held` for each reference a thread
      holds. */
  datatype State = State(objs: map<nat, Obj>, list: seq<nat>, opCount: int, held: multiset<nat>)

  const START := State(map[], [], 0, multiset{})

  datatype Step =
    | Alloc(id: nat)
    | Abandon(id: nat)    // the error path of smb_grant_oplock
    | CountIn(id: nat)    // atomic_inc of op_count
    | Link(id: nat)       // opinfo_add
    | Unlink(id: nat)     // opinfo_del
    | CountOut(id: nat)   // atomic_dec of op_count
    | Drop(id: nat)       // the opinfo_put of a close
    | Get(id: nat)        // opinfo_get, opinfo_get_list, or a turn of an iteration
    | Put(id: nat)        // opinfo_put of a held reference
    | Free(id: nat)       // the RCU callback

  /** atomic_dec_and_test, and call_rcu when the count reaches zero. */
  function PutRef(o: Obj): Obj {
    o.(count := o.count - 1, scheduled := if o.count == 1 then o.scheduled + 1 else o.scheduled)
  }

  /** The reference count of an opinfo, and the gets and puts made of it. */
  class Opinfo {
    var refcount: int
    var scheduled: nat
    ghost var phase: Phase
    ghost var freed: nat
    ghost var trace: seq<Step>

    ghost function Abs(): Obj
      reads this
    {
      Obj(refcount, phase, scheduled, freed)
    }

    /** alloc_opinfo */
    constructor ()
      ensures Abs() == Obj(1, Allocated, 0, 0) && trace == []
    {
      refcount, scheduled, phase, freed, trace := 1, 0, Allocated, 0, [];
    }

    /** opinfo_get: atomic_inc_not_zero. */
    method TryGet(ghost id: nat) returns (held: bool)
      modifies this
      ensures Abs() == ObjNext(old(Abs()), Get(id))
      ensures (if held then 1 else 0) == HeldMore(old(Abs()), Get(id)) && trace == old(trace) + [Get(id)]
    {
      trace := trace + [Get(id)];
      held := refcount != 0;
      if held {
        refcount := refcount + 1;
      }
    }

    /** opinfo_put */
    method Release(ghost id: nat)
      modifies this
      ensures Abs() == ObjNext(old(Abs()), Put(id)) && trace == old(trace) + [Put(id)]
    {
      trace := trace + [Put(id)];
      refcount := refcount - 1;
      if refcount == 0 {
        scheduled := scheduled + 1;
      }
    }
  }

  /** What a step does to its opinfo. */
  function ObjNext(o: Obj, e: Step): Obj {
    match e
    case Alloc(_) => Obj(1, Allocated, 0, 0)
    case Abandon(_) => Obj(0, Dropped, o.scheduled + 1, o.freed + 1)
    case CountIn(_) => o.(phase := Counted)
    case Link(_) => o.(phase := Linked)
    case Unlink(_) => o.(phase := Unlinked)
    case CountOut(_) => o.(phase := Uncounted)
    case Drop(_) => PutRef(o).(phase := Dropped)
    case Get(_) => if o.count == 0 then o else o.(count := o.count + 1)
    case Put(_) => PutRef(o)
    case Free(_) => o.(freed := o.freed + 1)
  }

  /** How many more references to it are held afterwards. */
  function HeldMore(o: Obj, e: Step): int {
    if e.Get? && o.count != 0 then 1 else if e.Put? then -1 else 0
  }

  /** Whether a step can happen: the thread of an open or a close takes its steps in order; only a pointer
      to a published opinfo that is not yet freed is followed; the callback runs once for each call_rcu. */
  predicate ObjEnabled(o: Obj, held: nat, e: Step) {
    match e
    case Alloc(_) => false
    case Abandon(_) => o.phase == Allocated && held == 0
    case CountIn(_) => o.phase == Allocated
    case Link(_) => o.phase == Counted
    case Unlink(_) => o.phase == Linked
    case CountOut(_) => o.phase == Unlinked
    case Drop(_) => o.phase == Uncounted
    case Get(_) => o.freed == 0 && o.phase != Allocated
    case Put(_) => held > 0
    case Free(_) => o.freed < o.scheduled
  }

  ghost predicate Enabled(s: State, e: Step) {
    if e.Alloc? then e.id !in s.objs else e.id in s.objs && ObjEnabled(s.objs[e.id], s.held[e.id], e)
  }

  function ListAfter(list: seq<nat>, e: Step): seq<nat> {
    if e.Link? then [e.id] + list else if e.Unlink? then Without(list, e.id) else list
  }

  ghost function Next(s: State, e: Step): State
    requires Enabled(s, e)
  {
    var o := if e.Alloc? then Obj(0, Allocated, 0, 0) else s.objs[e.id];
    State(s.objs[e.id := ObjNext(o, e)],
          ListAfter(s.list, e),
          if e.CountIn? then s.opCount + 1 else if e.CountOut? then s.opCount - 1 else s.opCount,
          s.held[e.id := s.held[e.id] + HeldMore(o, e)])
  }

  // ---- The invariant ----

  /** The count is the list reference, until it is dropped, and the references held; the release is
      scheduled once, when that is zero. */
  ghost predicate Sound(o: Obj, held: nat) {
    && o.count == (if o.phase == Dropped then 0 else 1) + held
    && o.scheduled == (if o.count == 0 then 1 else 0)
    && o.freed <= o.scheduled
  }

  ghost predicate AllSound(s: State) {
    && (forall id :: id in s.objs ==> Sound(s.objs[id], s.held[id]))
    && (forall id :: id !in s.objs ==> s.held[id] == 0)
  }

  lemma ObjSound(o: Obj, held: nat, e: Step)
    requires Sound(o, held) && ObjEnabled(o, held, e)
    ensures held + HeldMore(o, e) >= 0 && Sound(ObjNext(o, e), held + HeldMore(o, e))
  {
  }

  lemma SoundNext(s: State, e: Step)
    requires AllSound(s) && Enabled(s, e)
    ensures AllSound(Next(s, e))
  {
    if !e.Alloc? {
      ObjSound(s.objs[e.id], s.held[e.id], e);
    }
  }

  /** The opinfos counted in op_count, and those on the list. */
  ghost function CountedIn(s: State): set<nat> {
    set id | id in s.objs && s.objs[id].phase in {Counted, Linked, Unlinked}
  }

  ghost function LinkedIn(s: State): set<nat> {
    set id | id in s.objs && s.objs[id].phase == Linked
  }

  ghost predicate Distinct(l: seq<nat>) {
    l == [] || (l[0] !in l[1..] && Distinct(l[1..]))
  }

  ghost function Elems(l: seq<nat>): set<nat> {
    set x | x in l
  }

  ghost predicate Listed(s: State) {
    Distinct(s.list) && Elems(s.list) == LinkedIn(s) && s.opCount == |CountedIn(s)|
  }

  lemma {:induction false} WithoutDistinct(l: seq<nat>, id: nat)
    requires Distinct(l)
    ensures Distinct(Without(l, id))
    decreases |l|
  {
    if l == [] {
    } else {
      WithoutDistinct(l[1..], id);
      var tail := Without(l[1..], id);
      assert ([l[0]] + tail)[1..] == tail && [] + tail == tail;
    }
  }

  /** A set that a step may put its opinfo into, or take it out of. */
  ghost function SetAfter(ids: set<nat>, id: nat, enters: bool, leaves: bool): set<nat> {
    if enters then ids + {id} else if leaves then ids - {id} else ids
  }

  lemma LinkedNext(s: State, e: Step)
    requires Enabled(s, e)
    ensures LinkedIn(Next(s, e)) == SetAfter(LinkedIn(s), e.id, e.Link?, e.Unlink?)
    ensures CountedIn(Next(s, e)) == SetAfter(CountedIn(s), e.id, e.CountIn?, e.CountOut?)
  {
  }

  lemma ListNext(list: seq<nat>, linked: set<nat>, e: Step)
    requires Distinct(list) && Elems(list) == linked && (e.Link? ==> e.id !in linked)
    ensures Distinct(ListAfter(list, e)) && Elems(ListAfter(list, e)) == SetAfter(linked, e.id, e.Link?, e.Unlink?)
  {
    WithoutDistinct(list, e.id);
    assert ([e.id] + list)[1..] == list;
  }

  lemma ListedNext(s: State, e: Step)
    requires Listed(s) && Enabled(s, e)
    ensures Listed(Next(s, e))
  {
    LinkedNext(s, e);
    assert e.Link? ==> e.id !in LinkedIn(s);
    ListNext(s.list, LinkedIn(s), e);
    CountNext(s, e);
  }

  lemma CountNext(s: State, e: Step)
    requires s.opCount == |CountedIn(s)| && Enabled(s, e)
    ensures Next(s, e).opCount == |CountedIn(Next(s, e))|
  {
    LinkedNext(s, e);
    var counted := CountedIn(s);
    assert e.CountIn? ==> e.id !in counted;
    assert e.CountOut? ==> e.id in counted;
  }

  // ---- Runs ----

  ghost predicate Inv(s: State) {
    AllSound(s) && Listed(s)
  }

  datatype Reach = Reach(ok: bool, s: State)

  /** The state a run reaches, if each of its steps is enabled. */
  ghost function Run(es: seq<Step>): Reach {
    if es == [] then Reach(true, START)
    else
      var r, e := Run(es[..|es| - 1]), es[|es| - 1];
      if r.ok && Enabled(r.s, e) then Reach(true, Next(r.s, e)) else Reach(false, r.s)
  }

  lemma {:induction false} AlwaysSound(es: seq<Step>)
    ensures Inv(Run(es).s)
    decreases |es|
  {
    if es == [] {
      assert LinkedIn(START) == {} && CountedIn(START) == {};
    } else {
      var r, e := Run(es[..|es| - 1]), es[|es| - 1];
      AlwaysSound(es[..|es| - 1]);
      if r.ok && Enabled(r.s, e) {
        SoundNext(r.s, e);
        ListedNext(r.s, e);
      }
    }
  }

  /** Over every interleaving an opinfo's count is its list reference, until that is dropped, plus the
      references held; it is freed at most once, and then is off the list and held by nobody; what a
      thread holds is not freed. */
  lemma ReferenceSafety(es: seq<Step>, id: nat)
    requires id in Run(es).s.objs
    ensures var s := Run(es).s;
            var o := s.objs[id];
            && o.count == (if o.phase == Dropped then 0 else 1) + s.held[id]
            && o.freed <= o.scheduled <= 1
            && (o.scheduled == 1 ==> o.phase == Dropped && id !in s.list && id !in s.held)
            && (id in s.held || id in s.list ==> o.freed == 0)
  {
    AlwaysSound(es);
    var s := Run(es).s;
    assert id in s.list ==> id in LinkedIn(s);
  }

  lemma {:induction false} DistinctSize(l: seq<nat>)
    requires Distinct(l)
    ensures |Elems(l)| == |l|
    decreases |l|
  {
    if l == [] {
    } else {
      var tail := l[1..];
      DistinctSize(tail);
      assert Elems(l) == Elems(tail) + {l[0]} && l[0] !in Elems(tail);
    }
  }

  /** The opinfos whose open or close is between its step on the list and its step on op_count. */
  ghost function Midway(s: State): set<nat> {
    set id | id in s.objs && s.objs[id].phase in {Counted, Unlinked}
  }

  /** op_count is the length of the list but for the opens and closes under way; between them it is the
      length of the list. */
  lemma OpCount(es: seq<Step>)
    ensures var s := Run(es).s; s.opCount == |s.list| + |Midway(s)|
  {
    AlwaysSound(es);
    var s := Run(es).s;
    DistinctSize(s.list);
    assert CountedIn(s) == LinkedIn(s) + Midway(s) && LinkedIn(s) * Midway(s) == {};
  }

  // ---- References that are never put ----

  /** How many references to an opinfo a run takes, and how many it puts. */
  ghost function Gets(es: seq<Step>, id: nat): nat {
    if es == [] then 0
    else
      var init, e := es[..|es| - 1], es[|es| - 1];
      var taken := e == Get(id) && id in Run(init).s.objs && Run(init).s.objs[id].count != 0;
      Gets(init, id) + if taken then 1 else 0
  }

  ghost function Puts(es: seq<Step>, id: nat): nat {
    if es == [] then 0 else Puts(es[..|es| - 1], id) + if es[|es| - 1] == Put(id) then 1 else 0
  }

  lemma {:induction false} HeldIsBalance(es: seq<Step>, id: nat)
    requires Run(es).ok
    ensures Run(es).s.held[id] == Gets(es, id) - Puts(es, id)
    decreases |es|
  {
    if es == [] {
    } else {
      HeldIsBalance(es[..|es| - 1], id);
    }
  }

  /** Once an opinfo is closed, its release is scheduled exactly when every reference taken was put: one
      that is never put keeps the opinfo for good. */
  lemma ReleasedExact(es: seq<Step>, id: nat)
    requires Run(es).ok && id in Run(es).s.objs && Run(es).s.objs[id].phase == Dropped
    ensures Run(es).s.objs[id].scheduled == 1 <==> Gets(es, id) == Puts(es, id)
    ensures Gets(es, id) > Puts(es, id) ==> Run(es).s.objs[id].freed == 0 && !Enabled(Run(es).s, Free(id))
  {
    AlwaysSound(es);
    HeldDecides(Run(es).s, id);
    HeldIsBalance(es, id);
  }

  /** What is held is not freed, and what is closed is released once nothing holds it. */
  lemma HeldDecides(s: State, id: nat)
    requires AllSound(s) && id in s.objs
    ensures s.held[id] > 0 ==> s.objs[id].freed == 0 && !Enabled(s, Free(id))
    ensures s.objs[id].phase == Dropped ==> (s.objs[id].scheduled == 1 <==> s.held[id] == 0)
  {
  }

  /** The acknowledgement reaches the lease it is for and is not taken. */
  ghost predicate Refused(live: bool, key: bool, o: Oplock.Op, ack: Oplock.Caching) {
    live && key && Oplock.LeaseFound(o) && !Oplock.LeaseAckTaken(o, ack)
  }

  /** The gets and puts smb21_lease_break makes on an opinfo its lookup comes to: `live` if its count is not
      zero, `key` if the lease key is the one acknowledged. */
  ghost function LeaseBreakSteps(id: nat, live: bool, key: bool, o: Oplock.Op, ack: Oplock.Caching): seq<Step> {
    if !live || Refused(live, key, o, ack) then [Get(id)] else [Get(id), Put(id)]
  }

  /** The handler leaves one more reference held exactly when it refuses the acknowledgement of a lease it
      found, and otherwise as many as before. */
  lemma LeaseBreakBalance(es: seq<Step>, id: nat, live: bool, key: bool, o: Oplock.Op, ack: Oplock.Caching)
    requires Run(es).ok && Enabled(Run(es).s, Get(id)) && live == (Run(es).s.objs[id].count != 0)
    ensures var t := Run(es + LeaseBreakSteps(id, live, key, o, ack));
            t.ok && t.s.held[id] == Run(es).s.held[id] + if Refused(live, key, o, ack) then 1 else 0
  {
    GetThenPut(es, id, Run(es).s);
  }

  /** What a refusal means: if from then on threads put no more references than they take and held before,
      the opinfo is never freed, whether it is closed or not. */
  lemma RefusalKeeps(es: seq<Step>, id: nat, key: bool, o: Oplock.Op, ack: Oplock.Caching, all: seq<Step>)
    requires Run(es).ok && Enabled(Run(es).s, Get(id)) && Refused(Run(es).s.objs[id].count != 0, key, o, ack)
    requires Run(all).ok && id in Run(all).s.objs && es + LeaseBreakSteps(id, true, key, o, ack) <= all
    requires var before := es + LeaseBreakSteps(id, true, key, o, ack);
             Puts(all, id) - Puts(before, id) <= Gets(all, id) - Gets(before, id) + Run(es).s.held[id]
    ensures Run(all).s.objs[id].freed == 0 && !Enabled(Run(all).s, Free(id))
  {
    var before := es + LeaseBreakSteps(id, true, key, o, ack);
    LeaseBreakBalance(es, id, true, key, o, ack);
    HeldAfter(before, all, id, Run(es).s.held[id]);
    AlwaysSound(all);
    HeldDecides(Run(all).s, id);
  }

  lemma HeldAfter(before: seq<Step>, all: seq<Step>, id: nat, held: nat)
    requires Run(before).ok && Run(all).ok && Run(before).s.held[id] == held + 1
    requires Puts(all, id) - Puts(before, id) <= Gets(all, id) - Gets(before, id) + held
    ensures Run(all).s.held[id] > 0
  {
    HeldIsBalance(before, id);
    HeldIsBalance(all, id);
  }

  lemma RunMore(es: seq<Step>, e: Step, more: seq<Step>)
    requires Run(es).ok && Enabled(Run(es).s, e) && more == es + [e]
    ensures Run(more) == Reach(true, Next(Run(es).s, e))
  {
    assert more[..|more| - 1] == es && more[|more| - 1] == e;
  }

  lemma GetThenPut(es: seq<Step>, id: nat, s: State)
    requires Run(es) == Reach(true, s) && Enabled(s, Get(id))
    ensures var live := s.objs[id].count != 0;
            && Run(es + [Get(id)]).ok && Run(es + [Get(id)]).s.held[id] == s.held[id] + (if live then 1 else 0)
            && (live ==> Run(es + [Get(id), Put(id)]).ok && Run(es + [Get(id), Put(id)]).s.held[id] == s.held[id])
  {
    var one, two := es + [Get(id)], es + [Get(id), Put(id)];
    RunMore(es, Get(id), one);
    assert two == one + [Put(id)];
    if s.objs[id].count != 0 {
      RunMore(one, Put(id), two);
    }
  }
}
