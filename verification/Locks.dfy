/** Byte-range lock requests: the second half of smb2_lock (smb2pdu.c), for requests made only of
    lock elements of non-zero length. The kernel's POSIX lock layer and what other requests do to
    the global list during a wait are given by an oracle. */
module Locks {

  datatype Kind = BadFlags | SharedLock | ExclusiveLock

  /** A `cifsd_lock`; `id` is its identity as a list entry. */
  datatype Lock = Lock(id: nat, file: nat, inode: nat, start: nat, end: nat, kind: Kind, failNow: bool)

  datatype Status = Success | InvalidParameter | LockNotGranted | Cancelled | RangeNotLocked
    | InsufficientResources | Unfinished

  datatype Wake = Again | Cancel | FileClosed | Asleep

  /** One answer of the kernel: granted, refused, or deferred. A deferred request may fail to go
      asynchronous; otherwise other requests may unlock entries of the global list, this request's granted
      ones included, and append new ones before it wakes, if it ever does. */
  datatype Answer =
    | Granted
    | Refused
    | DeferredNoAsync
    | Deferred(gone: set<nat>, extra: seq<Lock>, wake: Wake)

  // ---- Own and foreign entries of the global list ----

  /** The entries with an identity in `ids`, in order. */
  ghost function Keep(g: seq<Lock>, ids: iset<nat>): seq<Lock> {
    if g == [] then [] else if g[0].id in ids then [g[0]] + Keep(g[1..], ids) else Keep(g[1..], ids)
  }

  ghost function Others(ids: iset<nat>): iset<nat> {
    iset i: nat | i !in ids
  }

  function Remove(g: seq<Lock>, id: nat): seq<Lock> {
    if g == [] then [] else if g[0].id == id then Remove(g[1..], id) else [g[0]] + Remove(g[1..], id)
  }

  function Reverse(s: seq<Lock>): seq<Lock> {
    if s == [] then [] else Reverse(s[1..]) + [s[0]]
  }

  lemma {:induction false} KeepLast(g: seq<Lock>, l: Lock, ids: iset<nat>)
    ensures Keep(g + [l], ids) == Keep(g, ids) + if l.id in ids then [l] else []
    decreases |g|
  {
    if g == [] {
      assert g + [l] == [l];
    } else {
      assert (g + [l])[1..] == g[1..] + [l];
      KeepLast(g[1..], l, ids);
    }
  }

  /** Taking out an entry commutes with looking at part of the list. */
  lemma {:induction false} KeepRemove(g: seq<Lock>, ids: iset<nat>, id: nat)
    ensures Keep(Remove(g, id), ids) == if id in ids then Remove(Keep(g, ids), id) else Keep(g, ids)
    decreases |g|
  {
    if g == [] {
    } else {
      KeepRemove(g[1..], ids, id);
      assert g[0].id in ids ==> ([g[0]] + Keep(g[1..], ids))[1..] == Keep(g[1..], ids);
      assert ([g[0]] + Remove(g[1..], id))[1..] == Remove(g[1..], id);
    }
  }

  lemma {:induction false} RemoveLast(g: seq<Lock>, l: Lock)
    requires forall k :: 0 <= k < |g| ==> g[k].id != l.id
    ensures Remove(g + [l], l.id) == g
    decreases |g|
  {
    if g == [] {
      assert g + [l] == [l];
    } else {
      assert (g + [l])[1..] == g[1..] + [l];
      RemoveLast(g[1..], l);
    }
  }

  lemma {:induction false} KeepAllOrNone(g: seq<Lock>, ids: iset<nat>)
    ensures (forall k :: 0 <= k < |g| ==> g[k].id !in ids) ==> Keep(g, ids) == []
    ensures Keep(g, ids) == [] ==> Keep(g, Others(ids)) == g
    decreases |g|
  {
    if g == [] {
    } else {
      KeepAllOrNone(g[1..], ids);
    }
  }

  // ---- What the other requests do ----

  function Drop(g: seq<Lock>, gone: set<nat>): seq<Lock> {
    if g == [] then [] else if g[0].id in gone then Drop(g[1..], gone) else [g[0]] + Drop(g[1..], gone)
  }

  /** The entries that other requests append are their own. */
  ghost predicate Foreign(a: Answer, ids: iset<nat>) {
    a.Deferred? ==> forall k :: 0 <= k < |a.extra| ==> a.extra[k].id !in ids
  }

  ghost predicate AllForeign(oracle: seq<Answer>, ids: iset<nat>) {
    forall i :: 0 <= i < |oracle| ==> Foreign(oracle[i], ids)
  }

  /** What the other requests alone make of a list during the answers from number `from` up to `end`. */
  ghost function Meanwhile(g: seq<Lock>, oracle: seq<Answer>, from: nat, end: nat): seq<Lock>
    requires from <= end <= |oracle|
    decreases end
  {
    if from == end then g
    else
      var last, m := oracle[end - 1], Meanwhile(g, oracle, from, end - 1);
      if last.Deferred? then Drop(m, last.gone) + last.extra else m
  }

  lemma {:induction false} KeepDrop(g: seq<Lock>, gone: set<nat>, ids: iset<nat>)
    ensures Keep(Drop(g, gone), ids) == Drop(Keep(g, ids), gone)
    decreases |g|
  {
    if g == [] {
    } else {
      KeepDrop(g[1..], gone, ids);
      assert g[0].id in ids ==> ([g[0]] + Keep(g[1..], ids))[1..] == Keep(g[1..], ids);
      assert ([g[0]] + Drop(g[1..], gone))[1..] == Drop(g[1..], gone);
    }
  }

  lemma {:induction false} KeepExtra(g: seq<Lock>, extra: seq<Lock>, ids: iset<nat>)
    requires forall k :: 0 <= k < |extra| ==> extra[k].id !in ids
    ensures Keep(g + extra, ids) == Keep(g, ids) && Keep(g + extra, Others(ids)) == Keep(g, Others(ids)) + extra
    decreases |extra|
  {
    if extra == [] {
      assert g + extra == g;
    } else {
      var n := |extra| - 1;
      assert g + extra == (g + extra[..n]) + [extra[n]];
      KeepLast(g + extra[..n], extra[n], ids);
      KeepLast(g + extra[..n], extra[n], Others(ids));
      KeepExtra(g, extra[..n], ids);
    }
  }

  /** Unlocking entries of a list some of whose entries were lost before: those lost so far and those lost
      now are missing. */
  lemma {:induction false} DropLost(x: seq<Lock>, lost: iset<nat>, gone: set<nat>, more: iset<nat>)
    requires forall k :: 0 <= k < |x| ==> (x[k].id in more <==> x[k].id in gone)
    ensures Drop(Keep(x, Others(lost)), gone) == Keep(x, Others(lost + more))
    decreases |x|
  {
    if x == [] {
    } else {
      DropLost(x[1..], lost, gone, more);
      var tail := Keep(x[1..], Others(lost));
      assert ([x[0]] + tail)[1..] == tail;
    }
  }

  /** Entries are missing from a list exactly when one of them was lost. */
  lemma {:induction false} MirrorsExact(x: seq<Lock>, lost: iset<nat>)
    ensures Keep(x, Others(lost)) == x <==> forall k :: 0 <= k < |x| ==> x[k].id !in lost
    ensures |Keep(x, Others(lost))| <= |x|
    decreases |x|
  {
    if x == [] {
    } else {
      MirrorsExact(x[1..], lost);
      var tail := Keep(x[1..], Others(lost));
      assert x == [x[0]] + x[1..] && ([x[0]] + tail)[1..] == tail;
    }
  }

  lemma {:induction false} RemoveAbsent(g: seq<Lock>, ids: iset<nat>, id: nat)
    requires id !in ids
    ensures Remove(Keep(g, ids), id) == Keep(g, ids)
    decreases |g|
  {
    if g == [] {
    } else {
      RemoveAbsent(g[1..], ids, id);
      assert ([g[0]] + Keep(g[1..], ids))[1..] == Keep(g[1..], ids);
    }
  }

  /** Taking the last entry, lost or not, out of what is left of a list. */
  lemma RemoveLastLeft(x: seq<Lock>, l: Lock, lost: iset<nat>)
    requires forall k :: 0 <= k < |x| ==> x[k].id != l.id
    ensures Remove(Keep(x + [l], Others(lost)), l.id) == Keep(x, Others(lost))
  {
    KeepLast(x, l, Others(lost));
    KeepRemove(x + [l], Others(lost), l.id);
    RemoveLast(x, l);
    if l.id in lost {
      RemoveAbsent(x, Others(lost), l.id);
      assert Keep(x, Others(lost)) + [] == Keep(x, Others(lost));
    }
  }

  // ---- Conflicts ----

  predicate Overlaps(a: Lock, b: Lock) {
    (a.start <= b.start && a.end > b.start) || (a.start < b.end && a.end >= b.end)
  }

  /** Two non-empty ranges overlap exactly when this test says so or `b` reaches beyond `a` on both sides. */
  lemma OverlapsExcept(a: Lock, b: Lock)
    requires a.start < a.end && b.start < b.end
    ensures (exists x :: Covers(a, x) && Covers(b, x)) <==>
              Overlaps(a, b) || (b.start < a.start && a.end < b.end)
  {
    var x := if a.start < b.start then b.start else a.start;
    assert Overlaps(a, b) || (b.start < a.start && a.end < b.end) ==> Covers(a, x) && Covers(b, x);
  }

  predicate Covers(l: Lock, x: int) {
    l.start <= x < l.end
  }

  /** Entry `c` of the global list stands in the way of the fail-immediately lock `l`. */
  predicate Blocks(c: Lock, l: Lock) {
    && c.inode == l.inode
    && !(if c.file == l.file then l.kind == SharedLock else c.kind == SharedLock)
    && Overlaps(c, l)
  }

  ghost predicate Blocked(g: seq<Lock>, l: Lock) {
    exists k :: 0 <= k < |g| && Blocks(g[k], l)
  }

  /** A list blocks a lock iff one of two parts of it does. */
  lemma {:induction false} BlockedParts(g: seq<Lock>, ids: iset<nat>, l: Lock)
    ensures Blocked(g, l) <==> Blocked(Keep(g, ids), l) || Blocked(Keep(g, Others(ids)), l)
    decreases |g|
  {
    if g == [] {
    } else {
      BlockedParts(g[1..], ids, l);
      BlockedFirst(g[0], g[1..], l);
      BlockedFirst(g[0], Keep(g[1..], ids), l);
      BlockedFirst(g[0], Keep(g[1..], Others(ids)), l);
      assert g == [g[0]] + g[1..];
    }
  }

  lemma BlockedFirst(c: Lock, g: seq<Lock>, l: Lock)
    ensures Blocked([c] + g, l) <==> Blocks(c, l) || Blocked(g, l)
  {
    if Blocked(g, l) {
      var k :| 0 <= k < |g| && Blocks(g[k], l);
      assert ([c] + g)[k + 1] == g[k];
    }
    if Blocks(c, l) {
      assert ([c] + g)[0] == c;
    }
  }

  // ---- What becomes of a request ----

  /** What the answers to one lock lead to: the status, how many answers are used up, and whether the lock
      stays on the lists. */
  datatype Verdict = Verdict(st: Status, next: nat, kept: bool)

  function AfterWake(wake: Wake): Status {
    match wake
    case Cancel => Cancelled
    case FileClosed => RangeNotLocked
    case _ => Unfinished
  }

  function Tried(oracle: seq<Answer>, from: nat): (v: Verdict)
    requires from <= |oracle|
    ensures from <= v.next <= |oracle| && v.st != InvalidParameter && (v.st == Success ==> v.kept)
    decreases |oracle| - from
  {
    if from == |oracle| then Verdict(Unfinished, from, false)
    else
      match oracle[from]
      case Granted => Verdict(Success, from + 1, true)
      case Refused => Verdict(LockNotGranted, from + 1, false)
      case DeferredNoAsync => Verdict(InsufficientResources, from + 1, true)
      case Deferred(_, _, wake) =>
        if wake.Again? then Tried(oracle, from + 1) else Verdict(AfterWake(wake), from + 1, wake.Asleep?)
  }

  ghost function Ids(req: seq<Lock>): iset<nat> {
    iset i | 0 <= i < |req| :: req[i].id
  }

  /** The locks in `held` that other requests unlock during some answers. */
  ghost function Unlocked(oracle: seq<Answer>, from: nat, next: nat, held: iset<nat>): iset<nat>
    requires next <= |oracle|
  {
    iset x | x in held && exists k :: from <= k < next && oracle[k].Deferred? && x in oracle[k].gone
  }

  /** What becomes of a request before the rollback: its status, the answers used up, how many of its locks
      were put on the lists, and which of them other requests unlocked. */
  datatype Outcome = Outcome(st: Status, used: nat, granted: nat, lost: iset<nat>)

  ghost function Attempt(req: seq<Lock>, i: nat, g: seq<Lock>, oracle: seq<Answer>, used: nat,
                         lost: iset<nat>): (o: Outcome)
    requires i <= |req| && used <= |oracle|
    ensures used <= o.used <= |oracle| && i <= o.granted <= |req|
    decreases |req| - i
  {
    if i == |req| then Outcome(Success, used, i, lost)
    else if req[i].kind == BadFlags then Outcome(InvalidParameter, used, i, lost)
    else if req[i].failNow && (Blocked(Keep(req[..i], Others(lost)), req[i]) ||
                               Blocked(Meanwhile(g, oracle, 0, used), req[i])) then
      Outcome(LockNotGranted, used, i, lost)
    else
      var t := Tried(oracle, used);
      var now := lost + Unlocked(oracle, used, t.next, Ids(req[..i]));
      if t.st == Success then Attempt(req, i + 1, g, oracle, t.next, now)
      else Outcome(t.st, t.next, if t.kept then i + 1 else i, now)
  }

  /** What becomes of a request. */
  ghost function Request(req: seq<Lock>, g: seq<Lock>, oracle: seq<Answer>): Outcome {
    Attempt(req, 0, g, oracle, 0, iset{})
  }

  // ---- The request ----

  /** The locks of one request are new, distinct entries. */
  ghost predicate Fresh(req: seq<Lock>, g: seq<Lock>) {
    && (forall i, j :: 0 <= i < j < |req| ==> req[i].id != req[j].id)
    && (forall i, k :: 0 <= i < |req| && 0 <= k < |g| ==> req[i].id != g[k].id)
  }

  /** The global lock list. */
  class LockTable {
    var global: seq<Lock>

    constructor ()
      ensures global == []
    {
      global := [];
    }

    /** The search of the global list for a fail-immediately lock. */
    method Conflicts(l: Lock) returns (hit: bool)
      ensures hit <==> Blocked(global, l)
    {
      for k := 0 to |global|
        invariant forall j :: 0 <= j < k ==> !Blocks(global[j], l)
      {
        var c := global[k];
        if c.inode != l.inode {
          continue;
        }
        if c.file == l.file {
          if l.kind == SharedLock {
            continue;
          }
        } else {
          if c.kind == SharedLock {
            continue;
          }
        }
        if (c.start <= l.start && c.end > l.start) || (c.start < l.end && c.end >= l.end) {
          return true;
        }
      }
      return false;
    }

    /** While the request waits for `l`, other requests use the list. A lock that is being waited for is
        not unlocked. */
    method Interfere(a: Answer, l: Lock, ghost ids: iset<nat>)
      requires a.Deferred? && Foreign(a, ids) && l.id in ids
      modifies this
      ensures Keep(global, ids) == Drop(old(Keep(global, ids)), a.gone - {l.id})
      ensures Keep(global, Others(ids)) == Drop(old(Keep(global, Others(ids))), a.gone) + a.extra
    {
      var gone := a.gone - {l.id};
      KeepDrop(global, gone, ids);
      KeepDrop(global, gone, Others(ids));
      DropSame(global, ids, a.gone, l.id);
      KeepExtra(Drop(global, gone), a.extra, ids);
      global := Drop(global, gone) + a.extra;
    }

    /** list_del of an entry of this request from the global list. */
    method Delete(l: Lock, ghost own: seq<Lock>, ghost lost: iset<nat>, ghost ids: iset<nat>)
      requires l.id in ids && Keep(global, ids) == Keep(own + [l], Others(lost))
      requires forall k :: 0 <= k < |own| ==> own[k].id != l.id
      modifies this
      ensures Keep(global, ids) == Keep(own, Others(lost))
      ensures Keep(global, Others(ids)) == old(Keep(global, Others(ids)))
    {
      KeepRemove(global, ids, l.id);
      KeepRemove(global, Others(ids), l.id);
      RemoveLastLeft(own, l, lost);
      global := Remove(global, l.id);
    }

    /** list_add_tail of a lock of this request to the global list. */
    method Append(l: Lock, ghost own: seq<Lock>, ghost lost: iset<nat>, ghost ids: iset<nat>)
      requires l.id in ids && l.id !in lost && Keep(global, ids) == Keep(own, Others(lost))
      modifies this
      ensures Keep(global, ids) == Keep(own + [l], Others(lost))
      ensures Keep(global, Others(ids)) == old(Keep(global, Others(ids)))
    {
      KeepLast(global, l, ids);
      KeepLast(global, l, Others(ids));
      KeepLast(own, l, Others(lost));
      assert Keep(global, Others(ids)) + [] == Keep(global, Others(ids));
      global := global + [l];
    }

    /** Wait for `l`, which is then the last of the request's entries. */
    method Wait(a: Answer, l: Lock, ghost own: seq<Lock>, ghost lost: iset<nat>, ghost ids: iset<nat>)
      requires a.Deferred? && Foreign(a, ids) && l.id in ids && Keep(global, ids) == Keep(own + [l], Others(lost))
      requires forall k :: 0 <= k < |own| ==> own[k].id != l.id
      modifies this
      ensures Keep(global, ids) == Keep(own + [l], Others(lost + Unlocked([a], 0, 1, Ids(own))))
      ensures Keep(global, Others(ids)) == Drop(old(Keep(global, Others(ids))), a.gone) + a.extra
    {
      Interfere(a, l, ids);
      ghost var more, x := Unlocked([a], 0, 1, Ids(own)), own + [l];
      forall k | 0 <= k < |x|
        ensures x[k].id in more <==> x[k].id in a.gone - {l.id}
      {
        UnlockedOne(a, own, x[k], l);
      }
      DropLost(x, lost, a.gone - {l.id}, more);
    }

    /** What one answer of the kernel leads to; `again` if the call is made once more. What is left of the
        request's entries of the global list is its rollback list without the locks others unlocked. */
    method Answered(l: Lock, a: Answer, rollback: seq<Lock>, ghost lost: iset<nat>, ghost ids: iset<nat>)
      returns (st: Status, rb: seq<Lock>, again: bool)
      requires l.id in ids && l.id !in lost && Foreign(a, ids)
      requires Keep(global, ids) == Keep(Reverse(rollback), Others(lost))
      requires forall k :: 0 <= k < |Reverse(rollback)| ==> Reverse(rollback)[k].id != l.id
      modifies this
      ensures again <==> a.Deferred? && a.wake.Again?
      ensures !again ==> var v := Tried([a], 0); st == v.st && rb == if v.kept then [l] + rollback else rollback
      ensures again ==> rb == rollback && st == Unfinished
      ensures Keep(global, ids) ==
                Keep(Reverse(rb), Others(lost + Unlocked([a], 0, 1, Ids(Reverse(rollback)))))
      ensures Keep(global, Others(ids)) ==
                var f := old(Keep(global, Others(ids))); if a.Deferred? then Drop(f, a.gone) + a.extra else f
    {
      rb, again := rollback, false;
      ghost var own := Reverse(rollback);
      ghost var now := lost + Unlocked([a], 0, 1, Ids(own));
      assert !a.Deferred? ==> now == lost;
      if a.Refused? {
        return LockNotGranted, rb, false;
      }
      Append(l, own, lost, ids);
      rb := [l] + rb;
      assert rb[1..] == rollback;
      if a.Granted? {
        return Success, rb, false;
      }
      if a.DeferredNoAsync? {
        return InsufficientResources, rb, false;
      }
      Wait(a, l, own, lost, ids);
      if a.wake == Asleep {
        return Unfinished, rb, false;
      }
      Delete(l, own, now, ids);
      rb := rollback;
      match a.wake {
        case Cancel => return Cancelled, rb, false;
        case FileClosed => return RangeNotLocked, rb, false;
        case Again => return Unfinished, rb, true;
      }
    }

    /** The list and the lost locks between the answers from number `from` up to `next` to a request whose
        locks on the rollback list are `own`. */
    ghost predicate Between(own: seq<Lock>, rb: seq<Lock>, foreign: seq<Lock>, oracle: seq<Answer>, from: nat,
                            next: nat, lost: iset<nat>, ids: iset<nat>)
      reads this
      requires from <= next <= |oracle|
    {
      && Keep(global, ids) == Keep(Reverse(rb), Others(lost + Unlocked(oracle, from, next, Ids(own))))
      && Keep(global, Others(ids)) == Meanwhile(foreign, oracle, from, next)
    }

    /** One answer among others. */
    method TakeAnswer(l: Lock, rollback: seq<Lock>, oracle: seq<Answer>, from: nat, next: nat,
                      ghost foreign: seq<Lock>, ghost lost: iset<nat>, ghost ids: iset<nat>)
      returns (st: Status, rb: seq<Lock>, again: bool)
      requires from <= next < |oracle| && l.id in ids && l.id !in lost && Foreign(oracle[next], ids)
      requires Between(Reverse(rollback), rollback, foreign, oracle, from, next, lost, ids)
      requires forall k :: 0 <= k < |Reverse(rollback)| ==> Reverse(rollback)[k].id != l.id
      modifies this
      ensures Between(Reverse(rollback), rb, foreign, oracle, from, next + 1, lost, ids)
      ensures if again then rb == rollback && st == Unfinished && Tried(oracle, next) == Tried(oracle, next + 1)
              else var v := Tried(oracle, next);
                   st == v.st && next + 1 == v.next && rb == if v.kept then [l] + rollback else rollback
    {
      ghost var held := Ids(Reverse(rollback));
      ghost var now := lost + Unlocked(oracle, from, next, held);
      assert l.id !in held;
      UnlockedNext(oracle, from, next, held, lost, now);
      TriedNext(oracle, next);
      st, rb, again := Answered(l, oracle[next], rollback, now, ids);
    }

    /** One lock of the request, from the call into the kernel on, through any number of deferrals. */
    method Take(l: Lock, rollback: seq<Lock>, oracle: seq<Answer>, from: nat, ghost lost: iset<nat>,
                ghost ids: iset<nat>)
      returns (st: Status, rb: seq<Lock>, next: nat)
      requires from <= |oracle| && l.id in ids && l.id !in lost && AllForeign(oracle, ids)
      requires Keep(global, ids) == Keep(Reverse(rollback), Others(lost))
      requires forall k :: 0 <= k < |Reverse(rollback)| ==> Reverse(rollback)[k].id != l.id
      modifies this
      ensures var v := Tried(oracle, from);
              st == v.st && next == v.next && rb == if v.kept then [l] + rollback else rollback
      ensures Between(Reverse(rollback), rb, old(Keep(global, Others(ids))), oracle, from, next, lost, ids)
    {
      rb, next := rollback, from;
      var again := true;
      st := Unfinished;
      ghost var foreign := Keep(global, Others(ids));
      UnlockedNone(oracle, from, Ids(Reverse(rollback)), lost);
      while next < |oracle| && again
        invariant from <= next <= |oracle| && Between(Reverse(rollback), rb, foreign, oracle, from, next, lost, ids)
        invariant if again then rb == rollback && st == Unfinished && Tried(oracle, from) == Tried(oracle, next)
                  else var v := Tried(oracle, from);
                       v.st == st && v.next == next && rb == if v.kept then [l] + rollback else rollback
        decreases |oracle| - next
      {
        st, rb, again := TakeAnswer(l, rb, oracle, from, next, foreign, lost, ids);
        next := next + 1;
      }
    }

    /** The `out:` part of smb2_lock: undo everything on the rollback list. */
    method Rollback(rollback: seq<Lock>, ghost lost: iset<nat>, ghost ids: iset<nat>)
      requires Keep(global, ids) == Keep(Reverse(rollback), Others(lost)) && Distinct(Reverse(rollback))
      requires forall k :: 0 <= k < |Reverse(rollback)| ==> Reverse(rollback)[k].id in ids
      modifies this
      ensures Keep(global, ids) == [] && Keep(global, Others(ids)) == old(Keep(global, Others(ids)))
    {
      var rb := rollback;
      while rb != []
        invariant Keep(global, ids) == Keep(Reverse(rb), Others(lost)) && Distinct(Reverse(rb))
        invariant forall k :: 0 <= k < |Reverse(rb)| ==> Reverse(rb)[k].id in ids
        invariant Keep(global, Others(ids)) == old(Keep(global, Others(ids)))
        decreases |rb|
      {
        ghost var own := Reverse(rb[1..]);
        assert Reverse(rb) == own + [rb[0]] && (own + [rb[0]])[|own|] == rb[0];
        assert forall k :: 0 <= k < |own| ==> own[k] == Reverse(rb)[k];
        Delete(rb[0], own, lost, ids);
        rb := rb[1..];
      }
    }

    /** One turn of the loop of smb2_lock. */
    method TakeNext(req: seq<Lock>, i: nat, rollback: seq<Lock>, oracle: seq<Answer>, used: nat,
                    ghost g: seq<Lock>, ghost lost: iset<nat>, ghost ids: iset<nat>)
      returns (st: Status, rb: seq<Lock>, next: nat, ghost now: iset<nat>)
      requires i < |req| && used <= |oracle| && ids == Ids(req) && AllForeign(oracle, ids)
      requires Distinct(req) && lost <= Ids(req[..i]) && Reverse(rollback) == req[..i]
      requires Keep(global, ids) == Keep(req[..i], Others(lost))
      requires Keep(global, Others(ids)) == Meanwhile(g, oracle, 0, used)
      modifies this
      ensures used <= next <= |oracle| && (st == Success ==> now <= Ids(req[..i + 1]))
      ensures Keep(global, ids) == Keep(Reverse(rb), Others(now))
      ensures Keep(global, Others(ids)) == Meanwhile(g, oracle, 0, next)
      ensures if st == Success then
                && Reverse(rb) == req[..i + 1]
                && Attempt(req, i, g, oracle, used, lost) == Attempt(req, i + 1, g, oracle, next, now)
              else
                && (Reverse(rb) == req[..i] || Reverse(rb) == req[..i + 1])
                && Attempt(req, i, g, oracle, used, lost) == Outcome(st, next, |Reverse(rb)|, now)
    {
      rb, next, now := rollback, used, lost;
      var l := req[i];
      assert l.id in ids;
      if l.kind == BadFlags {
        return InvalidParameter, rb, next, now;
      }
      if l.failNow {
        BlockedParts(global, ids, l);
        var hit := Conflicts(l);
        if hit {
          return LockNotGranted, rb, next, now;
        }
      }
      st, rb, next := Take(l, rollback, oracle, used, lost, ids);
      MeanwhileSplit(g, oracle, used, next);
      ReverseNext(req, i, l, rollback);
      now := lost + Unlocked(oracle, used, next, Ids(req[..i]));
      UnlockedWithin(req, i, lost, oracle, used, next);
    }

    /** smb2_lock over the locks of one request: the status is the one the request's flags, the conflicts
        and the answers decide. On success the request's entries of the global list are its locks in order;
        a request that still waits, or whose file was closed, has exactly the locks granted so far (and the
        one it waits for); from these are missing the locks that other requests unlocked while it waited.
        On every other failure nothing of it is left. The entries of other requests are what those requests
        alone made of them. */
    method SmbLock(req: seq<Lock>, oracle: seq<Answer>) returns (st: Status, used: nat)
      requires Fresh(req, global) && AllForeign(oracle, Ids(req))
      modifies this
      ensures var o := Request(req, old(global), oracle);
              && st == o.st && used == o.used
              && (st in {Success, RangeNotLocked, Unfinished} ==>
                    Keep(global, Ids(req)) == Keep(req[..o.granted], Others(o.lost)))
              && (st !in {Success, RangeNotLocked, Unfinished} ==> global == Meanwhile(old(global), oracle, 0, used))
      ensures Keep(global, Others(Ids(req))) == Meanwhile(old(global), oracle, 0, used)
    {
      ghost var ids, g, lost := Ids(req), global, iset{};
      ghost var granted: nat := 0;
      ghost var o := Request(req, g, oracle);
      KeepAllOrNone(global, ids);
      var rollback: seq<Lock> := [];
      used := 0;
      var i := 0;
      st := Success;
      while i < |req| && st == Success
        invariant 0 <= i <= |req| && used <= |oracle| && granted <= |req| && Reverse(rollback) == req[..granted]
        invariant Keep(global, ids) == Keep(req[..granted], Others(lost))
        invariant Keep(global, Others(ids)) == Meanwhile(g, oracle, 0, used)
        invariant if st == Success then
                    granted == i && lost <= Ids(req[..i]) && Attempt(req, i, g, oracle, used, lost) == o
                  else o == Outcome(st, used, granted, lost)
        decreases |req| - i
      {
        st, rollback, used, lost := TakeNext(req, i, rollback, oracle, used, g, lost, ids);
        i := i + 1;
        granted := |Reverse(rollback)|;
      }
      if st !in {Success, RangeNotLocked, Unfinished} {
        Rollback(rollback, lost, ids);
        KeepAllOrNone(global, ids);
      }
    }
  }

  lemma {:induction false} DropSame(g: seq<Lock>, ids: iset<nat>, gone: set<nat>, id: nat)
    requires id in ids
    ensures Drop(Keep(g, Others(ids)), gone - {id}) == Drop(Keep(g, Others(ids)), gone)
    decreases |g|
  {
    if g == [] {
    } else {
      DropSame(g[1..], ids, gone, id);
      var tail := Keep(g[1..], Others(ids));
      assert ([g[0]] + tail)[1..] == tail;
    }
  }

  lemma UnlockedOne(a: Answer, own: seq<Lock>, c: Lock, l: Lock)
    requires a.Deferred? && c in own + [l] && forall k :: 0 <= k < |own| ==> own[k].id != l.id
    ensures c.id in Unlocked([a], 0, 1, Ids(own)) <==> c.id in a.gone - {l.id}
  {
    assert [a][0] == a;
    assert c == l || c.id in Ids(own);
  }

  lemma TriedNext(oracle: seq<Answer>, next: nat)
    requires next < |oracle|
    ensures var a := oracle[next];
            Tried(oracle, next) == if a.Deferred? && a.wake.Again? then Tried(oracle, next + 1)
                                   else Tried([a], 0).(next := next + 1)
  {
    assert [oracle[next]][0] == oracle[next];
  }

  lemma UnlockedWithin(req: seq<Lock>, i: nat, lost: iset<nat>, oracle: seq<Answer>, from: nat, next: nat)
    requires i < |req| && next <= |oracle| && lost <= Ids(req[..i])
    ensures lost + Unlocked(oracle, from, next, Ids(req[..i])) <= Ids(req[..i + 1])
  {
    assert forall k :: 0 <= k < i ==> req[..i][k] == req[..i + 1][k];
  }

  lemma UnlockedNone(oracle: seq<Answer>, from: nat, held: iset<nat>, lost: iset<nat>)
    requires from <= |oracle|
    ensures lost + Unlocked(oracle, from, from, held) == lost
  {
  }

  lemma UnlockedNext(oracle: seq<Answer>, from: nat, next: nat, held: iset<nat>, lost: iset<nat>, now: iset<nat>)
    requires from <= next < |oracle| && now == lost + Unlocked(oracle, from, next, held)
    ensures now + Unlocked([oracle[next]], 0, 1, held) == lost + Unlocked(oracle, from, next + 1, held)
  {
    assert [oracle[next]][0] == oracle[next];
    assert Unlocked(oracle, from, next + 1, held) ==
           Unlocked(oracle, from, next, held) + Unlocked([oracle[next]], 0, 1, held);
  }

  ghost predicate Distinct(g: seq<Lock>) {
    forall i, j :: 0 <= i < j < |g| ==> g[i].id != g[j].id
  }

  lemma ReverseNext(req: seq<Lock>, i: nat, l: Lock, rollback: seq<Lock>)
    requires i < |req| && l == req[i] && Reverse(rollback) == req[..i]
    ensures Reverse([l] + rollback) == req[..i + 1]
  {
    assert ([l] + rollback)[1..] == rollback;
  }

  lemma {:induction false} MeanwhileSplit(g: seq<Lock>, oracle: seq<Answer>, a: nat, b: nat)
    requires a <= b <= |oracle|
    ensures Meanwhile(Meanwhile(g, oracle, 0, a), oracle, a, b) == Meanwhile(g, oracle, 0, b)
    decreases b - a
  {
    if a == b {
    } else {
      MeanwhileSplit(g, oracle, a, b - 1);
    }
  }

  // ---- All or nothing ----

  /** One answer leaves the entries of the request on the global list equal to its rollback list, if they
      were, exactly when no granted lock of it is unlocked meanwhile. */
  lemma AnswerMirrors(a: Answer, l: Lock, own: seq<Lock>, rb: seq<Lock>)
    requires forall k :: 0 <= k < |own| ==> own[k].id != l.id
    requires Reverse(rb) == own || Reverse(rb) == own + [l]
    ensures Keep(Reverse(rb), Others(iset{} + Unlocked([a], 0, 1, Ids(own)))) == Reverse(rb) <==>
              forall k :: 0 <= k < |own| && a.Deferred? ==> own[k].id !in a.gone
  {
    var lost := iset{} + Unlocked([a], 0, 1, Ids(own));
    MirrorsExact(Reverse(rb), lost);
    assert [a][0] == a;
    forall k | 0 <= k < |own|
      ensures own[k].id in lost <==> a.Deferred? && own[k].id in a.gone
    {
      assert own[k].id in Ids(own);
    }
    assert l.id !in lost;
    assert forall k :: 0 <= k < |own| ==> Reverse(rb)[k] == own[k];
  }

  /** How many answers before number `k` are grants. */
  ghost function Grants(oracle: seq<Answer>, k: nat): nat
    requires k <= |oracle|
    decreases k
  {
    if k == 0 then 0 else Grants(oracle, k - 1) + if oracle[k - 1] == Granted then 1 else 0
  }

  /** During answer `k` another request unlocks lock `j` of this one, which was granted before. */
  ghost predicate Takes(req: seq<Lock>, oracle: seq<Answer>, k: nat, j: nat)
    requires k < |oracle| && j < |req|
  {
    j < Grants(oracle, k) && oracle[k].Deferred? && req[j].id in oracle[k].gone
  }

  /** The locks granted and unlocked again during the answers before number `k`. */
  ghost function Lost(req: seq<Lock>, oracle: seq<Answer>, k: nat): iset<nat>
    requires k <= |oracle|
  {
    iset m, j | 0 <= m < k && 0 <= j < |req| && Takes(req, oracle, m, j) :: req[j].id
  }

  /** Until a lock is granted, no answer is a grant. */
  lemma {:induction false} GrantsTried(oracle: seq<Answer>, from: nat, k: nat)
    requires from <= |oracle| && from <= k <= Tried(oracle, from).next
    ensures var t := Tried(oracle, from);
            Grants(oracle, k) == Grants(oracle, from) + if t.st == Success && k == t.next then 1 else 0
    decreases |oracle| - from
  {
    if k == from {
      TriedUses(oracle, from);
    } else if oracle[from].Deferred? && oracle[from].wake.Again? {
      GrantsTried(oracle, from + 1, k);
    }
  }

  lemma {:induction false} TriedUses(oracle: seq<Answer>, from: nat)
    requires from <= |oracle|
    ensures Tried(oracle, from).st == Success ==> from < Tried(oracle, from).next
    decreases |oracle| - from
  {
    if from == |oracle| {
    } else {
      TriedUses(oracle, from + 1);
    }
  }

  lemma GrantsWithin(req: seq<Lock>, i: nat, oracle: seq<Answer>, from: nat, k: nat)
    requires i < |req| && from <= |oracle| && from <= k < Tried(oracle, from).next && i == Grants(oracle, from)
    ensures Grants(oracle, k) == i
  {
    GrantsTried(oracle, from, k);
  }

  /** The locks lost while one more is tried. */
  lemma LostMore(req: seq<Lock>, i: nat, oracle: seq<Answer>, from: nat, next: nat)
    requires from <= |oracle| && i < |req| && i == Grants(oracle, from) && next == Tried(oracle, from).next
    ensures Lost(req, oracle, next) == Lost(req, oracle, from) + Unlocked(oracle, from, next, Ids(req[..i]))
  {
    var was, more, all := Lost(req, oracle, from), Unlocked(oracle, from, next, Ids(req[..i])), Lost(req, oracle, next);
    forall x
      ensures x in all <==> x in was || x in more
    {
      if x in more {
        var k :| from <= k < next && oracle[k].Deferred? && x in oracle[k].gone;
        var j :| 0 <= j < i && req[..i][j].id == x;
        GrantsWithin(req, i, oracle, from, k);
        assert Takes(req, oracle, k, j) && req[j].id == x;
      }
      if x in all {
        var m, j :| 0 <= m < next && 0 <= j < |req| && Takes(req, oracle, m, j) && req[j].id == x;
        if m >= from {
          GrantsWithin(req, i, oracle, from, m);
          assert req[..i][j].id == x;
        }
      }
    }
  }

  /** Which locks a request loses, in terms of the answers alone. */
  lemma {:induction false} LostExact(req: seq<Lock>, i: nat, g: seq<Lock>, oracle: seq<Answer>, used: nat,
                                     lost: iset<nat>)
    requires i <= |req| && used <= |oracle| && i == Grants(oracle, used) && lost == Lost(req, oracle, used)
    ensures var o := Attempt(req, i, g, oracle, used, lost); o.lost == Lost(req, oracle, o.used)
    decreases |req| - i
  {
    if i == |req| {
    } else {
      var t := Tried(oracle, used);
      LostMore(req, i, oracle, used, t.next);
      TriedUses(oracle, used);
      GrantsTried(oracle, used, t.next);
      if t.st == Success {
        LostExact(req, i + 1, g, oracle, t.next, Lost(req, oracle, t.next));
      }
    }
  }

  lemma {:induction false} LostWithin(req: seq<Lock>, i: nat, g: seq<Lock>, oracle: seq<Answer>, used: nat,
                                      lost: iset<nat>)
    requires i <= |req| && used <= |oracle| && lost <= Ids(req[..i])
    ensures var o := Attempt(req, i, g, oracle, used, lost); o.lost <= Ids(req[..o.granted])
    decreases |req| - i
  {
    if i == |req| {
    } else {
      var t := Tried(oracle, used);
      UnlockedWithin(req, i, lost, oracle, used, t.next);
      if t.st == Success {
        LostWithin(req, i + 1, g, oracle, t.next, lost + Unlocked(oracle, used, t.next, Ids(req[..i])));
      }
    }
  }

  /** The locks put on the lists are all still there exactly when none of the answers used lets another
      request unlock a lock that an earlier answer granted. */
  lemma AllOrNothingExact(req: seq<Lock>, g: seq<Lock>, oracle: seq<Answer>)
    ensures var o := Request(req, g, oracle);
            Keep(req[..o.granted], Others(o.lost)) == req[..o.granted] <==>
              forall k, j :: 0 <= k < o.used && 0 <= j < |req| ==> !Takes(req, oracle, k, j)
  {
    var o := Request(req, g, oracle);
    LostNone(req, oracle);
    LostExact(req, 0, g, oracle, 0, iset{});
    LostWithin(req, 0, g, oracle, 0, iset{});
    MirrorsExact(req[..o.granted], o.lost);
    forall k, j | 0 <= k < o.used && 0 <= j < |req| && Takes(req, oracle, k, j)
      ensures req[j].id in o.lost
    {
    }
  }

  lemma LostNone(req: seq<Lock>, oracle: seq<Answer>)
    ensures Lost(req, oracle, 0) == iset{}
  {
  }

  /** No answer lets another request unlock a lock of this one. */
  ghost predicate Untouched(req: seq<Lock>, oracle: seq<Answer>) {
    forall k, x :: 0 <= k < |oracle| && oracle[k].Deferred? && x in oracle[k].gone ==> x !in Ids(req)
  }

  lemma {:induction false} UntouchedLosesNone(req: seq<Lock>, i: nat, g: seq<Lock>, oracle: seq<Answer>, used: nat)
    requires i <= |req| && used <= |oracle| && Untouched(req, oracle)
    ensures Attempt(req, i, g, oracle, used, iset{}).lost == iset{}
    decreases |req| - i
  {
    if i == |req| {
    } else {
      var t := Tried(oracle, used);
      assert forall k :: 0 <= k < i ==> req[..i][k] == req[k] && req[k].id in Ids(req);
      assert iset{} + Unlocked(oracle, used, t.next, Ids(req[..i])) == iset{};
      if t.st == Success {
        UntouchedLosesNone(req, i + 1, g, oracle, t.next);
      }
    }
  }

  /** A granted lock lost: while the request waits for its second lock, its first is unlocked. The request
      succeeds, but only its second lock is on the global list. */
  lemma GrantedLockLost(a: Lock, b: Lock, g: seq<Lock>)
    requires a.id != b.id && a.kind != BadFlags && b.kind != BadFlags && !a.failNow && !b.failNow
    ensures var o := Request([a, b], g, [Granted, Deferred({a.id}, [], Again), Granted]);
            o.st == Success && o.lost == iset{a.id} && Keep([a, b], Others(o.lost)) == [b]
  {
    var req, oracle := [a, b], [Granted, Deferred({a.id}, [], Again), Granted];
    assert req[..1] == [a] && Ids(req[..0]) == iset{};
    assert Ids([a]) == iset{a.id} by {
      assert [a][0] == a && a.id in Ids([a]);
    }
    assert Tried(oracle, 0) == Verdict(Success, 1, true) && Tried(oracle, 1) == Tried(oracle, 2);
    assert Tried(oracle, 2) == Verdict(Success, 3, true);
    assert iset{} + Unlocked(oracle, 0, 1, iset{}) == iset{} && oracle[1].gone == {a.id};
    assert iset{} + Unlocked(oracle, 1, 3, iset{a.id}) == iset{a.id};
    assert Request(req, g, oracle) == Attempt(req, 1, g, oracle, 1, iset{});
    assert Attempt(req, 1, g, oracle, 1, iset{}) == Attempt(req, 2, g, oracle, 3, iset{a.id});
    var kept := Others(iset{a.id});
    assert [a, b][1..] == [b] && [b][1..] == [] && Keep([b], kept) == [b] + Keep([], kept);
  }

  // ---- When a request succeeds ----

  /** The answers from number `from` on that are not followed by a retry. */
  ghost function Finals(oracle: seq<Answer>, from: nat): seq<Answer>
    requires from <= |oracle|
    decreases |oracle| - from
  {
    if from == |oracle| then []
    else if oracle[from].Deferred? && oracle[from].wake.Again? then Finals(oracle, from + 1)
    else [oracle[from]] + Finals(oracle, from + 1)
  }

  lemma {:induction false} TriedFinal(oracle: seq<Answer>, from: nat)
    requires from <= |oracle|
    ensures var f, v := Finals(oracle, from), Tried(oracle, from);
            && (v.st == Success <==> f != [] && f[0] == Granted)
            && (v.st == Success ==> Finals(oracle, v.next) == f[1..])
    decreases |oracle| - from
  {
    if from == |oracle| {
    } else {
      TriedFinal(oracle, from + 1);
    }
  }

  /** How many answers are used up when lock `i` is tried, those before it being granted. */
  ghost function Start(oracle: seq<Answer>, i: nat): (r: nat)
    ensures r <= |oracle|
    decreases i
  {
    if i == 0 then 0 else Tried(oracle, Start(oracle, i - 1)).next
  }

  /** Lock `i` fails at once: when it is tried, one of the request's own locks or an entry of another
      request stands in the way. */
  ghost predicate InTheWay(req: seq<Lock>, g: seq<Lock>, oracle: seq<Answer>, i: nat)
    requires i < |req|
  {
    var at := Start(oracle, i);
    req[i].failNow && (Blocked(Keep(req[..i], Others(Lost(req, oracle, at))), req[i]) ||
                       Blocked(Meanwhile(g, oracle, 0, at), req[i]))
  }

  /** Lock `i` passes, the locks before it being granted. */
  ghost predicate Passes(req: seq<Lock>, g: seq<Lock>, oracle: seq<Answer>, i: nat)
    requires i < |req|
  {
    && req[i].kind != BadFlags && !InTheWay(req, g, oracle, i)
    && i < |Finals(oracle, 0)| && Finals(oracle, 0)[i] == Granted
  }

  /** The answers still to come when lock `i` is tried. */
  ghost predicate At(oracle: seq<Answer>, i: nat, used: nat)
    requires used <= |oracle|
  {
    used == Start(oracle, i) && i == Grants(oracle, used) && i <= |Finals(oracle, 0)| &&
    Finals(oracle, used) == Finals(oracle, 0)[i..]
  }

  lemma AtNext(oracle: seq<Answer>, i: nat, used: nat)
    requires used <= |oracle| && At(oracle, i, used)
    ensures var t := Tried(oracle, used);
            && (t.st == Success <==> i < |Finals(oracle, 0)| && Finals(oracle, 0)[i] == Granted)
            && (t.st == Success ==> At(oracle, i + 1, t.next))
  {
    var t := Tried(oracle, used);
    TriedFinal(oracle, used);
    TriedUses(oracle, used);
    GrantsTried(oracle, used, t.next);
  }

  lemma SucceedsNext(req: seq<Lock>, i: nat, g: seq<Lock>, oracle: seq<Answer>, used: nat, lost: iset<nat>)
    requires i < |req| && used <= |oracle| && At(oracle, i, used) && lost == Lost(req, oracle, used)
    ensures var next := Tried(oracle, used).next;
            Attempt(req, i, g, oracle, used, lost).st == Success <==>
              Passes(req, g, oracle, i) &&
              Attempt(req, i + 1, g, oracle, next, Lost(req, oracle, next)).st == Success
  {
    AtNext(oracle, i, used);
    LostMore(req, i, oracle, used, Tried(oracle, used).next);
  }

  lemma {:induction false} SucceedsFrom(req: seq<Lock>, i: nat, g: seq<Lock>, oracle: seq<Answer>, used: nat,
                                        lost: iset<nat>)
    requires i <= |req| && used <= |oracle| && At(oracle, i, used) && lost == Lost(req, oracle, used)
    ensures Attempt(req, i, g, oracle, used, lost).st == Success <==>
              forall k :: i <= k < |req| ==> Passes(req, g, oracle, k)
    decreases |req| - i
  {
    if i == |req| {
    } else {
      var next := Tried(oracle, used).next;
      SucceedsNext(req, i, g, oracle, used, lost);
      if Passes(req, g, oracle, i) {
        AtNext(oracle, i, used);
        SucceedsFrom(req, i + 1, g, oracle, next, Lost(req, oracle, next));
      }
    }
  }

  /** A request succeeds exactly when each of its locks has good flags, is not in conflict if it fails
      immediately, and has a grant as its final answer. */
  lemma SuccessExact(req: seq<Lock>, g: seq<Lock>, oracle: seq<Answer>)
    ensures Request(req, g, oracle).st == Success <==>
              forall k :: 0 <= k < |req| ==> Passes(req, g, oracle, k)
  {
    LostNone(req, oracle);
    SucceedsFrom(req, 0, g, oracle, 0, iset{});
  }

  // ---- What one lock meets ----

  /** The ranges share a byte, and `l` does not reach beyond `c` on both sides. */
  ghost predicate Meets(c: Lock, l: Lock) {
    c.start < l.end && l.start < c.end && !(l.start < c.start && c.end < l.end)
  }

  /** The entry is in conflict with the lock: on the same inode and meeting it, and either of the same open
      while the lock is not a shared one, or of another open and not a shared one. */
  ghost predicate Conflict(c: Lock, l: Lock) {
    && c.inode == l.inode && Meets(c, l)
    && ((c.file == l.file && l.kind == ExclusiveLock) || (c.file != l.file && c.kind == ExclusiveLock))
  }

  lemma BlocksExact(c: Lock, l: Lock)
    requires c.start < c.end && l.start < l.end && c.kind != BadFlags && l.kind != BadFlags
    ensures Blocks(c, l) <==> Conflict(c, l)
  {
  }

  ghost predicate Sound(g: seq<Lock>) {
    forall k :: 0 <= k < |g| ==> g[k].start < g[k].end && g[k].kind != BadFlags
  }

  /** A request for one fail-immediately lock that the kernel would grant is refused exactly when some entry
      of the global list is in conflict with it, without asking the kernel; otherwise it succeeds. */
  lemma FailNowExact(l: Lock, g: seq<Lock>)
    requires l.start < l.end && l.kind != BadFlags && l.failNow && Sound(g)
    ensures var o := Request([l], g, [Granted]);
            if exists k :: 0 <= k < |g| && Conflict(g[k], l) then
              o.st == LockNotGranted && o.used == 0 && o.granted == 0
            else o.st == Success && o.used == 1 && o.granted == 1
  {
    forall k | 0 <= k < |g|
      ensures Blocks(g[k], l) <==> Conflict(g[k], l)
    {
      BlocksExact(g[k], l);
    }
    assert [l][..0] == [] && Keep([], Others(iset{})) == [] && Meanwhile(g, [Granted], 0, 0) == g;
    assert Blocked(g, l) <==> exists k :: 0 <= k < |g| && Conflict(g[k], l);
    assert !Blocked([], l);
    OneGranted(l, g, [Granted]);
  }

  lemma OneGranted(l: Lock, g: seq<Lock>, oracle: seq<Answer>)
    requires oracle == [Granted]
    ensures Tried(oracle, 0) == Verdict(Success, 1, true)
    ensures var now := iset{} + Unlocked(oracle, 0, 1, Ids([l][..0]));
            Attempt([l], 1, g, oracle, 1, now) == Outcome(Success, 1, 1, now)
  {
  }

  /** What becomes of a request for one lock that may wait, by the kernel's answers: how it ends, and whether
      its lock is on the lists then. */
  lemma OneLockExact(l: Lock, g: seq<Lock>, a: Answer)
    requires l.kind != BadFlags && !l.failNow
    ensures var o := Request([l], g, [a]);
            && o.used == 1
            && (a == Granted ==> o.st == Success && o.granted == 1)
            && (a == Refused ==> o.st == LockNotGranted && o.granted == 0)
            && (a == DeferredNoAsync ==> o.st == InsufficientResources && o.granted == 1)
            && (a.Deferred? && a.wake == Cancel ==> o.st == Cancelled && o.granted == 0)
            && (a.Deferred? && a.wake == FileClosed ==> o.st == RangeNotLocked && o.granted == 0)
            && (a.Deferred? && a.wake == Asleep ==> o.st == Unfinished && o.granted == 1)
            && (a.Deferred? && a.wake == Again ==> o.st == Unfinished && o.granted == 0)
  {
    var oracle := [a];
    assert oracle[0] == a;
    if a == Granted {
      OneGranted(l, g, oracle);
    }
    assert a.Deferred? && a.wake == Again ==> Tried(oracle, 0) == Tried(oracle, 1);
  }

  /** Bad flags end a request at once. */
  lemma BadFlagsExact(l: Lock, g: seq<Lock>, oracle: seq<Answer>)
    requires l.kind == BadFlags
    ensures var o := Request([l], g, oracle); o.st == InvalidParameter && o.used == 0 && o.granted == 0
  {
  }

  /** What other requests make of a list during one wait: the entries they unlock are gone, the rest keep
      their order, and their new entries follow. */
  lemma {:induction false} DropExact(g: seq<Lock>, gone: set<nat>, l: Lock)
    ensures l in Drop(g, gone) <==> l in g && l.id !in gone
    ensures (forall k :: 0 <= k < |g| ==> g[k].id !in gone) ==> Drop(g, gone) == g
    decreases |g|
  {
    if g == [] {
    } else {
      DropExact(g[1..], gone, l);
      assert g == [g[0]] + g[1..];
    }
  }

  lemma MeanwhileOne(g: seq<Lock>, a: Answer, l: Lock)
    ensures var m := Meanwhile(g, [a], 0, 1);
            if a.Deferred? then
              && (l in m <==> (l in g && l.id !in a.gone) || l in a.extra)
              && |a.extra| <= |m| && m[|m| - |a.extra|..] == a.extra
            else m == g
  {
    assert [a][0] == a && Meanwhile(g, [a], 0, 0) == g;
    if a.Deferred? {
      DropExact(g, a.gone, l);
    }
  }
}
