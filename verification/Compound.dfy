/** Layout of a compound response (smb2pdu.c, init_smb2_rsp_hdr, init_chained_smb2_rsp and
    is_chained_smb2_message; section 3.3.4.1.3 of [MS-SMB2]). */
module Compound {

  import opened Basics

  const HEADER_SIZE: nat := 64

  /** Where the response headers belong for responses with bodies of these sizes. */
  ghost function Offsets(bodies: seq<nat>): (r: seq<nat>)
    requires bodies != []
    ensures |r| == |bodies|
  {
    if |bodies| == 1 then [0]
    else
      var init := Offsets(bodies[..|bodies| - 1]);
      init + [init[|init| - 1] + Align8(HEADER_SIZE + bodies[|bodies| - 2])]
  }

  lemma OffsetsNext(bodies: seq<nat>, k: nat)
    requires 0 < k < |bodies|
    ensures var o := Offsets(bodies[..k]);
            Offsets(bodies[..k + 1]) == o + [o[k - 1] + Align8(HEADER_SIZE + bodies[k - 1])]
  {
    assert bodies[..k + 1][..k] == bodies[..k];
  }

  lemma NextOffset(bodies: seq<nat>, offs: seq<nat>, k: nat, at: nat, off: nat)
    requires k + 1 < |bodies| && offs == Offsets(bodies[..k + 1]) && at == offs[|offs| - 1]
    requires off == at + Align8(HEADER_SIZE + bodies[k])
    ensures offs + [off] == Offsets(bodies[..k + 2])
  {
    OffsetsNext(bodies, k + 1);
  }

  /** The first header is at the start of the response, and each other one at the first multiple of 8 that is
      not before the end of the response before it, which takes 64 bytes and its body. */
  lemma {:induction false} OffsetsExact(bodies: seq<nat>, k: nat)
    requires k < |bodies|
    ensures var offs := Offsets(bodies);
            && offs[k] % 8 == 0 && (k == 0 ==> offs[k] == 0)
            && (k > 0 ==> var end := offs[k - 1] + 64 + bodies[k - 1]; end <= offs[k] < end + 8)
    decreases |bodies|
  {
    if |bodies| == 1 {
    } else {
      var n := |bodies| - 1;
      OffsetsExact(bodies[..n], if k < n then k else n - 1);
    }
  }

  /** Walking the NextCommand fields from the first offset visits exactly these headers and stops. */
  ghost predicate Visits(next: map<nat, nat>, offs: seq<nat>) {
    && offs != [] && offs[0] in next
    && if |offs| == 1 then next[offs[0]] == 0
       else next[offs[0]] > 0 && offs[1] == offs[0] + next[offs[0]] && Visits(next, offs[1..])
  }

  /** There is one walk from each header. */
  lemma {:induction false} VisitsUnique(next: map<nat, nat>, a: seq<nat>, b: seq<nat>)
    requires Visits(next, a) && Visits(next, b) && a[0] == b[0]
    ensures a == b
    decreases |a|
  {
    if |a| <= 1 {
    } else {
      VisitsUnique(next, a[1..], b[1..]);
    }
  }

  /** A walk goes on through a header added after its end. */
  lemma {:induction false} VisitsMore(next: map<nat, nat>, offs: seq<nat>, off: nat, step: nat)
    requires Visits(next, offs) && step > 0 && off == offs[|offs| - 1] + step
    requires forall i :: 0 <= i < |offs| ==> offs[i] <= offs[|offs| - 1]
    ensures Visits(next[offs[|offs| - 1] := step][off := 0], offs + [off])
    decreases |offs|
  {
    var n := |offs| - 1;
    var more := next[offs[n] := step][off := 0];
    if n == 0 {
      assert (offs + [off])[1..] == [off];
    } else {
      assert (offs + [off])[1..] == offs[1..] + [off];
      VisitsAscend(next, offs);
      VisitsMore(next, offs[1..], off, step);
    }
  }

  lemma {:induction false} VisitsAscend(next: map<nat, nat>, offs: seq<nat>)
    requires Visits(next, offs)
    ensures forall i :: 0 <= i < |offs| ==> offs[0] <= offs[i]
    ensures |offs| > 1 ==> offs[0] < offs[|offs| - 1]
    decreases |offs|
  {
    if |offs| <= 1 {
    } else {
      VisitsAscend(next, offs[1..]);
      assert forall i :: 1 <= i < |offs| ==> offs[i] == offs[1..][i - 1];
    }
  }

  /** Headers stand at `offs`, each at a multiple of 8, and are linked up to the last one, at `at`. */
  ghost predicate LaidOut(next: map<nat, nat>, offs: seq<nat>, at: nat) {
    && Visits(next[at := 0], offs) && offs[0] == 0 && offs[|offs| - 1] == at
    && at in next && (forall o :: o in next <==> o in offs)
    && (forall i :: 0 <= i < |offs| ==> offs[i] <= at && offs[i] % 8 == 0)
  }

  lemma LaidOutMore(next: map<nat, nat>, offs: seq<nat>, at: nat, step: nat, off: nat, more: map<nat, nat>)
    requires LaidOut(next, offs, at) && step > 0 && step % 8 == 0 && off == at + step
    requires more == next[at := step][off := 0]
    ensures LaidOut(more, offs + [off], off)
  {
    LinkMore(next, offs, at, step, off, more);
    OneMore(next, offs, at, step, off, more);
  }

  lemma LinkMore(next: map<nat, nat>, offs: seq<nat>, at: nat, step: nat, off: nat, more: map<nat, nat>)
    requires Visits(next[at := 0], offs) && offs[|offs| - 1] == at && step > 0 && off == at + step
    requires more == next[at := step][off := 0] && forall i :: 0 <= i < |offs| ==> offs[i] <= at
    ensures Visits(more[off := 0], offs + [off])
  {
    VisitsMore(next[at := 0], offs, off, step);
    assert next[at := 0][at := step] == next[at := step] && more[off := 0] == more;
  }

  lemma OneMore(next: map<nat, nat>, offs: seq<nat>, at: nat, step: nat, off: nat, more: map<nat, nat>)
    requires at in next && (forall o :: o in next <==> o in offs) && more == next[at := step][off := 0]
    requires off % 8 == 0 && at <= off && forall i :: 0 <= i < |offs| ==> offs[i] <= at && offs[i] % 8 == 0
    ensures forall o :: o in more <==> o in offs + [off]
    ensures forall i :: 0 <= i < |offs + [off]| ==> (offs + [off])[i] <= off && (offs + [off])[i] % 8 == 0
  {
    assert forall o :: o in offs + [off] <==> o in offs || o == off;
  }

  /** A request being answered: the length of the response, the offsets of the current response and
      request headers, and the NextCommand field of every response header written. */
  class Work {
    var length: nat
    var rspOff: nat
    var rcvOff: nat
    var next: map<nat, nat>

    /** The response headers written so far stand at `offs` and are linked up to the current one. */
    ghost predicate Laid(offs: seq<nat>)
      reads this
    {
      LaidOut(next, offs, rspOff) && length >= rspOff + HEADER_SIZE
    }

    /** init_smb2_rsp_hdr copies the request's NextCommand field. */
    constructor (nextCommand: nat)
      ensures length == HEADER_SIZE && rspOff == 0 && rcvOff == 0 && next == map[0 := nextCommand] && Laid([0])
    {
      length, rspOff, rcvOff, next := HEADER_SIZE, 0, 0, map[0 := nextCommand];
    }

    /** init_chained_smb2_rsp */
    method InitChained(nextCommand: nat, ghost offs: seq<nat>)
      requires Laid(offs)
      modifies this
      ensures rspOff == old(rspOff) + Align8(old(length) - old(rspOff)) && rcvOff == old(rcvOff) + nextCommand
      ensures length == rspOff + HEADER_SIZE && Laid(offs + [rspOff])
      ensures next[rspOff] == 0
    {
      var len := length - rspOff;
      var newLen: nat := Align8(len);
      ghost var at, was := rspOff, next;
      length := length + (HEADER_SIZE + newLen - len);
      next := next[rspOff := newLen];
      rcvOff := rcvOff + nextCommand;
      rspOff := rspOff + newLen;
      next := next[rspOff := 0];
      LaidOutMore(was, offs, at, newLen, rspOff, next);
    }

    /** is_chained_smb2_message, for a request whose NextCommand field is as given. */
    method IsChained(nextCommand: nat, ghost offs: seq<nat>) returns (more: bool)
      requires Laid(offs)
      modifies this
      ensures more == (nextCommand > 0)
      ensures more ==> rspOff == old(rspOff) + Align8(old(length) - old(rspOff)) && rcvOff == old(rcvOff) + nextCommand
      ensures more ==> length == rspOff + HEADER_SIZE && Laid(offs + [rspOff]) && next[rspOff] == 0
      ensures !more ==> Laid(offs) && rspOff == old(rspOff) && rcvOff == old(rcvOff) && next == old(next)
      ensures !more ==> length == if rcvOff > 0 then Align8(old(length)) else old(length)
    {
      if nextCommand > 0 {
        InitChained(nextCommand, offs);
        return true;
      } else if rcvOff > 0 {
        var len := Align8(length) - length;
        length := length + len;
      }
      return false;
    }

    /** Command `k` is about to be processed. */
    ghost predicate Ready(bodies: seq<nat>, offs: seq<nat>, k: nat)
      reads this
    {
      && k < |bodies| && Laid(offs) && offs == Offsets(bodies[..k + 1]) && length == rspOff + HEADER_SIZE
      && (rcvOff > 0 <==> k > 0) && (k > 0 ==> next[rspOff] == 0)
    }

    /** The last command has been processed. */
    ghost predicate Done(bodies: seq<nat>, offs: seq<nat>)
      reads this
    {
      && bodies != [] && Laid(offs) && offs == Offsets(bodies) && next[rspOff] == 0
      && var len := rspOff + HEADER_SIZE + bodies[|bodies| - 1]; length == if |bodies| > 1 then Align8(len) else len
    }

    /** One turn of the command loop: the handler adds its body, then the chain is looked at. */
    method Turn(nextCommand: nat, bodies: seq<nat>, k: nat, ghost offs: seq<nat>)
      returns (more: bool, ghost laid: seq<nat>)
      requires Ready(bodies, offs, k) && (nextCommand > 0 <==> k + 1 < |bodies|)
      requires k == 0 ==> next[rspOff] == nextCommand
      modifies this
      ensures more == (k + 1 < |bodies|)
      ensures more ==> Ready(bodies, laid, k + 1)
      ensures !more ==> Done(bodies, laid)
    {
      ghost var at := rspOff;
      length := length + bodies[k];
      laid := offs;
      more := IsChained(nextCommand, offs);
      if more {
        NextOffset(bodies, offs, k, at, rspOff);
        laid := offs + [rspOff];
      } else {
        assert bodies[..k + 1] == bodies;
      }
    }
  }

  /** The command loop of __handle_cifsd_work: the k-th request has NextCommand `requests[k]`, and its
      handler adds `bodies[k]` bytes to the response. For any number of commands and any sizes, walking
      the response from offset 0 visits exactly its headers, each at a multiple of 8; a chained
      response has a length that is a multiple of 8. */
  method Handle(requests: seq<nat>, bodies: seq<nat>) returns (w: Work, ghost offs: seq<nat>)
    requires |requests| == |bodies| > 0 && requests[|requests| - 1] == 0
    requires forall k :: 0 <= k < |requests| - 1 ==> requests[k] > 0
    ensures fresh(w) && offs == Offsets(bodies) && Visits(w.next, offs) && offs[0] == 0
    ensures (forall o :: o in w.next <==> o in offs) && forall i :: 0 <= i < |offs| ==> offs[i] % 8 == 0
    ensures |bodies| == 1 ==> w.length == HEADER_SIZE + bodies[0]
    ensures |bodies| > 1 ==> w.length == Align8(offs[|offs| - 1] + HEADER_SIZE + bodies[|bodies| - 1])
  {
    w := new Work(requests[0]);
    offs := [0];
    var k: nat, more := 0, true;
    while more
      invariant fresh(w)
      invariant more ==> w.Ready(bodies, offs, k) && (k == 0 ==> w.next[w.rspOff] == requests[0])
      invariant !more ==> w.Done(bodies, offs)
      decreases more, |bodies| - k
    {
      more, offs := w.Turn(requests[k], bodies, k, offs);
      k := k + 1;
    }
    assert w.next == w.next[w.rspOff := 0];
  }
}
