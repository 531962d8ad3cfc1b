/** The SMB 3.1.1 preauthentication hash chain (auth.c, smb2pdu.c; sections 3.3.5.4 and 3.3.5.5 of
    [MS-SMB2]). The handlers of the requests of one connection run concurrently, so a request and its
    response are two steps with steps of other requests between them. */
module Preauth {

  import opened Basics

  type Message = seq<Byte>
  type Digest = seq<Byte>

  /** The hash function, over the running value and the next message. */
  type Hash = (Digest, Message) -> Digest

  function Zeros(n: nat): Digest {
    if n == 0 then [] else Zeros(n - 1) + [0]
  }

  /** The hash value a negotiation starts from. */
  const ZERO := Zeros(64)

  lemma {:induction false} ZerosExact(n: nat, k: nat)
    ensures |Zeros(n)| == n && (k < n ==> Zeros(n)[k] == 0)
    decreases n
  {
    if n == 0 {
    } else {
      ZerosExact(n - 1, if k < n - 1 then k else 0);
    }
  }

  /** How a negotiate request fared; a refused one may or may not have named SHA-512. */
  datatype NegOutcome = Accepted | Refused(sha: bool)

  /** The NTLM message in a session setup request, and whether its handler succeeds. */
  datatype Token = NtNegotiate(ok: bool) | NtAuthenticate(ok: bool) | NtInvalid

  datatype Step =
    | NegReq(req: Message, outcome: NegOutcome)
    | NegRsp(rsp: Message)
    | SetupReq(sid: nat, req: Message, token: Token)
    | SetupRsp(sid: nat, rsp: Message)

  /** The hash of the connection, whether SHA-512 was agreed, and the hash of each session, if it has
      one. */
  datatype State = State(conn: Digest, sha: bool, sess: map<nat, Option<Digest>>)

  const START := State(ZERO, false, map[])

  ghost function Folded(h: Hash, s: State, d: Digest, m: Message): Digest {
    if s.sha then h(d, m) else d
  }

  /** A request past the negotiate token, and a response asking for more, need a session with a hash. */
  ghost predicate Enabled(s: State, e: Step) {
    match e
    case NegReq(_, _) => true
    case NegRsp(_) => true
    case SetupReq(sid, _, token) => token.NtNegotiate? || (sid in s.sess && s.sess[sid].Some?)
    case SetupRsp(sid, _) => sid in s.sess && s.sess[sid].Some?
  }

  /** The session's hash once the request is folded in: the one keys are derived from, if the request
      authenticates. */
  ghost function HashAfter(h: Hash, s: State, e: Step): Digest
    requires e.SetupReq? && Enabled(s, e)
  {
    Folded(h, s, if e.token.NtNegotiate? then s.conn else s.sess[e.sid].value, e.req)
  }

  ghost function Next(h: Hash, s: State, e: Step): State
    requires Enabled(s, e)
  {
    match e
    case NegReq(req, Accepted) => s.(conn := h(ZERO, req), sha := true)
    case NegReq(req, Refused(sha)) => s.(conn := ZERO, sha := sha)
    case NegRsp(rsp) => s.(conn := Folded(h, s, s.conn, rsp))
    case SetupReq(sid, req, token) =>
      if token.NtNegotiate? && token.ok then s.(sess := s.sess[sid := Some(HashAfter(h, s, e))])
      else if token.NtAuthenticate? && token.ok then s.(sess := s.sess[sid := None])
      else s.(sess := s.sess - {sid})
    case SetupRsp(sid, rsp) => s.(sess := s.sess[sid := Some(Folded(h, s, s.sess[sid].value, rsp))])
  }

  // ---- The handlers ----

  class Connection {
    const hash: Hash
    var preauthHash: Digest
    var sha512: bool
    var sessions: map<nat, Option<Digest>>

    ghost function Abs(): State
      reads this
    {
      State(preauthHash, sha512, sessions)
    }

    constructor (h: Hash)
      ensures hash == h && Abs() == START
    {
      hash, preauthHash, sha512, sessions := h, ZERO, false, map[];
    }

    /** cifsd_gen_preauth_integrity_hash, over the value at the pointer it is given. */
    method GenHash(d: Digest, m: Message) returns (r: Digest)
      ensures r == Folded(hash, Abs(), d, m)
    {
      r := d;
      if sha512 {
        r := hash(d, m);
      }
    }

    /** The part of smb2_handle_negotiate for the 3.1.1 dialect: a fresh, zeroed hash, into which an
        acceptable request is folded. */
    method HandleNegotiate(req: Message, outcome: NegOutcome)
      modifies this
      ensures Abs() == Next(hash, old(Abs()), NegReq(req, outcome))
    {
      preauthHash := ZERO;
      sha512 := outcome.Accepted? || outcome.sha;
      if outcome.Refused? {
        return;
      }
      preauthHash := GenHash(preauthHash, req);
    }

    /** The part of smb2_sess_setup that keeps the session's hash; `key` is what key derivation sees. None
        if there is no hash to fold the request into, and the code would follow a null pointer. */
    method SessSetup(sid: nat, req: Message, token: Token) returns (key: Option<Digest>)
      modifies this
      ensures key.Some? <==> Enabled(old(Abs()), SetupReq(sid, req, token))
      ensures key.Some? ==> Abs() == Next(hash, old(Abs()), SetupReq(sid, req, token))
      ensures key.Some? ==> key.value == HashAfter(hash, old(Abs()), SetupReq(sid, req, token))
      ensures key.None? ==> Abs() == old(Abs())
    {
      if token.NtNegotiate? {
        sessions := sessions[sid := Some(preauthHash)];
      }
      if sid !in sessions || sessions[sid].None? {
        return None;
      }
      var d := GenHash(sessions[sid].value, req);
      sessions := sessions[sid := Some(d)];
      if token.NtAuthenticate? && token.ok {
        sessions := sessions[sid := None];
      } else if token.NtInvalid? || !token.ok {
        sessions := sessions - {sid};
      }
      assert sessions == Next(hash, old(Abs()), SetupReq(sid, req, token)).sess;
      return Some(d);
    }

    /** smb3_preauth_hash_rsp, for the response to a negotiate request. */
    method HashNegotiateRsp(rsp: Message)
      modifies this
      ensures Abs() == Next(hash, old(Abs()), NegRsp(rsp))
    {
      preauthHash := GenHash(preauthHash, rsp);
    }

    /** smb3_preauth_hash_rsp, for a session setup response that asks for more processing; `ok` unless
        there is no hash to fold it into, and the code would follow a null pointer. */
    method HashSetupRsp(sid: nat, rsp: Message) returns (ok: bool)
      modifies this
      ensures ok <==> Enabled(old(Abs()), SetupRsp(sid, rsp))
      ensures Abs() == if ok then Next(hash, old(Abs()), SetupRsp(sid, rsp)) else old(Abs())
    {
      if sid !in sessions || sessions[sid].None? {
        return false;
      }
      var d := GenHash(sessions[sid].value, rsp);
      sessions := sessions[sid := Some(d)];
      return true;
    }
  }

  // ---- Runs and transcripts ----

  ghost function Chain(h: Hash, msgs: seq<Message>): Digest {
    if msgs == [] then ZERO else h(Chain(h, msgs[..|msgs| - 1]), msgs[|msgs| - 1])
  }

  /** The state a run reaches, if each of its steps is enabled. */
  ghost function Reached(h: Hash, es: seq<Step>): Option<State> {
    if es == [] then Some(START)
    else
      match Reached(h, es[..|es| - 1])
      case None => None
      case Some(s) => var e := es[|es| - 1]; if Enabled(s, e) then Some(Next(h, s, e)) else None
  }

  /** Whether the latest negotiate request of a history named SHA-512. */
  ghost predicate Agreed(es: seq<Step>) {
    if es == [] then false
    else
      match es[|es| - 1]
      case NegReq(_, o) => o.Accepted? || o.sha
      case _ => Agreed(es[..|es| - 1])
  }

  ghost function Heard(es: seq<Step>, m: Message): seq<Message> {
    if Agreed(es) then [m] else []
  }

  /** The messages of the latest negotiation: an accepted request, then the responses hashed since. */
  ghost function Negotiation(es: seq<Step>): seq<Message> {
    if es == [] then []
    else
      var init := es[..|es| - 1];
      match es[|es| - 1]
      case NegReq(req, o) => if o.Accepted? then [req] else []
      case NegRsp(rsp) => Negotiation(init) + Heard(init, rsp)
      case _ => Negotiation(init)
  }

  /** The messages behind a session's hash: the negotiation as it stood at the session's last NTLM
      negotiate token, then that session's setup messages since. None when the session has no hash. */
  ghost function Transcript(es: seq<Step>, sid: nat): Option<seq<Message>> {
    if es == [] then None
    else
      var init := es[..|es| - 1];
      match es[|es| - 1]
      case SetupReq(id, req, token) =>
        if id != sid then Transcript(init, sid)
        else if token.NtNegotiate? && token.ok then Some(Negotiation(init) + Heard(init, req))
        else None
      case SetupRsp(id, rsp) =>
        if id != sid || Transcript(init, sid).None? then Transcript(init, sid)
        else Some(Transcript(init, sid).value + Heard(init, rsp))
      case _ => Transcript(init, sid)
  }

  lemma ChainMore(h: Hash, msgs: seq<Message>, m: Message)
    ensures Chain(h, msgs + [m]) == h(Chain(h, msgs), m)
  {
    assert (msgs + [m])[..|msgs|] == msgs;
  }

  /** A session's hash, if it has one. */
  ghost function HashOf(s: State, sid: nat): Option<Digest> {
    if sid in s.sess then s.sess[sid] else None
  }

  ghost predicate Matches(h: Hash, d: Option<Digest>, t: Option<seq<Message>>) {
    match t
    case None => d == None
    case Some(msgs) => d == Some(Chain(h, msgs))
  }

  lemma HeardChain(h: Hash, s: State, es: seq<Step>, msgs: seq<Message>, m: Message)
    requires s.sha == Agreed(es)
    ensures Chain(h, msgs + Heard(es, m)) == Folded(h, s, Chain(h, msgs), m)
  {
    if Agreed(es) {
      ChainMore(h, msgs, m);
    } else {
      assert msgs + [] == msgs;
    }
  }

  /** In every run the connection's hash is the chain over its latest negotiation, and every session's
      hash the chain over its own transcript. */
  lemma {:induction false} HashesAreChains(h: Hash, es: seq<Step>, sid: nat)
    requires Reached(h, es).Some?
    ensures var s := Reached(h, es).value;
            && s.sha == Agreed(es) && s.conn == Chain(h, Negotiation(es))
            && Matches(h, HashOf(s, sid), Transcript(es, sid))
    decreases |es|
  {
    if es == [] {
    } else {
      var init, e := es[..|es| - 1], es[|es| - 1];
      HashesAreChains(h, init, sid);
      var s := Reached(h, init).value;
      match e {
        case NegReq(req, o) =>
          ChainMore(h, [], req);
          assert [] + [req] == [req];
        case NegRsp(rsp) =>
          HeardChain(h, s, init, Negotiation(init), rsp);
        case SetupReq(id, req, token) =>
          HeardChain(h, s, init, Negotiation(init), req);
        case SetupRsp(id, rsp) =>
          if Transcript(init, sid).Some? {
            HeardChain(h, s, init, Transcript(init, sid).value, rsp);
          }
      }
    }
  }

  /** From the history alone: whether there is a hash to fold the next message into. */
  ghost predicate Ready(es: seq<Step>, e: Step) {
    match e
    case SetupReq(sid, _, token) => token.NtNegotiate? || Transcript(es, sid).Some?
    case SetupRsp(sid, _) => Transcript(es, sid).Some?
    case _ => true
  }

  ghost predicate Ordered(es: seq<Step>) {
    es == [] || (Ordered(es[..|es| - 1]) && Ready(es[..|es| - 1], es[|es| - 1]))
  }

  /** The runs that never fold a message into a hash that is not there are those of well-ordered
      histories. */
  lemma {:induction false} ReachedExact(h: Hash, es: seq<Step>)
    ensures Reached(h, es).Some? <==> Ordered(es)
    decreases |es|
  {
    if es == [] {
    } else {
      var init, e := es[..|es| - 1], es[|es| - 1];
      ReachedExact(h, init);
      if Ordered(init) {
        EnabledExact(h, init, e);
      }
    }
  }

  lemma EnabledExact(h: Hash, es: seq<Step>, e: Step)
    requires Reached(h, es).Some?
    ensures Enabled(Reached(h, es).value, e) <==> Ready(es, e)
  {
    if e.SetupReq? || e.SetupRsp? {
      HashesAreChains(h, es, e.sid);
    }
  }

  /** At key derivation there is a hash exactly when the session has a transcript, and then it is the chain
      over that transcript, ending with the authenticate request. */
  lemma KeyHash(h: Hash, es: seq<Step>, e: Step)
    requires Ordered(es) && e.SetupReq? && e.token.NtAuthenticate?
    ensures Reached(h, es).Some?
    ensures Enabled(Reached(h, es).value, e) <==> Transcript(es, e.sid).Some?
    ensures Transcript(es, e.sid).Some? ==>
              HashAfter(h, Reached(h, es).value, e) == Chain(h, Transcript(es, e.sid).value + Heard(es, e.req))
  {
    ReachedExact(h, es);
    EnabledExact(h, es, e);
    HashesAreChains(h, es, e.sid);
    if Transcript(es, e.sid).Some? {
      HeardChain(h, Reached(h, es).value, es, Transcript(es, e.sid).value, e.req);
    }
  }

  /** A session that has not negotiated has no hash: an authenticate request that comes first finds none. */
  lemma {:induction false} NoNegotiateNoHash(es: seq<Step>, sid: nat)
    requires forall e :: e in es && e.SetupReq? && e.sid == sid ==> !e.token.NtNegotiate?
    ensures Transcript(es, sid) == None
    decreases |es|
  {
    if es == [] {
    } else {
      assert es[|es| - 1] in es;
      NoNegotiateNoHash(es[..|es| - 1], sid);
    }
  }

  // ---- Sessions do not disturb each other ----

  /** A step that concerns neither the negotiation nor session `sid`. */
  ghost predicate Foreign(e: Step, sid: nat) {
    (e.SetupReq? || e.SetupRsp?) && e.sid != sid
  }

  /** A history without the steps of other sessions. */
  ghost function Own(es: seq<Step>, sid: nat): seq<Step> {
    if es == [] then []
    else
      var init, e := es[..|es| - 1], es[|es| - 1];
      if Foreign(e, sid) then Own(init, sid) else Own(init, sid) + [e]
  }

  lemma SameStep(es: seq<Step>, fs: seq<Step>, init: seq<Step>, own: seq<Step>, e: Step, sid: nat)
    requires es == init + [e] && fs == own + [e]
    requires Transcript(init, sid) == Transcript(own, sid) && Negotiation(init) == Negotiation(own)
    requires Agreed(init) == Agreed(own)
    ensures Transcript(es, sid) == Transcript(fs, sid) && Negotiation(es) == Negotiation(fs)
    ensures Agreed(es) == Agreed(fs)
  {
    Last(init, e);
    Last(own, e);
  }

  /** A session's transcript, and so its hash and keys, are the same with the other sessions' steps left
      out. */
  lemma {:induction false} OthersDoNotDisturb(es: seq<Step>, sid: nat)
    ensures Transcript(es, sid) == Transcript(Own(es, sid), sid)
    ensures Negotiation(es) == Negotiation(Own(es, sid)) && Agreed(es) == Agreed(Own(es, sid))
    decreases |es|
  {
    if es == [] {
    } else {
      var init, e := es[..|es| - 1], es[|es| - 1];
      OthersDoNotDisturb(init, sid);
      if !Foreign(e, sid) {
        SameStep(es, Own(es, sid), init, Own(init, sid), e, sid);
      }
    }
  }

  // ---- Clients that wait for each response ----

  /** Steps that are neither negotiation nor session `sid`'s. */
  ghost predicate Quiet(es: seq<Step>, sid: nat) {
    forall i :: 0 <= i < |es| ==> Foreign(es[i], sid)
  }

  ghost predicate NoNegotiation(es: seq<Step>) {
    forall i :: 0 <= i < |es| ==> es[i].SetupReq? || es[i].SetupRsp?
  }

  lemma {:induction false} QuietKeeps(es: seq<Step>, q: seq<Step>, sid: nat)
    requires NoNegotiation(q)
    ensures Negotiation(es + q) == Negotiation(es) && Agreed(es + q) == Agreed(es)
    ensures Quiet(q, sid) ==> Transcript(es + q, sid) == Transcript(es, sid)
    decreases |q|
  {
    if q == [] {
      assert es + q == es;
    } else {
      var n := |q| - 1;
      assert (es + q)[..|es + q| - 1] == es + q[..n];
      QuietKeeps(es, q[..n], sid);
    }
  }

  lemma Last(es: seq<Step>, e: Step)
    ensures (es + [e])[..|es + [e]| - 1] == es && (es + [e])[|es + [e]| - 1] == e
  {
  }

  /** When the client waits for each response, the transcript at authentication is the negotiate request
      and response, the first setup request and response; what other sessions do meanwhile is not in
      it. */
  lemma WaitingClient(pre: seq<Step>, n: Message, a: seq<Step>, nr: Message, b: seq<Step>,
                      sid: nat, s: Message, c: seq<Step>, sr: Message, d: seq<Step>)
    requires NoNegotiation(a) && NoNegotiation(b) && Quiet(c, sid) && Quiet(d, sid)
    ensures var es := pre + [NegReq(n, Accepted)] + a + [NegRsp(nr)] + b +
                      [SetupReq(sid, s, NtNegotiate(true))] + c + [SetupRsp(sid, sr)] + d;
            Transcript(es, sid) == Some([n, nr, s, sr]) && Agreed(es)
  {
    var e2 := pre + [NegReq(n, Accepted)] + a + [NegRsp(nr)];
    WaitingNegotiation(pre, n, a, nr, e2);
    WaitingSetup(e2, [n, nr], b, sid, s, c, sr, d);
    assert [n, nr] + [s, sr] == [n, nr, s, sr];
  }

  lemma WaitingNegotiation(pre: seq<Step>, n: Message, a: seq<Step>, nr: Message, e2: seq<Step>)
    requires NoNegotiation(a) && e2 == pre + [NegReq(n, Accepted)] + a + [NegRsp(nr)]
    ensures Negotiation(e2) == [n, nr] && Agreed(e2)
  {
    var e1 := pre + [NegReq(n, Accepted)];
    Last(pre, NegReq(n, Accepted));
    QuietKeeps(e1, a, 0);
    Last(e1 + a, NegRsp(nr));
  }

  lemma WaitingSetup(e2: seq<Step>, neg: seq<Message>, b: seq<Step>, sid: nat, s: Message, c: seq<Step>, sr: Message,
                     d: seq<Step>)
    requires Negotiation(e2) == neg && Agreed(e2) && NoNegotiation(b) && Quiet(c, sid) && Quiet(d, sid)
    ensures var es := e2 + b + [SetupReq(sid, s, NtNegotiate(true))] + c + [SetupRsp(sid, sr)] + d;
            Transcript(es, sid) == Some(neg + [s, sr]) && Agreed(es)
  {
    QuietKeeps(e2, b, sid);
    Last(e2 + b, SetupReq(sid, s, NtNegotiate(true)));
    var e3 := e2 + b + [SetupReq(sid, s, NtNegotiate(true))];
    assert Agreed(e3) && Transcript(e3, sid) == Some(neg + [s]);
    QuietKeeps(e3, c, sid);
    Last(e3 + c, SetupRsp(sid, sr));
    var e4 := e3 + c + [SetupRsp(sid, sr)];
    assert neg + [s] + [sr] == neg + [s, sr];
    assert Transcript(e4, sid) == Some(neg + [s, sr]);
    QuietKeeps(e4, d, sid);
  }
}
