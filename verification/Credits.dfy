/** SMB2 credit accounting (smb2pdu.c, init_smb2_rsp_hdr and smb2_set_rsp_credits; section 3.3.1.2 of
    [MS-SMB2]). */
module Credits {

  type U16 = x: int | 0 <= x < 0x10000

  const MAX_CREDITS := 8192

  /** A sixteenth of the maximum: what a client may hold. */
  const MIN_CREDITS := 512

  datatype Command = CmdNegotiate | CmdSessionSetup | CmdOther

  /** A request takes its charge when its response header is set up; the response grants new credits. */
  datatype Step =
    | Charge(charge: U16)
    | Respond(async: bool, requested: U16, cmd: Command, failed: bool)

  /** The credits a request uses up: none when the client holds none, one when it names no charge. */
  function Taken(total: int, charge: U16): int {
    if total == 0 then 0 else if charge > 0 then charge else 1
  }

  /** The most a response grants beyond the first credit. */
  function Extra(cmd: Command, failed: bool): U16 {
    match cmd
    case CmdNegotiate => 0
    case CmdSessionSetup => if failed then 0 else 32
    case CmdOther => 32
  }

  /** What a response grants, as a 16-bit number. */
  function Grant(total: int, async: bool, requested: U16, cmd: Command, failed: bool): U16 {
    if async then 0
    else if requested > 0 then
      var g := 1 + if requested - 1 < Extra(cmd, failed) then requested - 1 else Extra(cmd, failed);
      if total + g > MIN_CREDITS then (MIN_CREDITS - total) % 0x10000 else g
    else if total == 0 then 1 else 0
  }

  function Next(total: int, e: Step): int {
    match e
    case Charge(c) => total - Taken(total, c)
    case Respond(async, requested, cmd, failed) => total + Grant(total, async, requested, cmd, failed)
  }

  /** The credit fields of a connection. */
  class Account {
    const maxCredits: int
    var granted: int

    constructor ()
      ensures granted == 0 && maxCredits == MAX_CREDITS
    {
      maxCredits, granted := MAX_CREDITS, 0;
    }

    /** The credit part of init_smb2_rsp_hdr. */
    method InitRspHdr(charge: U16)
      modifies this
      ensures granted == Next(old(granted), Charge(charge))
    {
      if granted != 0 {
        if charge != 0 {
          granted := granted - charge;
        } else {
          granted := granted - 1;
        }
      }
    }

    /** smb2_set_rsp_credits. Its BUG_ON is the precondition. */
    method SetRspCredits(async: bool, requested: U16, cmd: Command, failed: bool) returns (credits: U16)
      requires maxCredits == MAX_CREDITS && granted < maxCredits
      modifies this
      ensures granted == Next(old(granted), Respond(async, requested, cmd, failed))
      ensures credits == Grant(old(granted), async, requested, cmd, failed)
    {
      credits := 0;
      var minCredits := maxCredits / 16;
      if async {
        credits := 0;
      } else if requested > 0 {
        var auxMax := 0;
        var auxCredits := requested - 1;
        match cmd {
          case CmdNegotiate =>
          case CmdSessionSetup => auxMax := if failed then 0 else 32;
          case CmdOther => auxMax := 32;
        }
        auxCredits := if auxCredits < auxMax then auxCredits else auxMax;
        credits := auxCredits + 1;
        if granted + credits > minCredits {
          credits := (minCredits - granted) % 0x10000;
        }
      } else if granted == 0 {
        credits := 1;
      }
      granted := granted + credits;
    }
  }

  // ---- Runs ----

  function Total(es: seq<Step>): int {
    if es == [] then 0 else Next(Total(es[..|es| - 1]), es[|es| - 1])
  }

  /** The charge is within what the client holds. */
  predicate Covered(total: int, e: Step) {
    e.Charge? ==> Taken(total, e.charge) <= total
  }

  predicate InRange(total: int) {
    0 <= total <= MIN_CREDITS
  }

  /** One step keeps the total in range exactly when its charge is covered. */
  lemma StepExact(total: int, e: Step)
    requires InRange(total)
    ensures InRange(Next(total, e)) <==> Covered(total, e)
    ensures e.Respond? ==> Next(total, e) - total <= 33
    ensures e.Respond? && !e.async ==> Next(total, e) >= 1
  {
  }

  ghost predicate AllCovered(es: seq<Step>) {
    es == [] || (AllCovered(es[..|es| - 1]) && Covered(Total(es[..|es| - 1]), es[|es| - 1]))
  }

  /** Over every run whose charges are covered the total stays between 0 and a sixteenth of the
      maximum. */
  lemma {:induction false} AlwaysInRange(es: seq<Step>)
    requires AllCovered(es)
    ensures InRange(Total(es))
    decreases |es|
  {
    if es == [] {
    } else {
      AlwaysInRange(es[..|es| - 1]);
      StepExact(Total(es[..|es| - 1]), es[|es| - 1]);
    }
  }

  /** Over every run, whatever the charges, the BUG_ON in smb2_set_rsp_credits does not fire. */
  lemma {:induction false} NeverBug(es: seq<Step>)
    ensures Total(es) <= MIN_CREDITS < MAX_CREDITS
    decreases |es|
  {
    if es == [] {
    } else {
      NeverBug(es[..|es| - 1]);
    }
  }

  /** After every synchronous response of a covered run the client holds a credit, and the response
      granted 33 at most. */
  lemma NeverStarves(es: seq<Step>, e: Step)
    requires AllCovered(es) && e.Respond?
    ensures Next(Total(es), e) - Total(es) <= 33
    ensures !e.async ==> Next(Total(es), e) >= 1
  {
    AlwaysInRange(es);
    StepExact(Total(es), e);
  }

  /** The credits granted and the credits used up over a run. */
  function Granted(es: seq<Step>): nat {
    if es == [] then 0
    else
      var init, e := es[..|es| - 1], es[|es| - 1];
      Granted(init) + match e
                      case Charge(_) => 0
                      case Respond(a, r, c, f) => Grant(Total(init), a, r, c, f)
  }

  function Used(es: seq<Step>): int {
    if es == [] then 0
    else
      var init, e := es[..|es| - 1], es[|es| - 1];
      Used(init) + match e
                   case Charge(c) => Taken(Total(init), c)
                   case Respond(_, _, _, _) => 0
  }

  /** Conservation: over every run the total is what was granted less what was used up; covered charges
      never use more than was granted. */
  lemma {:induction false} Ledger(es: seq<Step>)
    ensures Total(es) == Granted(es) - Used(es)
    ensures AllCovered(es) ==> Used(es) <= Granted(es) <= Used(es) + MIN_CREDITS
    decreases |es|
  {
    if AllCovered(es) {
      AlwaysInRange(es);
    }
    if es == [] {
    } else {
      Ledger(es[..|es| - 1]);
    }
  }

  // ---- How many credits ----

  function Least(a: int, b: int): int {
    if a < b then a else b
  }

  /** What a synchronous response to a request for credits adds, for a client within the limit of 512: an
      ordinary command and a successful session setup get all they ask for up to 33, a negotiate and a failed
      session setup one; nobody is taken past the limit. */
  lemma GrantExact(total: int, requested: U16, cmd: Command, failed: bool)
    requires 0 <= total <= 512 && requested > 0
    ensures var more := Next(total, Respond(false, requested, cmd, failed)) - total;
            if cmd == CmdNegotiate || (cmd == CmdSessionSetup && failed) then more == Least(1, 512 - total)
            else more == Least(Least(requested, 33), 512 - total)
  {
  }

  /** The responses that add nothing to a client that holds credits, and the one that keeps it from having
      none. */
  lemma NoGrantExact(total: int, e: Step)
    requires e.Respond? && (e.async || e.requested == 0)
    ensures Next(total, e) - total == if !e.async && total == 0 then 1 else 0
  {
  }

  /** What a request takes: its charge, or one if it names none; nothing from a client that holds none. */
  lemma ChargeExact(total: int, charge: U16)
    ensures total == 0 ==> Next(total, Charge(charge)) == 0
    ensures total != 0 ==> total - Next(total, Charge(charge)) == if charge == 0 then 1 else charge
  {
  }

  /** The step of a client that asks for 33 credits with an ordinary command. */
  const EAGER := Respond(false, 33, CmdOther, false)

  ghost predicate AllEager(es: seq<Step>) {
    forall i :: 0 <= i < |es| ==> es[i] == EAGER
  }

  /** A client that asks for 33 with every response and is charged nothing gets 33 each time, until it holds
      512: sixteen responses are enough, and no fewer. */
  lemma {:induction false} EagerClient(es: seq<Step>)
    requires AllEager(es)
    ensures Total(es) == Least(33 * |es|, 512)
    ensures Total(es) == 512 <==> |es| >= 16
    decreases |es|
  {
    if es == [] {
    } else {
      EagerClient(es[..|es| - 1]);
      GrantExact(Total(es[..|es| - 1]), 33, CmdOther, false);
    }
  }

  /** A charge beyond the total is not refused: from then on the total is negative, and responses to
      requests that ask for no credits leave it there. */
  lemma OverchargeStays(total: int, c: U16, cmd: Command, failed: bool)
    requires 0 < total < c
    ensures var t := Next(total, Charge(c)); t < 0 && Next(t, Respond(false, 0, cmd, failed)) == t
  {
  }
}
