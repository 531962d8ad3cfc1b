/** What an access mask means, as the 32-bit number it is (cifsacl.c, access_flags_to_mode): which numbers
    grant and which deny read, write and execute, and to whom. */
module DaclRights {

  import opened Basics
  import opened Dacl
  import opened DaclBuild

  /** The number a little-endian field holds. */
  function Number(a: Le32): nat {
    a.b0 as int + 0x100 * (a.b1 as int) + 0x10000 * (a.b2 as int) + 0x1000000 * (a.b3 as int)
  }

  /** Number `x` has the bit of weight `w`. */
  predicate HasBit(x: nat, w: nat)
    requires w > 0
  {
    x / w % 2 == 1
  }

  /** GENERIC_ALL is 0x10000000, GENERIC_READ 0x80000000; the file rights for reading are 0x01, 0x08, 0x80. */
  predicate MeansRead(x: nat) {
    HasBit(x, 0x10000000) || HasBit(x, 0x80000000) || (HasBit(x, 0x01) && HasBit(x, 0x08) && HasBit(x, 0x80))
  }

  /** GENERIC_WRITE is 0x40000000; the file rights for writing are 0x02, 0x04, 0x10, 0x100. */
  predicate MeansWrite(x: nat) {
    || HasBit(x, 0x10000000) || HasBit(x, 0x40000000)
    || (HasBit(x, 0x02) && HasBit(x, 0x04) && HasBit(x, 0x10) && HasBit(x, 0x100))
  }

  /** GENERIC_EXECUTE is 0x20000000; the file right for executing is 0x20. */
  predicate MeansExec(x: nat) {
    HasBit(x, 0x10000000) || HasBit(x, 0x20000000) || HasBit(x, 0x20)
  }

  predicate Means(x: nat, p: Perm) {
    match p
    case Read => MeansRead(x)
    case Write => MeansWrite(x)
    case Exec => MeansExec(x)
  }

  lemma Even(x: nat, q: nat, e: nat)
    requires x == q + 2 * e
    ensures x % 2 == q % 2
  {
  }

  lemma LowBits(a: Le32, x: nat)
    requires x == Number(a)
    ensures x / 0x01 % 2 == a.b0 % 2 && x / 0x02 % 2 == a.b0 / 2 % 2 && x / 0x04 % 2 == a.b0 / 4 % 2
    ensures x / 0x08 % 2 == a.b0 / 8 % 2 && x / 0x10 % 2 == a.b0 / 16 % 2 && x / 0x20 % 2 == a.b0 / 32 % 2
  {
    var m := a.b1 as int + 0x100 * (a.b2 as int) + 0x10000 * (a.b3 as int);
    Even(x, a.b0, 128 * m);
    Even(x / 2, a.b0 / 2, 64 * m);
    Even(x / 4, a.b0 / 4, 32 * m);
    Even(x / 8, a.b0 / 8, 16 * m);
    Even(x / 16, a.b0 / 16, 8 * m);
    Even(x / 32, a.b0 / 32, 4 * m);
  }

  lemma MiddleBits(a: Le32, x: nat)
    requires x == Number(a)
    ensures x / 0x80 % 2 == a.b0 / 128 && x / 0x100 % 2 == a.b1 % 2
  {
    var m := a.b2 as int + 0x100 * (a.b3 as int);
    assert x / 0x80 == a.b0 / 128 + 2 * (a.b1 as int + 0x100 * m);
    assert x / 0x100 == a.b1 as int + 2 * (0x80 * m);
  }

  lemma HighBits(a: Le32, x: nat)
    requires x == Number(a)
    ensures x / 0x10000000 == a.b3 / 16 && x / 0x20000000 == a.b3 / 32
    ensures x / 0x40000000 == a.b3 / 64 && x / 0x80000000 == a.b3 / 128
  {
  }

  lemma LowOn(a: Le32, x: nat)
    requires x == Number(a)
    ensures HasBit(x, 0x01) == On(a.b0, 0) && HasBit(x, 0x02) == On(a.b0, 1) && HasBit(x, 0x04) == On(a.b0, 2)
    ensures HasBit(x, 0x08) == On(a.b0, 3) && HasBit(x, 0x10) == On(a.b0, 4) && HasBit(x, 0x20) == On(a.b0, 5)
  {
    LowBits(a, x);
  }

  lemma OtherOn(a: Le32, x: nat)
    requires x == Number(a)
    ensures HasBit(x, 0x80) == On(a.b0, 7) && HasBit(x, 0x100) == On(a.b1, 0)
    ensures HasBit(x, 0x10000000) == On(a.b3, 4) && HasBit(x, 0x20000000) == On(a.b3, 5)
    ensures HasBit(x, 0x40000000) == On(a.b3, 6) && HasBit(x, 0x80000000) == On(a.b3, 7)
  {
    MiddleBits(a, x);
    HighBits(a, x);
  }

  /** The bytewise tests of the model are tests of that number. */
  lemma SaysMeans(a: Le32, p: Perm)
    ensures Says(a, p) <==> Means(Number(a), p)
  {
    LowOn(a, Number(a));
    OtherOn(a, Number(a));
  }

  /** The two SIDs that stand for everybody: S-1-1-0 and S-1-5-11. */
  predicate Everybody(sid: Sid) {
    || sid == Sid(1, [0, 0, 0, 0, 0, 1], [Le32(0, 0, 0, 0)])
    || sid == Sid(1, [0, 0, 0, 0, 0, 5], [Le32(11, 0, 0, 0)])
  }

  lemma RuleMeans(a: Ace, owner: Sid, group: Sid, p: Perm)
    ensures var r := RuleOf(a, owner, group);
            && (r.kind == Allow <==> a.kind == 0) && (r.kind == Deny <==> a.kind == 1)
            && (p in r.perms <==> Means(Number(a.access), p))
            && (Owner in r.parties <==> SidsMatch(a.sid, owner))
            && (GroupOwner in r.parties <==> SidsMatch(a.sid, group))
            && (World in r.parties <==> SidsMatch(a.sid, EVERYONE) || SidsMatch(a.sid, AUTH_USERS))
  {
    SaysMeans(a.access, p);
  }

  lemma EverybodyMatches(sid: Sid)
    requires Everybody(sid)
    ensures SidsMatch(sid, EVERYONE) || SidsMatch(sid, AUTH_USERS)
  {
  }

  lemma OneRule(r: Rule, b: Bit)
    ensures b in FoldRules([r]).mode <==>
              && r.kind == Allow && b.perm in r.perms
              && (World in r.parties || (b.who == User && Owner in r.parties) ||
                  (b.who == Group && GroupOwner in r.parties))
  {
    var rs := [r];
    FirstMatch(rs, b);
    assert rs[..0] == [];
    assert forall p: Party :: Allows(rs, p, b.perm) <==> r.Speaks(Allow, p, b.perm);
  }

  /** An ACE of type 0 for everybody gives everyone exactly the permissions its mask means; one of type 1, and
      one of any other type, gives nothing. */
  lemma SingleAce(a: Ace, owner: Sid, group: Sid, b: Bit)
    requires Everybody(a.sid)
    ensures b in FoldRules([RuleOf(a, owner, group)]).mode <==> a.kind == 0 && Means(Number(a.access), b.perm)
  {
    RuleMeans(a, owner, group, b.perm);
    EverybodyMatches(a.sid);
    OneRule(RuleOf(a, owner, group), b);
  }

  /** A rule that grants nothing, then one that grants the permission. */
  lemma TwoRules(r: Rule, s: Rule, p: Party, b: Perm)
    requires r.kind != Allow && s.kind == Allow && b in s.perms
    ensures Allows([r, s], p, b) <==> p in s.parties && !r.Speaks(Deny, p, b)
  {
    var rs := [r, s];
    assert rs[..1] == [r] && rs[..1][0] == r && rs[1] == s && rs[0] == r;
    assert Denies(rs[..1], p, b) <==> r.Speaks(Deny, p, b);
  }

  lemma DenyThenAllow(r: Rule, s: Rule, b: Bit)
    requires r.kind != Allow && s.kind == Allow && b.perm in s.perms && World in s.parties && r.parties == s.parties
    ensures b in FoldRules([r, s]).mode <==> !(r.kind == Deny && b.perm in r.perms)
  {
    FirstMatch([r, s], b);
    TwoRules(r, s, Owner, b.perm);
    TwoRules(r, s, GroupOwner, b.perm);
    TwoRules(r, s, World, b.perm);
  }

  /** An ACE of type 1 for everybody takes exactly the permissions its mask means from an ACE of type 0 that
      comes after it and gives all; one of a type above 1 takes nothing. */
  lemma DenialFirst(a: Ace, all: Ace, owner: Sid, group: Sid, b: Bit)
    requires Everybody(a.sid) && a.kind != 0
    requires all == Ace(0, Le32(0, 0, 0, 0x10), a.sid)
    ensures b in FoldRules([RuleOf(a, owner, group), RuleOf(all, owner, group)]).mode <==>
              !(a.kind == 1 && Means(Number(a.access), b.perm))
  {
    RuleMeans(a, owner, group, b.perm);
    RuleMeans(all, owner, group, b.perm);
    EverybodyMatches(a.sid);
    SameParties(a, all, owner, group);
    DenyThenAllow(RuleOf(a, owner, group), RuleOf(all, owner, group), b);
  }

  lemma SameParties(a: Ace, b: Ace, owner: Sid, group: Sid)
    requires a.sid == b.sid
    ensures RuleOf(a, owner, group).parties == RuleOf(b, owner, group).parties
  {
  }

  /** An ACE of type 0 for the owner's SID alone gives only the user bits, and one for the group's only the
      group bits. */
  lemma SingleOwnAce(a: Ace, owner: Sid, group: Sid, b: Bit)
    requires a.kind == 0 && !SidsMatch(a.sid, EVERYONE) && !SidsMatch(a.sid, AUTH_USERS)
    ensures b in FoldRules([RuleOf(a, owner, group)]).mode <==>
              && Means(Number(a.access), b.perm)
              && ((b.who == User && SidsMatch(a.sid, owner)) || (b.who == Group && SidsMatch(a.sid, group)))
  {
    RuleMeans(a, owner, group, b.perm);
    OneRule(RuleOf(a, owner, group), b);
  }

  /** The number in four octets of a buffer, the least significant first. */
  function NumberAt(b: seq<Byte>, i: nat): nat
    requires i + 4 <= |b|
  {
    b[i] as int + 0x100 * (b[i + 1] as int) + 0x10000 * (b[i + 2] as int) + 0x1000000 * (b[i + 3] as int)
  }

  /** Where the fields of an ACE are read: the type in octet 0, the size in octets 2 and 3, the mask in octets
      4 to 7, and of the SID the revision in octet 8, the number of sub-authorities in octet 9, the authority in
      octets 10 to 15 and the sub-authorities from octet 16 on. */
  lemma AceLayout(b: seq<Byte>, i: nat)
    requires AceInside(b, i)
    ensures var a := AceAt(b, i);
            && a.kind == b[i] && SizeAt(b, i) == b[i + 2] as int + 256 * (b[i + 3] as int)
            && Number(a.access) == NumberAt(b, i + 4)
            && a.sid.revision == b[i + 8] && a.sid.authority == b[i + 10..i + 16] && |a.sid.subs| == b[i + 9]
            && forall k :: 0 <= k < |a.sid.subs| ==> Number(a.sid.subs[k]) == NumberAt(b, i + 16 + 4 * k)
  {
  }

  /** The masks set_chmod_dacl writes. */
  lemma BuiltMasks(r: bool, w: bool, x: bool)
    ensures Number(FileRights(r, w, x)) ==
              if r && w && x then 0x1F01FF
              else if r && w then 0x1F01DF
              else if r && x then 0x1F01B9
              else if w && x then 0x1F01FE
              else if r then 0x1F0199
              else if w then 0x1F01DE
              else if x then 0x1F01B8
              else 0x120088
  {
  }
}
