/** DACL to POSIX mode and back (cifsacl.c): parse_dacl folds the ACEs of a DACL into mode bits with
    three masks; set_chmod_dacl builds a DACL of three ACEs from a mode. */
module Dacl {

  import opened Basics
  import opened Buffers

  /** A little-endian 32-bit field, as the bytes it occupies. */
  datatype Le32 = Le32(b0: Byte, b1: Byte, b2: Byte, b3: Byte) {
    function Or(x: Le32): Le32 {
      Le32(OrByte(b0, x.b0), OrByte(b1, x.b1), OrByte(b2, x.b2), OrByte(b3, x.b3))
    }

    function Bytes(): (r: seq<Byte>)
      ensures |r| == 4
    {
      [b0, b1, b2, b3]
    }

    predicate Above(x: Le32) {
      b3 > x.b3 || (b3 == x.b3 && (b2 > x.b2 || (b2 == x.b2 && (b1 > x.b1 || (b1 == x.b1 && b0 > x.b0)))))
    }
  }

  /** Bit `i` of a byte is set. */
  predicate On(x: Byte, i: nat) {
    match i
    case 0 => x % 2 == 1
    case 1 => x / 2 % 2 == 1
    case 2 => x / 4 % 2 == 1
    case 3 => x / 8 % 2 == 1
    case 4 => x / 16 % 2 == 1
    case 5 => x / 32 % 2 == 1
    case 6 => x / 64 % 2 == 1
    case _ => x / 128 == 1
  }

  function OrByte(x: Byte, y: Byte): Byte {
    (if On(x, 0) || On(y, 0) then 0x01 else 0) + (if On(x, 1) || On(y, 1) then 0x02 else 0) +
    (if On(x, 2) || On(y, 2) then 0x04 else 0) + (if On(x, 3) || On(y, 3) then 0x08 else 0) +
    (if On(x, 4) || On(y, 4) then 0x10 else 0) + (if On(x, 5) || On(y, 5) then 0x20 else 0) +
    (if On(x, 6) || On(y, 6) then 0x40 else 0) + (if On(x, 7) || On(y, 7) then 0x80 else 0)
  }

  const ZERO := Le32(0, 0, 0, 0)
  const SET_FILE_READ_RIGHTS := Le32(0x99, 0x01, 0x1F, 0)
  const SET_FILE_WRITE_RIGHTS := Le32(0xDE, 0x01, 0x1F, 0)
  const SET_FILE_EXEC_RIGHTS := Le32(0xB8, 0x01, 0x1F, 0)
  const SET_MINIMUM_RIGHTS := Le32(0x88, 0, 0x12, 0)

  /** The nine permission bits of a mode; a mode or a mask is a set of them. */
  datatype Who = User | Group | Other
  datatype Perm = Read | Write | Exec
  datatype Bit = Bit(who: Who, perm: Perm)

  function ForAll(p: Perm): set<Bit> {
    {Bit(User, p), Bit(Group, p), Bit(Other, p)}
  }

  function ForWho(w: Who): set<Bit> {
    {Bit(w, Read), Bit(w, Write), Bit(w, Exec)}
  }

  const RWX := ForWho(User) + ForWho(Group) + ForWho(Other)

  const ACCESS_ALLOWED: Byte := 0
  const ACCESS_DENIED: Byte := 1

  datatype Sid = Sid(revision: Byte, authority: seq<Byte>, subs: seq<Le32>)

  datatype Ace = Ace(kind: Byte, access: Le32, sid: Sid)

  const EVERYONE := Sid(1, [0, 0, 0, 0, 0, 1], [ZERO])
  const AUTH_USERS := Sid(1, [0, 0, 0, 0, 0, 5], [Le32(11, 0, 0, 0)])

  ghost predicate WellFormed(s: Sid) {
    |s.authority| == 6 && |s.subs| <= 15
  }

  /** Equal up to the shorter list of sub-authorities. */
  ghost predicate SidsMatch(a: Sid, b: Sid) {
    && a.revision == b.revision && a.authority == b.authority
    && forall i :: 0 <= i < |a.subs| && i < |b.subs| ==> a.subs[i] == b.subs[i]
  }

  /** compare_sids: 0 exactly when the SIDs match. */
  method CompareSids(a: Sid, b: Sid) returns (r: int)
    requires |a.authority| == |b.authority| == 6
    ensures r == 0 <==> SidsMatch(a, b)
    ensures -1 <= r <= 1
  {
    if a.revision != b.revision {
      return if a.revision > b.revision then 1 else -1;
    }
    for i := 0 to 6
      invariant forall k :: 0 <= k < i ==> a.authority[k] == b.authority[k]
    {
      if a.authority[i] != b.authority[i] {
        return if a.authority[i] > b.authority[i] then 1 else -1;
      }
    }
    assert a.authority == b.authority;
    var n := if |a.subs| < |b.subs| then |a.subs| else |b.subs|;
    for i := 0 to n
      invariant forall k :: 0 <= k < i ==> a.subs[k] == b.subs[k]
    {
      if a.subs[i] != b.subs[i] {
        return if a.subs[i].Above(b.subs[i]) then 1 else -1;
      }
    }
    return 0;
  }

  // ---- Parsing ----

  // Tests of an access mask against GENERIC_ALL, GENERIC_EXECUTE, GENERIC_WRITE and GENERIC_READ (bits 28
  // to 31), FILE_READ_RIGHTS (0x89), FILE_WRITE_RIGHTS (0x116) and FILE_EXEC_RIGHTS (0x20).
  predicate GenericAll(a: Le32) {
    On(a.b3, 4)
  }

  predicate NamesRead(a: Le32) {
    On(a.b3, 7) || (On(a.b0, 0) && On(a.b0, 3) && On(a.b0, 7))
  }

  predicate NamesWrite(a: Le32) {
    On(a.b3, 6) || (On(a.b0, 1) && On(a.b0, 2) && On(a.b0, 4) && On(a.b1, 0))
  }

  predicate NamesExec(a: Le32) {
    On(a.b3, 5) || On(a.b0, 5)
  }

  /** The access mask names permission `p`, by a generic right or by all its file rights. */
  ghost predicate Says(a: Le32, p: Perm) {
    || GenericAll(a)
    || (p.Read? && NamesRead(a))
    || (p.Write? && NamesWrite(a))
    || (p.Exec? && NamesExec(a))
  }

  /** The mode bits, for everybody, that an access mask speaks about. */
  ghost function Rights(access: Le32): set<Bit> {
    set b | b in RWX && Says(access, b.perm)
  }

  /** access_flags_to_mode: a denial takes bits out of the mask, a grant sets the bits still in it. */
  method AccessFlagsToMode(access: Le32, kind: Byte, mode: set<Bit>, bits: set<Bit>) returns (m: set<Bit>, b: set<Bit>)
    ensures m == if kind == ACCESS_ALLOWED then mode + Rights(access) * bits else mode
    ensures b == if kind == ACCESS_DENIED then bits - Rights(access) else bits
  {
    m, b := mode, bits;
    var all, w, r, x := GenericAll(access), NamesWrite(access), NamesRead(access), NamesExec(access);
    assert forall p: Perm :: Says(access, p) == (all || match p case Write => w case Read => r case Exec => x);
    if kind == ACCESS_DENIED {
      if all {
        b := b - RWX;
      }
      if w {
        b := b - ForAll(Write);
      }
      if r {
        b := b - ForAll(Read);
      }
      if x {
        b := b - ForAll(Exec);
      }
    } else if kind == ACCESS_ALLOWED {
      if all {
        m := m + RWX * b;
        return;
      }
      if w {
        m := m + ForAll(Write) * b;
      }
      if r {
        m := m + ForAll(Read) * b;
      }
      if x {
        m := m + ForAll(Exec) * b;
      }
    }
  }

  /** Whom an ACE concerns: the file's owner, its group, or everyone. */
  datatype Party = Owner | GroupOwner | World
  datatype Kind = Allow | Deny | Unknown

  /** What an ACE says: its type, the permissions its access mask names, the parties its SID matches. */
  datatype Rule = Rule(kind: Kind, perms: set<Perm>, parties: set<Party>) {
    ghost predicate Speaks(k: Kind, p: Party, b: Perm) {
      kind == k && p in parties && b in perms
    }
  }

  ghost function RuleOf(a: Ace, owner: Sid, group: Sid): Rule {
    Rule(if a.kind == ACCESS_ALLOWED then Allow else if a.kind == ACCESS_DENIED then Deny else Unknown,
         set p: Perm | Says(a.access, p),
         (if SidsMatch(a.sid, owner) then {Owner} else {}) +
         (if SidsMatch(a.sid, group) then {GroupOwner} else {}) +
         (if SidsMatch(a.sid, EVERYONE) || SidsMatch(a.sid, AUTH_USERS) then {World} else {}))
  }

  /** Mode and masks while the ACEs are being folded in. */
  datatype Fold = Fold(mode: set<Bit>, user: set<Bit>, group: set<Bit>, other: set<Bit>)

  ghost function Masked(r: Rule, p: Party, bits: set<Bit>): set<Bit> {
    set b | b in bits && !r.Speaks(Deny, p, b.perm)
  }

  ghost function Given(r: Rule, p: Party, bits: set<Bit>): set<Bit> {
    set b | b in bits && r.Speaks(Allow, p, b.perm)
  }

  ghost function FoldRule(f: Fold, r: Rule): Fold {
    Fold(f.mode + Given(r, Owner, f.user) + Given(r, GroupOwner, f.group) + Given(r, World, f.other),
         Masked(r, Owner, f.user), Masked(r, GroupOwner, f.group), Masked(r, World, f.other))
  }

  ghost function FoldRules(rs: seq<Rule>): Fold {
    if rs == [] then Fold({}, ForWho(User), ForWho(Group), RWX) else FoldRule(FoldRules(rs[..|rs| - 1]), rs[|rs| - 1])
  }

  /** Some ACE denies permission `b` to the party. */
  ghost predicate Denies(rs: seq<Rule>, p: Party, b: Perm) {
    exists i :: 0 <= i < |rs| && rs[i].Speaks(Deny, p, b)
  }

  /** First match: some ACE grants permission `b` to the party and none before it denies it. */
  ghost predicate Allows(rs: seq<Rule>, p: Party, b: Perm) {
    exists i :: 0 <= i < |rs| && rs[i].Speaks(Allow, p, b) && !Denies(rs[..i], p, b)
  }

  lemma DeniesNext(rs: seq<Rule>, init: seq<Rule>, r: Rule, p: Party, b: Perm)
    requires rs == init + [r]
    ensures Denies(rs, p, b) <==> Denies(init, p, b) || r.Speaks(Deny, p, b)
  {
    assert rs[|init|] == r && forall i :: 0 <= i < |init| ==> rs[i] == init[i];
  }

  lemma AllowsNext(rs: seq<Rule>, init: seq<Rule>, r: Rule, p: Party, b: Perm)
    requires rs == init + [r]
    ensures Allows(rs, p, b) <==> Allows(init, p, b) || (r.Speaks(Allow, p, b) && !Denies(init, p, b))
  {
    assert rs[|init|] == r && rs[..|init|] == init;
    assert forall i :: 0 <= i < |init| ==> rs[i] == init[i] && rs[..i] == init[..i];
  }

  lemma MatchNext(rs: seq<Rule>, p: Party, b: Perm)
    requires rs != []
    ensures var r, init := rs[|rs| - 1], rs[..|rs| - 1];
            && (Denies(rs, p, b) <==> Denies(init, p, b) || r.Speaks(Deny, p, b))
            && (Allows(rs, p, b) <==> Allows(init, p, b) || (r.Speaks(Allow, p, b) && !Denies(init, p, b)))
  {
    var r, init := rs[|rs| - 1], rs[..|rs| - 1];
    assert rs == init + [r];
    DeniesNext(rs, init, r, p, b);
    AllowsNext(rs, init, r, p, b);
  }

  lemma EveryBit(b: Bit)
    ensures b in RWX && forall w :: b in ForWho(w) <==> b.who == w
  {
    match b.who {
      case User =>
      case Group =>
      case Other =>
    }
    match b.perm {
      case Read =>
      case Write =>
      case Exec =>
    }
  }

  lemma FoldNext(f: Fold, r: Rule, b: Bit)
    ensures var g := FoldRule(f, r);
            && (b in g.mode <==>
                  || b in f.mode
                  || (b in f.user && r.Speaks(Allow, Owner, b.perm))
                  || (b in f.group && r.Speaks(Allow, GroupOwner, b.perm))
                  || (b in f.other && r.Speaks(Allow, World, b.perm)))
            && (b in g.user <==> b in f.user && !r.Speaks(Deny, Owner, b.perm))
            && (b in g.group <==> b in f.group && !r.Speaks(Deny, GroupOwner, b.perm))
            && (b in g.other <==> b in f.other && !r.Speaks(Deny, World, b.perm))
  {
  }

  /** For every list of ACEs: a user or group bit ends up set iff an allow ACE for the owner or group
      grants it with no earlier denial for that SID, or one for everyone or authenticated users does
      with no earlier denial among those; other bits depend on the latter alone. */
  lemma {:induction false} FirstMatch(rs: seq<Rule>, b: Bit)
    ensures var f := FoldRules(rs);
            && (b in f.mode <==>
                  || (b.who == User && Allows(rs, Owner, b.perm))
                  || (b.who == Group && Allows(rs, GroupOwner, b.perm))
                  || Allows(rs, World, b.perm))
            && (b in f.user <==> b.who == User && !Denies(rs, Owner, b.perm))
            && (b in f.group <==> b.who == Group && !Denies(rs, GroupOwner, b.perm))
            && (b in f.other <==> !Denies(rs, World, b.perm))
    decreases |rs|
  {
    EveryBit(b);
    if rs == [] {
    } else {
      FirstMatch(rs[..|rs| - 1], b);
      FoldNext(FoldRules(rs[..|rs| - 1]), rs[|rs| - 1], b);
      MatchNext(rs, Owner, b.perm);
      MatchNext(rs, GroupOwner, b.perm);
      MatchNext(rs, World, b.perm);
    }
  }

  // ---- The DACL as bytes ----

  function Word(b: seq<Byte>, i: nat): Le32
    requires i + 4 <= |b|
  {
    Le32(b[i], b[i + 1], b[i + 2], b[i + 3])
  }

  function Half(b: seq<Byte>, i: nat): nat
    requires i + 2 <= |b|
  {
    b[i] as int + 256 * (b[i + 1] as int)
  }

  lemma WordBack(x: Le32, b: seq<Byte>, i: nat)
    requires i + 4 <= |b| && b[i..i + 4] == x.Bytes()
    ensures Word(b, i) == x
  {
    var le := b[i..i + 4];
    assert le[0] == b[i] && le[1] == b[i + 1] && le[2] == b[i + 2] && le[3] == b[i + 3];
  }

  ghost function SubBytes(subs: seq<Le32>): (r: seq<Byte>)
    ensures |r| == 4 * |subs|
  {
    if subs == [] then [] else SubBytes(subs[..|subs| - 1]) + subs[|subs| - 1].Bytes()
  }

  ghost function SidBytes(s: Sid): (r: seq<Byte>)
    requires WellFormed(s)
    ensures |r| == 8 + 4 * |s.subs|
  {
    [s.revision, |s.subs|] + s.authority + SubBytes(s.subs)
  }

  /** A whole ACE in memory: type, flags, size, access mask, SID. */
  ghost function AceBytes(a: Ace): (r: seq<Byte>)
    requires WellFormed(a.sid)
    ensures |r| == 16 + 4 * |a.sid.subs|
  {
    var size := 16 + 4 * |a.sid.subs|;
    [a.kind, 0, size % 256, size / 256] + a.access.Bytes() + SidBytes(a.sid)
  }

  // ---- Reading an ACE through a pointer into the buffer ----

  function SizeAt(b: seq<Byte>, i: nat): nat
    requires i + 16 <= |b|
  {
    Half(b, i + 2)
  }

  /** The ACE at `i` lies inside the buffer. */
  predicate AceInside(b: seq<Byte>, i: nat) {
    i + 16 <= |b| && i + 16 + 4 * (b[i + 9] as int) <= |b|
  }

  function AceAt(b: seq<Byte>, i: nat): Ace
    requires AceInside(b, i)
  {
    Ace(b[i], Word(b, i + 4),
        Sid(b[i + 8], b[i + 10..i + 16], seq(b[i + 9], k requires 0 <= k < b[i + 9] => Word(b, i + 16 + 4 * k))))
  }

  lemma {:induction false} SubsBack(subs: seq<Le32>, b: seq<Byte>, i: nat, k: nat)
    requires k < |subs| && i + 4 * |subs| <= |b| && b[i..i + 4 * |subs|] == SubBytes(subs)
    ensures Word(b, i + 4 * k) == subs[k]
    decreases |subs|
  {
    var n := |subs| - 1;
    TwoPieces(b, i, SubBytes(subs[..n]), subs[n].Bytes());
    if k == n {
      WordBack(subs[n], b, i + 4 * n);
    } else {
      SubsBack(subs[..n], b, i, k);
    }
  }

  lemma SidBack(s: Sid, b: seq<Byte>, j: nat)
    requires WellFormed(s) && j + |SidBytes(s)| <= |b| && b[j..j + |SidBytes(s)|] == SidBytes(s)
    ensures b[j] == s.revision && b[j + 1] == |s.subs| && b[j + 2..j + 8] == s.authority
    ensures forall k :: 0 <= k < |s.subs| ==> Word(b, j + 8 + 4 * k) == s.subs[k]
  {
    var head, subs := [s.revision, |s.subs|], SubBytes(s.subs);
    ThreePieces(b, j, head, s.authority, subs);
    assert b[j..j + 2][0] == b[j] && b[j..j + 2][1] == b[j + 1];
    forall k | 0 <= k < |s.subs|
      ensures Word(b, j + 8 + 4 * k) == s.subs[k]
    {
      SubsBack(s.subs, b, j + 8, k);
    }
  }

  lemma HeadBack(a: Ace, b: seq<Byte>, i: nat)
    requires WellFormed(a.sid) && i + |AceBytes(a)| <= |b| && b[i..i + |AceBytes(a)|] == AceBytes(a)
    ensures b[i] == a.kind && SizeAt(b, i) == |AceBytes(a)| && Word(b, i + 4) == a.access
    ensures b[i + 8..i + |AceBytes(a)|] == SidBytes(a.sid)
  {
    var size := 16 + 4 * |a.sid.subs|;
    var head, sid := [a.kind, 0, size % 256, size / 256], SidBytes(a.sid);
    ThreePieces(b, i, head, a.access.Bytes(), sid);
    assert b[i..i + 4][0] == b[i] && b[i..i + 4][2] == b[i + 2] && b[i..i + 4][3] == b[i + 3];
    WordBack(a.access, b, i + 4);
  }

  /** What is read at the place an ACE was written is that ACE, and its size leads just past it. */
  lemma AceBack(a: Ace, b: seq<Byte>, i: nat)
    requires WellFormed(a.sid) && i + |AceBytes(a)| <= |b| && b[i..i + |AceBytes(a)|] == AceBytes(a)
    ensures AceInside(b, i) && AceAt(b, i) == a && SizeAt(b, i) == |AceBytes(a)|
  {
    HeadBack(a, b, i);
    SidBack(a.sid, b, i + 8);
    assert AceAt(b, i).sid.subs == a.sid.subs;
  }

  // ---- parse_dacl ----

  /** `n` ACEs, each starting where the size of the one before leads, lie inside the buffer. */
  ghost predicate AcesInside(b: seq<Byte>, i: nat, n: nat)
    decreases n
  {
    n == 0 || (AceInside(b, i) && AcesInside(b, i + SizeAt(b, i), n - 1))
  }

  /** The places of the ACE pointer: where each of the `n` ACEs starts, and where the last one ends. */
  ghost function Places(b: seq<Byte>, i: nat, n: nat): (r: seq<nat>)
    requires AcesInside(b, i, n)
    ensures |r| == n + 1 && r[0] == i
    ensures forall k :: 0 <= k < n ==> AceInside(b, r[k])
    decreases n
  {
    [i] + if n == 0 then [] else Places(b, i + SizeAt(b, i), n - 1)
  }

  lemma {:induction false} PlacesNext(b: seq<Byte>, i: nat, n: nat, k: nat)
    requires AcesInside(b, i, n) && k < n
    ensures var ps := Places(b, i, n);
            ps[k + 1] == ps[k] + SizeAt(b, ps[k])
    decreases n
  {
    if k == 0 {
    } else {
      PlacesNext(b, i + SizeAt(b, i), n - 1, k - 1);
    }
  }

  ghost function RulesAt(b: seq<Byte>, i: nat, n: nat, owner: Sid, group: Sid): (r: seq<Rule>)
    requires AcesInside(b, i, n)
  {
    var ps := Places(b, i, n);
    seq(n, k requires 0 <= k < n => RuleOf(AceAt(b, ps[k]), owner, group))
  }

  /** One of the comparisons in the loop of parse_dacl, and what follows from it. */
  method ApplyFor(a: Ace, sid: Sid, mode: set<Bit>, bits: set<Bit>) returns (m: set<Bit>, b: set<Bit>)
    requires |a.sid.authority| == |sid.authority| == 6
    ensures m == if SidsMatch(a.sid, sid) && a.kind == ACCESS_ALLOWED then mode + Rights(a.access) * bits else mode
    ensures b == if SidsMatch(a.sid, sid) && a.kind == ACCESS_DENIED then bits - Rights(a.access) else bits
  {
    m, b := mode, bits;
    var c := CompareSids(a.sid, sid);
    if c == 0 {
      m, b := AccessFlagsToMode(a.access, a.kind, mode, bits);
    }
  }

  lemma RuleEffect(a: Ace, owner: Sid, group: Sid, p: Party, bits: set<Bit>)
    ensures var r := RuleOf(a, owner, group);
            && Given(r, p, bits) == (if p in r.parties && a.kind == ACCESS_ALLOWED then Rights(a.access) * bits else {})
            && Masked(r, p, bits) == if p in r.parties && a.kind == ACCESS_DENIED then bits - Rights(a.access) else bits
  {
    forall b: Bit
      ensures b in RWX
    {
      EveryBit(b);
    }
  }

  /** The two comparisons with the well-known SIDs share one mask. */
  method ApplyWorld(a: Ace, owner: Sid, group: Sid, mode: set<Bit>, bits: set<Bit>) returns (m: set<Bit>, b: set<Bit>)
    requires |a.sid.authority| == 6
    ensures m == mode + Given(RuleOf(a, owner, group), World, bits) && b == Masked(RuleOf(a, owner, group), World, bits)
  {
    RuleEffect(a, owner, group, World, bits);
    m, b := ApplyFor(a, EVERYONE, mode, bits);
    m, b := ApplyFor(a, AUTH_USERS, m, b);
  }

  /** The comparisons of one ACE in the loop of parse_dacl. */
  method ApplyAce(a: Ace, owner: Sid, group: Sid, f: Fold) returns (r: Fold)
    requires |a.sid.authority| == |owner.authority| == |group.authority| == 6
    ensures r == FoldRule(f, RuleOf(a, owner, group))
  {
    RuleEffect(a, owner, group, Owner, f.user);
    RuleEffect(a, owner, group, GroupOwner, f.group);
    var mode, user := ApplyFor(a, owner, f.mode, f.user);
    assert mode == f.mode + Given(RuleOf(a, owner, group), Owner, f.user);
    var grp, other;
    mode, grp := ApplyFor(a, group, mode, f.group);
    mode, other := ApplyWorld(a, owner, group, mode, f.other);
    r := Fold(mode, user, grp, other);
  }

  /** Turn `k`: the ACE at `places[k]` takes the fold from `states[k]` to `states[k + 1]`. */
  ghost predicate Turn(b: seq<Byte>, owner: Sid, group: Sid, places: seq<nat>, states: seq<Fold>, k: nat)
    requires k + 1 < |places| && k + 1 < |states|
  {
    && AceInside(b, places[k]) && places[k + 1] == places[k] + SizeAt(b, places[k])
    && states[k + 1] == FoldRule(states[k], RuleOf(AceAt(b, places[k]), owner, group))
  }

  ghost predicate Turns(b: seq<Byte>, n: nat, owner: Sid, group: Sid, places: seq<nat>, states: seq<Fold>) {
    |places| == |states| == n + 1 && forall k :: 0 <= k < n ==> Turn(b, owner, group, places, states, k)
  }

  /** One turn of the loop of parse_dacl. */
  method ApplyAt(b: seq<Byte>, pos: nat, owner: Sid, group: Sid, f: Fold,
                 ghost n: nat, ghost places: seq<nat>, ghost states: seq<Fold>, k: nat)
    returns (next: nat, r: Fold)
    requires |owner.authority| == |group.authority| == 6
    requires k < n && Turns(b, n, owner, group, places, states) && pos == places[k] && f == states[k]
    ensures next == places[k + 1] && r == states[k + 1]
  {
    assert Turn(b, owner, group, places, states, k);
    next := pos + SizeAt(b, pos);
    r := ApplyAce(AceAt(b, pos), owner, group, f);
  }

  /** The loop of parse_dacl. */
  method FoldDacl(b: seq<Byte>, start: nat, n: nat, owner: Sid, group: Sid, init: Fold,
                  ghost places: seq<nat>, ghost states: seq<Fold>)
    returns (f: Fold)
    requires |owner.authority| == |group.authority| == 6
    requires Turns(b, n, owner, group, places, states) && places[0] == start && states[0] == init
    ensures f == states[n]
  {
    var pos := start;
    f := init;
    for k := 0 to n
      invariant pos == places[k] && f == states[k]
    {
      pos, f := ApplyAt(b, pos, owner, group, f, n, places, states, k);
    }
  }

  /** The states the fold of `rs` passes through. */
  ghost function States(rs: seq<Rule>): (r: seq<Fold>)
    ensures |r| == |rs| + 1 && forall k :: 0 <= k <= |rs| ==> r[k] == FoldRules(rs[..k])
  {
    seq(|rs| + 1, k requires 0 <= k <= |rs| => FoldRules(rs[..k]))
  }

  lemma StatesNext(rs: seq<Rule>, k: nat)
    requires k < |rs|
    ensures States(rs)[k + 1] == FoldRule(States(rs)[k], rs[k])
  {
    assert rs[..k + 1][..k] == rs[..k];
  }

  lemma TurnHolds(b: seq<Byte>, i: nat, n: nat, owner: Sid, group: Sid, k: nat, places: seq<nat>, rs: seq<Rule>,
                  states: seq<Fold>)
    requires AcesInside(b, i, n) && k < n && places == Places(b, i, n) && rs == RulesAt(b, i, n, owner, group)
    requires states == States(rs)
    ensures Turn(b, owner, group, places, states, k)
  {
    PlacesNext(b, i, n, k);
    StatesNext(rs, k);
    assert rs[k] == RuleOf(AceAt(b, places[k]), owner, group);
  }

  lemma TurnsHold(b: seq<Byte>, i: nat, n: nat, owner: Sid, group: Sid)
    requires AcesInside(b, i, n)
    ensures Turns(b, n, owner, group, Places(b, i, n), States(RulesAt(b, i, n, owner, group)))
  {
    var places, rs := Places(b, i, n), RulesAt(b, i, n, owner, group);
    var states := States(rs);
    forall k | 0 <= k < n
      ensures Turn(b, owner, group, places, states, k)
    {
      TurnHolds(b, i, n, owner, group, k, places, rs, states);
    }
  }

  /** parse_dacl, for a DACL whose ACEs lie inside the buffer. Without a DACL every permission bit is set;
      a DACL said to reach past the end is ignored; otherwise the permission bits are replaced by what the
      fold of its ACEs gives. */
  method ParseDacl(b: seq<Byte>, dacl: Option<nat>, end: nat, owner: Sid, group: Sid, mode: set<Bit>)
    returns (m: set<Bit>)
    requires |owner.authority| == |group.authority| == 6
    requires dacl.Some? ==> dacl.value + 8 <= |b| && AcesInside(b, dacl.value + 8, AceCount(b, dacl.value))
    ensures m == match dacl
                 case None => mode + RWX
                 case Some(at) =>
                   if end < at + Half(b, at + 2) then mode
                   else FoldRules(RulesAt(b, at + 8, AceCount(b, at), owner, group)).mode
  {
    if dacl.None? {
      return mode + RWX;
    }
    var at := dacl.value;
    if end < at + Half(b, at + 2) {
      return mode;
    }
    var n, init := AceCount(b, at), Fold({}, ForWho(User), ForWho(Group), RWX);
    ghost var rules, places := RulesAt(b, at + 8, n, owner, group), Places(b, at + 8, n);
    TurnsHold(b, at + 8, n, owner, group);
    assert rules[..n] == rules;
    var f := FoldDacl(b, at + 8, n, owner, group, init, places, States(rules));
    return f.mode;
  }

  /** The ACE count of the header at `at`; from 2^31 on it is a negative `int`, and no ACE is read. */
  function AceCount(b: seq<Byte>, at: nat): nat
    requires at + 8 <= |b|
  {
    if b[at + 7] >= 128 then 0 else Half(b, at + 4) + 65536 * Half(b, at + 6)
  }
}
