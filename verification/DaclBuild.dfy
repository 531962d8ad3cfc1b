/** The DACL builder (cifsacl.c): set_chmod_dacl writes three ACEs for a mode into a buffer, and
    parse_dacl reads them back. */
module DaclBuild {

  import opened Basics
  import opened Buffers
  import opened Dacl

  // ---- Access masks ----

  lemma OrTable()
    ensures OrByte(0, 0x99) == 0x99 && OrByte(0, 0xDE) == 0xDE && OrByte(0, 0xB8) == 0xB8
    ensures OrByte(0x99, 0xDE) == 0xDF && OrByte(0x99, 0xB8) == 0xB9 && OrByte(0xDE, 0xB8) == 0xFE
    ensures OrByte(0xDF, 0xB8) == 0xFF
    ensures OrByte(0, 0) == 0 && OrByte(0, 1) == OrByte(1, 1) == 1 && OrByte(0, 0x1F) == OrByte(0x1F, 0x1F) == 0x1F
  {
  }

  /** The mask whose file rights are those of the given permissions. */
  ghost function Flags(r: bool, w: bool, x: bool): Le32 {
    if !r && !w && !x then ZERO else Le32(LowFlags(r, w, x), 0x01, 0x1F, 0)
  }

  ghost function LowFlags(r: bool, w: bool, x: bool): Byte {
    if r && w && x then 0xFF
    else if r && w then 0xDF
    else if r && x then 0xB9
    else if w && x then 0xFE
    else if r then 0x99
    else if w then 0xDE
    else if x then 0xB8
    else 0
  }

  lemma FlagsOr(r: bool, w: bool)
    ensures ZERO.Or(SET_FILE_READ_RIGHTS) == Flags(true, false, false)
    ensures Flags(r, false, false).Or(SET_FILE_WRITE_RIGHTS) == Flags(r, true, false)
    ensures Flags(r, w, false).Or(SET_FILE_EXEC_RIGHTS) == Flags(r, w, true)
  {
    OrTable();
  }

  lemma FlagsSay(r: bool, w: bool, x: bool)
    ensures Says(Flags(r, w, x), Read) == r && Says(Flags(r, w, x), Write) == w && Says(Flags(r, w, x), Exec) == x
  {
  }

  /** Somebody has the permission. */
  predicate Has(mode: set<Bit>, p: Perm) {
    mode * ForAll(p) != {}
  }

  /** mode_to_access_flags: the mask of the permissions the selected bits give. */
  method ModeToAccessFlags(mode: set<Bit>, bits: set<Bit>) returns (flags: Le32)
    ensures var used := mode * bits; flags == Flags(Has(used, Read), Has(used, Write), Has(used, Exec))
  {
    flags := ZERO;
    var used := mode * bits;
    FlagsOr(Has(used, Read), Has(used, Write));
    if Has(used, Read) {
      flags := flags.Or(SET_FILE_READ_RIGHTS);
    }
    if Has(used, Write) {
      flags := flags.Or(SET_FILE_WRITE_RIGHTS);
    }
    if Has(used, Exec) {
      flags := flags.Or(SET_FILE_EXEC_RIGHTS);
    }
  }

  // ---- Writing ACEs ----

  /** The mask fill_ace_for_sid writes: minimum rights where no permission is given. */
  ghost function FileRights(r: bool, w: bool, x: bool): Le32 {
    if !r && !w && !x then SET_MINIMUM_RIGHTS else Flags(r, w, x)
  }

  lemma FileRightsSay(r: bool, w: bool, x: bool)
    ensures var f := FileRights(r, w, x); Says(f, Read) == r && Says(f, Write) == w && Says(f, Exec) == x
  {
    FlagsSay(r, w, x);
  }

  ghost function BuiltAce(sid: Sid, mode: set<Bit>, who: Who): Ace {
    Ace(ACCESS_ALLOWED, FileRights(Bit(who, Read) in mode, Bit(who, Write) in mode, Bit(who, Exec) in mode), sid)
  }

  lemma SubBytesNext(done: seq<Byte>, subs: seq<Le32>, i: nat)
    requires i < |subs|
    ensures done + SubBytes(subs[..i]) + subs[i].Bytes() == done + SubBytes(subs[..i + 1])
  {
    assert subs[..i + 1][..i] == subs[..i];
    var x, y := SubBytes(subs[..i]), subs[i].Bytes();
    assert done + x + y == done + (x + y);
  }

  /** The copy of the sub-authorities in fill_ace_for_sid, after what is `done`. */
  method PutSubs(a: array<Byte>, at: nat, subs: seq<Le32>, ghost was: seq<Byte>, ghost off: nat, ghost done: seq<Byte>)
    returns (ghost written: seq<Byte>)
    requires at == off + |done| && at + 4 * |subs| <= a.Length == |was| && a[..] == Splice(was, off, done)
    modifies a
    ensures written == done + SubBytes(subs) && off + |written| <= |was| && a[..] == Splice(was, off, written)
  {
    written := done;
    for i := 0 to |subs|
      invariant written == done + SubBytes(subs[..i]) && off + |written| <= |was| && a[..] == Splice(was, off, written)
    {
      SubBytesNext(done, subs, i);
      written := Append(a, at + 4 * i, subs[i].Bytes(), was, off, written);
    }
    assert subs[..|subs|] == subs;
  }

  /** The copy of a SID in fill_ace_for_sid, after what is `done`. */
  method PutSid(a: array<Byte>, at: nat, sid: Sid, ghost was: seq<Byte>, ghost off: nat, ghost done: seq<Byte>)
    returns (ghost written: seq<Byte>)
    requires WellFormed(sid) && at == off + |done| && at + 8 + 4 * |sid.subs| <= a.Length == |was|
    requires a[..] == Splice(was, off, done)
    modifies a
    ensures written == done + SidBytes(sid) && off + |written| <= |was| && a[..] == Splice(was, off, written)
  {
    var head := [sid.revision, |sid.subs|];
    written := Append(a, at, head, was, off, done);
    written := Append(a, at + 2, sid.authority, was, off, written);
    written := PutSubs(a, at + 8, sid.subs, was, off, written);
    JoinFour(done, head, sid.authority, SubBytes(sid.subs));
  }

  lemma HasIsBit(mode: set<Bit>, who: Who, p: Perm)
    ensures Has(mode * ForWho(who), p) <==> Bit(who, p) in mode
  {
    var used := mode * ForWho(who) * ForAll(p);
    EveryBit(Bit(who, p));
    assert Bit(who, p) in ForAll(p);
    if Bit(who, p) in mode {
      assert Bit(who, p) in used;
    } else {
      forall b: Bit
        ensures b !in used
      {
        EveryBit(b);
      }
    }
  }

  /** The access mask fill_ace_for_sid chooses. */
  method RightsFor(mode: set<Bit>, who: Who) returns (access: Le32)
    ensures access == FileRights(Bit(who, Read) in mode, Bit(who, Write) in mode, Bit(who, Exec) in mode)
  {
    HasIsBit(mode, who, Read);
    HasIsBit(mode, who, Write);
    HasIsBit(mode, who, Exec);
    access := ModeToAccessFlags(mode, ForWho(who));
    if access == ZERO {
      access := SET_MINIMUM_RIGHTS;
    }
  }

  /** An ACE written after what is `done`. */
  method PutAce(a: array<Byte>, at: nat, access: Le32, sid: Sid, ghost was: seq<Byte>, ghost off: nat,
                ghost done: seq<Byte>)
    returns (size: nat, ghost written: seq<Byte>)
    requires WellFormed(sid) && at == off + |done| && at + 16 + 4 * |sid.subs| <= a.Length == |was|
    requires a[..] == Splice(was, off, done)
    modifies a
    ensures size == 16 + 4 * |sid.subs| && off + |written| <= |was| && a[..] == Splice(was, off, written)
    ensures written == done + AceBytes(Ace(ACCESS_ALLOWED, access, sid))
  {
    size := 1 + 1 + 2 + 4 + 1 + 1 + 6 + 4 * |sid.subs|;
    var head := [ACCESS_ALLOWED, 0, size % 256, size / 256];
    written := Append(a, at, head, was, off, done);
    written := Append(a, at + 4, access.Bytes(), was, off, written);
    written := PutSid(a, at + 8, sid, was, off, written);
    JoinFour(done, head, access.Bytes(), SidBytes(sid));
  }

  /** fill_ace_for_sid */
  method FillAceForSid(a: array<Byte>, at: nat, sid: Sid, mode: set<Bit>, who: Who, ghost was: seq<Byte>,
                       ghost off: nat, ghost done: seq<Byte>)
    returns (size: nat, ghost written: seq<Byte>)
    requires WellFormed(sid) && at == off + |done| && at + 16 + 4 * |sid.subs| <= a.Length == |was|
    requires a[..] == Splice(was, off, done)
    modifies a
    ensures size == 16 + 4 * |sid.subs| && off + |written| <= |was| && a[..] == Splice(was, off, written)
    ensures written == done + AceBytes(BuiltAce(sid, mode, who))
  {
    var access := RightsFor(mode, who);
    size, written := PutAce(a, at, access, sid, was, off, done);
  }

  // ---- The whole DACL ----

  ghost function OwnerAce(owner: Sid, mode: set<Bit>): Ace {
    BuiltAce(owner, mode, User)
  }

  ghost function GroupAce(group: Sid, mode: set<Bit>): Ace {
    BuiltAce(group, mode, Group)
  }

  ghost function EveryoneAce(mode: set<Bit>): Ace {
    BuiltAce(EVERYONE, mode, Other)
  }

  ghost function ThreeAces(x: Ace, y: Ace, z: Ace): (r: seq<Byte>)
    requires WellFormed(x.sid) && WellFormed(y.sid) && WellFormed(z.sid)
    ensures |r| == |AceBytes(x)| + |AceBytes(y)| + |AceBytes(z)|
  {
    [] + AceBytes(x) + AceBytes(y) + AceBytes(z)
  }

  /** The three ACEs in memory. */
  ghost function Body(owner: Sid, group: Sid, mode: set<Bit>): (r: seq<Byte>)
    requires WellFormed(owner) && WellFormed(group)
    ensures |r| == 52 + 4 * |owner.subs| + 4 * |group.subs|
  {
    ThreeAces(OwnerAce(owner, mode), GroupAce(group, mode), EveryoneAce(mode))
  }

  /** The size and the count in the header, for ACEs of `size` bytes. */
  function Head(size: nat): (r: seq<Byte>)
    requires size < 248
    ensures |r| == 6
  {
    [(size + 8) % 256, (size + 8) / 256, 3, 0, 0, 0]
  }

  /** The DACL for a mode stands at `at`: its size and count, then its three ACEs. */
  ghost predicate Holds(b: seq<Byte>, at: nat, owner: Sid, group: Sid, mode: set<Bit>)
    requires WellFormed(owner) && WellFormed(group)
  {
    var body := Body(owner, group, mode);
    at + 8 + |body| <= |b| && b[at + 2..at + 8] == Head(|body|) && b[at + 8..at + 8 + |body|] == body
  }

  /** The three ACEs, each after the last. */
  method FillAces(a: array<Byte>, off: nat, owner: Sid, group: Sid, mode: set<Bit>)
    returns (size: nat, ghost body: seq<Byte>)
    requires WellFormed(owner) && WellFormed(group)
    requires off + 52 + 4 * |owner.subs| + 4 * |group.subs| <= a.Length
    modifies a
    ensures body == Body(owner, group, mode) && size == |body| && a[..] == Splice(old(a[..]), off, body)
  {
    ghost var was := a[..];
    SpliceNone(was, off);
    var n;
    size, body := FillAceForSid(a, off, owner, mode, User, was, off, []);
    n, body := FillAceForSid(a, off + size, group, mode, Group, was, off, body);
    size := size + n;
    n, body := FillAceForSid(a, off + size, EVERYONE, mode, Other, was, off, body);
    size := size + n;
  }

  method PutHead(a: array<Byte>, at: nat, size: nat, ghost body: seq<Byte>)
    requires size == |body| < 248 && at + 8 + size <= a.Length && a[at + 8..at + 8 + size] == body
    modifies a
    ensures a[..at + 2] == old(a[..at + 2]) && a[at + 2..at + 8] == Head(size) && a[at + 8..] == old(a[at + 8..])
    ensures a[at + 8..at + 8 + size] == body
  {
    SpliceSlices(a[..], at + 2, Head(size));
    Put(a, at + 2, Head(size));
    assert a[at + 8..at + 8 + size] == a[at + 8..][..size];
  }

  /** set_chmod_dacl, for a DACL at `at`. */
  method SetChmodDacl(a: array<Byte>, at: nat, owner: Sid, group: Sid, mode: set<Bit>)
    requires WellFormed(owner) && WellFormed(group)
    requires at + 60 + 4 * |owner.subs| + 4 * |group.subs| <= a.Length
    modifies a
    ensures Holds(a[..], at, owner, group, mode)
    ensures a[..at + 2] == old(a[..at + 2])
    ensures var end := at + 60 + 4 * |owner.subs| + 4 * |group.subs|; a[end..] == old(a[end..])
  {
    ghost var was := a[..];
    var size, body := FillAces(a, at + 8, owner, group, mode);
    SpliceSlices(was, at + 8, body);
    PutHead(a, at, size, body);
  }

  // ---- Reading it back ----

  /** The ACE `x` is read at `i`, and its size leads to `e`. */
  ghost predicate AceStands(b: seq<Byte>, i: nat, x: Ace, e: nat) {
    AceInside(b, i) && AceAt(b, i) == x && i + SizeAt(b, i) == e
  }

  /** Following the sizes from `at[0]` on leads to the ACEs `x`, `y` and `z`, at the places given. */
  ghost predicate Stand(b: seq<Byte>, at: seq<nat>, x: Ace, y: Ace, z: Ace)
    requires |at| == 4
  {
    AceStands(b, at[0], x, at[1]) && AceStands(b, at[1], y, at[2]) && AceStands(b, at[2], z, at[3])
  }

  lemma AceStandsBack(b: seq<Byte>, i: nat, x: Ace, s: seq<Byte>, e: nat)
    requires WellFormed(x.sid) && s == AceBytes(x) && e == i + |s| <= |b| && b[i..e] == s
    ensures AceStands(b, i, x, e)
  {
    AceBack(x, b, i);
  }

  /** Three ACEs written one after the other stand where they were written. */
  lemma AcesBack(b: seq<Byte>, i: nat, j: nat, k: nat, e: nat, x: Ace, y: Ace, z: Ace, t: seq<Byte>, u: seq<Byte>,
                 v: seq<Byte>)
    requires WellFormed(x.sid) && WellFormed(y.sid) && WellFormed(z.sid)
    requires t == AceBytes(x) && u == AceBytes(y) && v == AceBytes(z)
    requires j == i + |t| && k == j + |u| && e == k + |v| <= |b| && b[i..e] == t + u + v
    ensures AceStands(b, i, x, j) && AceStands(b, j, y, k) && AceStands(b, k, z, e)
  {
    ThreePieces(b, i, t, u, v);
    AceStandsBack(b, i, x, t, j);
    AceStandsBack(b, j, y, u, k);
    AceStandsBack(b, k, z, v, e);
  }

  lemma StandVisited(b: seq<Byte>, at: seq<nat>, x: Ace, y: Ace, z: Ace)
    requires |at| == 4 && Stand(b, at, x, y, z)
    ensures AcesInside(b, at[0], 3) && Places(b, at[0], 3) == at
  {
    assert AcesInside(b, at[3], 0);
    assert AcesInside(b, at[2], 1);
    assert AcesInside(b, at[1], 2);
    assert Places(b, at[3], 0) == at[3..];
    assert Places(b, at[2], 1) == at[2..];
    assert Places(b, at[1], 2) == at[1..];
  }

  lemma StandRules(b: seq<Byte>, at: seq<nat>, x: Ace, y: Ace, z: Ace, owner: Sid, group: Sid)
    requires |at| == 4 && Stand(b, at, x, y, z)
    ensures AcesInside(b, at[0], 3)
    ensures RulesAt(b, at[0], 3, owner, group) ==
              [RuleOf(x, owner, group), RuleOf(y, owner, group), RuleOf(z, owner, group)]
  {
    StandVisited(b, at, x, y, z);
  }

  /** What reading a mode back gives: everybody gets what other has. */
  ghost function Spread(mode: set<Bit>): set<Bit> {
    set b | b in RWX && (b in mode || Bit(Other, b.perm) in mode)
  }

  /** Reading and writing once more changes nothing. */
  lemma SpreadTwice(mode: set<Bit>)
    ensures Spread(Spread(mode)) == Spread(mode)
  {
    assert forall p: Perm :: Bit(Other, p) in RWX by {
      forall p: Perm
        ensures Bit(Other, p) in RWX
      {
        EveryBit(Bit(Other, p));
      }
    }
  }

  /** Neither SID matches the other, everyone or authenticated users. */
  ghost predicate Apart(owner: Sid, group: Sid) {
    && !SidsMatch(owner, group)
    && !SidsMatch(owner, EVERYONE) && !SidsMatch(owner, AUTH_USERS)
    && !SidsMatch(group, EVERYONE) && !SidsMatch(group, AUTH_USERS)
  }

  ghost function BuiltRules(owner: Sid, group: Sid, mode: set<Bit>): (r: seq<Rule>)
    ensures |r| == 3
  {
    [RuleOf(OwnerAce(owner, mode), owner, group), RuleOf(GroupAce(group, mode), owner, group),
     RuleOf(EveryoneAce(mode), owner, group)]
  }

  lemma BuiltRule(sid: Sid, mode: set<Bit>, who: Who, owner: Sid, group: Sid, k: Kind, p: Party, b: Perm)
    ensures var r := RuleOf(BuiltAce(sid, mode, who), owner, group);
            r.Speaks(k, p, b) <==> k == Allow && p in r.parties && Bit(who, b) in mode
  {
    FileRightsSay(Bit(who, Read) in mode, Bit(who, Write) in mode, Bit(who, Exec) in mode);
    match b {
      case Read =>
      case Write =>
      case Exec =>
    }
  }

  /** The built ACEs deny nothing; a party has what the ACEs concerning it grant. */
  lemma BuiltAllows(owner: Sid, group: Sid, mode: set<Bit>, p: Party, b: Perm)
    ensures var rs := BuiltRules(owner, group, mode);
            Allows(rs, p, b) <==>
              || (p in rs[0].parties && Bit(User, b) in mode)
              || (p in rs[1].parties && Bit(Group, b) in mode)
              || (p in rs[2].parties && Bit(Other, b) in mode)
  {
    var rs := BuiltRules(owner, group, mode);
    BuiltRule(owner, mode, User, owner, group, Allow, p, b);
    BuiltRule(group, mode, Group, owner, group, Allow, p, b);
    BuiltRule(EVERYONE, mode, Other, owner, group, Allow, p, b);
    BuiltRule(owner, mode, User, owner, group, Deny, p, b);
    BuiltRule(group, mode, Group, owner, group, Deny, p, b);
    BuiltRule(EVERYONE, mode, Other, owner, group, Deny, p, b);
    forall i | 0 <= i < 3
      ensures !rs[i].Speaks(Deny, p, b)
    {
    }
    forall i | 0 <= i < 3
      ensures !Denies(rs[..i], p, b)
    {
      assert forall j :: 0 <= j < i ==> rs[..i][j] == rs[j];
    }
    if p in rs[0].parties && Bit(User, b) in mode {
      assert rs[0].Speaks(Allow, p, b);
    }
    if p in rs[1].parties && Bit(Group, b) in mode {
      assert rs[1].Speaks(Allow, p, b);
    }
    if p in rs[2].parties && Bit(Other, b) in mode {
      assert rs[2].Speaks(Allow, p, b);
    }
  }

  ghost predicate Worldly(sid: Sid) {
    SidsMatch(sid, EVERYONE) || SidsMatch(sid, AUTH_USERS)
  }

  /** The mode read back from the built ACEs, for any two SIDs. */
  lemma ReadBack(owner: Sid, group: Sid, mode: set<Bit>, b: Bit)
    ensures var u, g, o := Bit(User, b.perm) in mode, Bit(Group, b.perm) in mode, Bit(Other, b.perm) in mode;
            b in FoldRules(BuiltRules(owner, group, mode)).mode <==>
              match b.who
              case User => u || o || (g && (SidsMatch(owner, group) || Worldly(group)))
              case Group => g || o || (u && (SidsMatch(owner, group) || Worldly(owner)))
              case Other => o || (u && Worldly(owner)) || (g && Worldly(group))
  {
    FirstMatch(BuiltRules(owner, group, mode), b);
    BuiltAllows(owner, group, mode, Owner, b.perm);
    BuiltAllows(owner, group, mode, GroupOwner, b.perm);
    BuiltAllows(owner, group, mode, World, b.perm);
  }

  /** Reading back a built mode gives user = u|o, group = g|o and other = o for every mode exactly when
      the SIDs are apart. */
  lemma RoundTripExact(owner: Sid, group: Sid)
    ensures Apart(owner, group) <==> forall mode :: FoldRules(BuiltRules(owner, group, mode)).mode == Spread(mode)
  {
    if Apart(owner, group) {
      forall mode
        ensures FoldRules(BuiltRules(owner, group, mode)).mode == Spread(mode)
      {
        forall b: Bit
          ensures b in FoldRules(BuiltRules(owner, group, mode)).mode <==> b in Spread(mode)
        {
          ReadBack(owner, group, mode, b);
          EveryBit(b);
        }
      }
    } else {
      var (who, gets) :=
        if Worldly(group) then (Group, Other) else if Worldly(owner) then (User, Other) else (User, Group);
      var mode, b := {Bit(who, Read)}, Bit(gets, Read);
      ReadBack(owner, group, mode, b);
      assert b in FoldRules(BuiltRules(owner, group, mode)).mode && b !in Spread(mode);
    }
  }

  lemma HeaderBack(b: seq<Byte>, at: nat, size: nat)
    requires size < 248 && at + 8 <= |b| && b[at + 2..at + 8] == Head(size)
    ensures AceCount(b, at) == 3 && Half(b, at + 2) == 8 + size
  {
    var h := b[at + 2..at + 8];
    assert h[0] == b[at + 2] && h[1] == b[at + 3] && h[2] == b[at + 4] && h[3] == b[at + 5]
           && h[4] == b[at + 6] && h[5] == b[at + 7];
  }

  /** Where the three ACEs start, and where the last one ends. */
  ghost function BuiltPlaces(at: nat, owner: Sid, group: Sid): (r: seq<nat>)
    ensures |r| == 4
  {
    var i, m, n := at + 8, 16 + 4 * |owner.subs|, 16 + 4 * |group.subs|;
    [i, i + m, i + m + n, i + m + n + 20]
  }

  lemma BodyIs(owner: Sid, group: Sid, mode: set<Bit>, t: seq<Byte>, u: seq<Byte>, v: seq<Byte>)
    requires WellFormed(owner) && WellFormed(group)
    requires t == AceBytes(OwnerAce(owner, mode)) && u == AceBytes(GroupAce(group, mode))
    requires v == AceBytes(EveryoneAce(mode))
    ensures Body(owner, group, mode) == t + u + v
  {
    assert [] + t == t;
  }

  lemma HoldsStand(b: seq<Byte>, at: nat, owner: Sid, group: Sid, mode: set<Bit>, x: Ace, y: Ace, z: Ace)
    requires WellFormed(owner) && WellFormed(group) && Holds(b, at, owner, group, mode)
    requires x == OwnerAce(owner, mode) && y == GroupAce(group, mode) && z == EveryoneAce(mode)
    ensures Stand(b, BuiltPlaces(at, owner, group), x, y, z)
  {
    var t, u, v := AceBytes(x), AceBytes(y), AceBytes(z);
    BodyIs(owner, group, mode, t, u, v);
    var i, j, k := at + 8, at + 8 + |t|, at + 8 + |t| + |u|;
    AcesBack(b, i, j, k, k + |v|, x, y, z, t, u, v);
    StandAt(b, BuiltPlaces(at, owner, group), i, j, k, k + |v|, x, y, z);
  }

  lemma StandAt(b: seq<Byte>, at: seq<nat>, i: nat, j: nat, k: nat, e: nat, x: Ace, y: Ace, z: Ace)
    requires |at| == 4 && at[0] == i && at[1] == j && at[2] == k && at[3] == e
    requires AceStands(b, i, x, j) && AceStands(b, j, y, k) && AceStands(b, k, z, e)
    ensures Stand(b, at, x, y, z)
  {
  }

  lemma StandParses(b: seq<Byte>, at: seq<nat>, owner: Sid, group: Sid, mode: set<Bit>)
    requires |at| == 4 && Stand(b, at, OwnerAce(owner, mode), GroupAce(group, mode), EveryoneAce(mode))
    ensures AcesInside(b, at[0], 3) && Places(b, at[0], 3) == at
    ensures RulesAt(b, at[0], 3, owner, group) == BuiltRules(owner, group, mode)
  {
    var x, y, z := OwnerAce(owner, mode), GroupAce(group, mode), EveryoneAce(mode);
    StandVisited(b, at, x, y, z);
    StandRules(b, at, x, y, z, owner, group);
  }

  /** Where set_chmod_dacl wrote, parse_dacl finds three ACEs, visits exactly the places they were written
      at, ends where the size says, and reads what was meant. */
  lemma BuiltParses(b: seq<Byte>, at: nat, owner: Sid, group: Sid, mode: set<Bit>)
    requires WellFormed(owner) && WellFormed(group) && Holds(b, at, owner, group, mode)
    ensures AceCount(b, at) == 3 && AcesInside(b, at + 8, 3)
    ensures Places(b, at + 8, 3) == BuiltPlaces(at, owner, group)
    ensures at + Half(b, at + 2) == BuiltPlaces(at, owner, group)[3]
    ensures RulesAt(b, at + 8, 3, owner, group) == BuiltRules(owner, group, mode)
  {
    HeaderBack(b, at, |Body(owner, group, mode)|);
    HoldsStand(b, at, owner, group, mode, OwnerAce(owner, mode), GroupAce(group, mode), EveryoneAce(mode));
    StandParses(b, BuiltPlaces(at, owner, group), owner, group, mode);
  }

  /** The mode round trip, through the bytes. */
  lemma RoundTrip(b: seq<Byte>, at: nat, owner: Sid, group: Sid, mode: set<Bit>)
    requires WellFormed(owner) && WellFormed(group) && Holds(b, at, owner, group, mode)
    requires Apart(owner, group)
    ensures AceCount(b, at) == 3 && AcesInside(b, at + 8, 3)
    ensures FoldRules(RulesAt(b, at + 8, 3, owner, group)).mode == Spread(mode)
  {
    BuiltParses(b, at, owner, group, mode);
    RoundTripExact(owner, group);
  }
}
