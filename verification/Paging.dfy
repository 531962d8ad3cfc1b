/** QUERY_DIRECTORY: smb2_query_dir over a page of cached directory records (smb2pdu.c), with the
    record layout of cifsd_fill_dirent (smb_common.c) and the buffer accounting of
    convname_updatenextoffset (misc.c). */
module Paging {
  import opened Basics
  import Glob

  const PAGE_SIZE := 4096

  /** Bytes one record takes in the page: the fixed part of `cifsd_dirent` and the name, aligned. */
  function RecLen(name: string): nat {
    Align8(24 + |name|)
  }

  function Bytes(page: seq<string>): nat {
    if page == [] then 0 else RecLen(page[0]) + Bytes(page[1..])
  }

  /** Which record starts at byte `off` of the page. */
  function RecordAt(page: seq<string>, off: nat): nat
    decreases |page|
  {
    if off == 0 || page == [] || off < RecLen(page[0]) then 0 else 1 + RecordAt(page[1..], off - RecLen(page[0]))
  }

  lemma {:induction false} RecordStarts(page: seq<string>, k: nat)
    requires k <= |page|
    ensures RecordAt(page, Bytes(page[..k])) == k
    ensures Bytes(page[..k]) <= Bytes(page) && (k < |page| <==> Bytes(page[..k]) < Bytes(page))
    ensures k < |page| ==> Bytes(page[..k + 1]) == Bytes(page[..k]) + RecLen(page[k])
    decreases k
  {
    if k > 0 {
      assert page[..k][1..] == page[1..][..k - 1];
      RecordStarts(page[1..], k - 1);
      if k < |page| {
        assert page[..k + 1][1..] == page[1..][..k];
      }
    } else if page != [] {
      assert page[..1][1..] == [] && page[..1][0] == page[0];
    }
  }

  /** What decides whether a name is listed: the kernel lookup, the share's veto list, the pattern. */
  datatype View = View(fold: char -> char, pattern: string, readable: string -> bool, veto: string -> bool,
                       units: string -> nat)

  const DOT := "."
  const DOTDOT := ".."

  predicate IsDot(name: string) {
    name == DOT || name == DOTDOT
  }

  ghost predicate Listed(v: View, name: string) {
    v.readable(name) && !IsDot(name) && !v.veto(name) && Glob.Answers(v.fold, name, v.pattern, 0, 0)
  }

  /** The plain filter of a directory. */
  ghost function Select(v: View, names: seq<string>): seq<string> {
    if names == [] then []
    else (if Listed(v, names[0]) then [names[0]] else []) + Select(v, names[1..])
  }

  lemma SelectOne(v: View, name: string, more: seq<string>)
    ensures Select(v, [name] + more) == (if Listed(v, name) then [name] else []) + Select(v, more)
  {
    assert ([name] + more)[1..] == more;
  }

  lemma {:induction false} SelectConcat(v: View, a: seq<string>, b: seq<string>)
    ensures Select(v, a + b) == Select(v, a) + Select(v, b)
    decreases |a|
  {
    if a == [] {
      assert a + b == b;
    } else {
      assert (a + b)[1..] == a[1..] + b;
      SelectConcat(v, a[1..], b);
    }
  }

  /** What the filter keeps of a list, in order: exactly the names that can be read, are neither of the
      reserved ones, are not vetoed, and match the pattern as the matcher applies it. */
  lemma {:induction false} SelectExact(v: View, names: seq<string>, name: string)
    ensures Select(v, [name]) ==
              if v.readable(name) && name != "." && name != ".." && !v.veto(name) &&
                 Glob.Match(v.fold, name, Glob.Effective(v.pattern)) then [name] else []
    ensures name in Select(v, names) <==> name in names && Select(v, [name]) == [name]
    decreases |names|
  {
    SelectOne(v, name, []);
    assert [name] + [] == [name];
    Glob.AnswerIsExact(v.fold, name, v.pattern);
    if names == [] {
    } else {
      SelectExact(v, names[1..], name);
    }
  }

  /** Records do not overlap: each starts at the first multiple of 8 that is not before the end of the one
      before it, which takes 24 bytes and its name. */
  lemma RecordsApart(page: seq<string>, k: nat)
    requires k < |page|
    ensures var end := Bytes(page[..k]) + 24 + |page[k]|;
            end <= Bytes(page[..k + 1]) < end + 8 && Bytes(page[..k + 1]) % 8 == 0
  {
    RecordStarts(page, k);
    RecordsAligned(page, k + 1);
  }

  lemma {:induction false} RecordsAligned(page: seq<string>, k: nat)
    requires k <= |page|
    ensures Bytes(page[..k]) % 8 == 0
    decreases k
  {
    if k == 0 {
    } else {
      RecordStarts(page, k - 1);
      RecordsAligned(page, k - 1);
      AlignedSum(Bytes(page[..k - 1]), RecLen(page[k - 1]));
    }
  }

  /** An entry of the response buffer. */
  datatype Entry = Entry(name: string, offset: nat, next: nat)

  ghost function Names(es: seq<Entry>): seq<string> {
    if es == [] then [] else Names(es[..|es| - 1]) + [es[|es| - 1].name]
  }

  /** Entries laid end to end from offset 0 up to `count`, each taking the bytes its name costs. */
  ghost predicate Chained(cost: Cost, es: seq<Entry>, count: nat) {
    if es == [] then count == 0
    else
      var e := es[|es| - 1];
      e.next == cost(e.name) && e.offset + e.next == count && Chained(cost, es[..|es| - 1], e.offset)
  }

  /** Where the bytes of an entry end: the fixed part counts one byte of the name, which follows it in UTF-16. */
  ghost function ContentEnd(v: View, size: EntrySize, e: Entry): nat {
    e.offset + size - 1 + 2 * v.units(e.name)
  }

  /** NextEntryOffset leads from offset 0 through the entries, each to the next, which starts at the first
      multiple of 8 that is not before the end of the entry. */
  ghost predicate Walks(v: View, size: EntrySize, es: seq<Entry>) {
    if |es| <= 1 then es != [] ==> es[0].offset == 0
    else
      var n := |es| - 1;
      var end := ContentEnd(v, size, es[n - 1]);
      && Walks(v, size, es[..n]) && es[n].offset == es[n - 1].offset + es[n - 1].next
      && end <= es[n].offset < end + 8 && es[n].offset % 8 == 0
  }

  /** The finished buffer: it can be walked, NextEntryOffset is 0 in the last entry, and that entry ends
      within the room. */
  ghost predicate Linked(v: View, size: EntrySize, es: seq<Entry>, room: int) {
    es != [] ==>
      var last := es[|es| - 1]; Walks(v, size, es) && last.next == 0 && ContentEnd(v, size, last) <= room
  }

  /** Set NextEntryOffset to 0 in the entry at `last_entry_offset`, the last one. */
  function ClearLast(es: seq<Entry>): seq<Entry>
    requires es != []
  {
    es[|es| - 1 := es[|es| - 1].(next := 0)]
  }

  lemma NeedMeans(v: View, size: EntrySize, cost: Cost, name: string, bytes: nat, n: nat)
    requires cost == Needs(v, size) && bytes == size - 1 + 2 * v.units(name) && n == cost(name)
    ensures bytes <= n < bytes + 8 && n % 8 == 0
  {
  }

  lemma AlignedSum(a: nat, b: nat)
    requires a % 8 == 0 && b % 8 == 0
    ensures (a + b) % 8 == 0
  {
  }

  lemma WalksMore(v: View, size: EntrySize, init: seq<Entry>, e: Entry, es: seq<Entry>)
    requires es == init + [e] && Walks(v, size, init) && e.offset % 8 == 0
    requires init == [] ==> e.offset == 0
    requires init != [] ==>
               var last := init[|init| - 1];
               var end := ContentEnd(v, size, last);
               e.offset == last.offset + last.next && end <= e.offset < end + 8
    ensures Walks(v, size, es)
  {
    assert es[..|es| - 1] == init;
  }

  lemma {:induction false} ChainedWalks(v: View, size: EntrySize, cost: Cost, es: seq<Entry>, count: nat)
    requires cost == Needs(v, size) && Chained(cost, es, count)
    ensures Walks(v, size, es) && count % 8 == 0
    decreases |es|
  {
    if es == [] {
    } else {
      var n := |es| - 1;
      var init, e := es[..n], es[n];
      ChainedWalks(v, size, cost, init, e.offset);
      NeedMeans(v, size, cost, e.name, size - 1 + 2 * v.units(e.name), e.next);
      AlignedSum(e.offset, e.next);
      if n > 0 {
        var last := init[n - 1];
        NeedMeans(v, size, cost, last.name, size - 1 + 2 * v.units(last.name), last.next);
      }
      assert es == init + [e];
      WalksMore(v, size, init, e, es);
    }
  }

  lemma ChainedLinks(v: View, size: EntrySize, cost: Cost, es: seq<Entry>, count: nat, room: int)
    requires cost == Needs(v, size) && es != [] && Chained(cost, es, count) && count <= room
    ensures Linked(v, size, ClearLast(es), room) && Names(ClearLast(es)) == Names(es)
  {
    assert ClearLast(es)[..|es| - 1] == es[..|es| - 1];
    ChainedWalks(v, size, cost, es, count);
  }

  /** The response under construction: `cifsd_dir_info` and the entries written so far. */
  datatype DirInfo = DirInfo(outBufLen: int, dataCount: nat, lastEntryOffset: nat, entries: seq<Entry>)

  ghost predicate InfoOk(cost: Cost, d: DirInfo, space: int) {
    && Chained(cost, d.entries, d.dataCount)
    && (d.outBufLen == -1 || d.outBufLen == space - d.dataCount)
    && (d.entries != [] ==> d.lastEntryOffset == d.entries[|d.entries| - 1].offset && d.dataCount <= space)
  }

  /** Size of the fixed part of an entry, which counts one byte of the name. */
  type EntrySize = n: nat | n > 1 witness 2

  type Pos = n: nat | n > 0 witness 1

  /** The bytes the entry of a name takes. */
  type Cost = string -> Pos

  function Need(v: View, size: EntrySize, name: string): Pos {
    Align8(size - 1 + 2 * v.units(name))
  }

  function Needs(v: View, size: EntrySize): Cost {
    (name: string) => Need(v, size, name)
  }

  /** smb2_populate_readdir_entry: write the entry if it fits, else mark the buffer as full. */
  method Populate(d: DirInfo, v: View, name: string, size: EntrySize, ghost space: int, ghost cost: Cost)
    returns (r: DirInfo)
    requires InfoOk(cost, d, space) && cost == Needs(v, size)
    ensures InfoOk(cost, r, space)
    ensures if cost(name) <= d.outBufLen then
              && r.entries == d.entries + [Entry(name, d.dataCount, cost(name))]
              && r.outBufLen == d.outBufLen - cost(name) && Names(r.entries) == Names(d.entries) + [name]
            else r == d.(outBufLen := -1)
  {
    var next := Align8(size - 1 + 2 * v.units(name));
    if next > d.outBufLen {
      return d.(outBufLen := -1);
    }
    r := DirInfo(d.outBufLen - next, d.dataCount + next, d.dataCount, d.entries + [Entry(name, d.dataCount, next)]);
    assert r.entries[..|d.entries|] == d.entries;
  }

  /** The same, seen from the names written. */
  method PopulateName(d: DirInfo, v: View, name: string, size: EntrySize, ghost space: int, ghost cost: Cost)
    returns (r: DirInfo)
    requires InfoOk(cost, d, space) && cost == Needs(v, size)
    ensures InfoOk(cost, r, space)
    ensures if cost(name) <= d.outBufLen then
              Names(r.entries) == Names(d.entries) + [name] && r.outBufLen == d.outBufLen - cost(name)
            else r == d.(outBufLen := -1)
  {
    r := Populate(d, v, name, size, space, cost);
  }

  // ---- What a directory listing without pages, offsets and rewinds returns ----

  /** Which of `names` are written one after the other into `room` bytes: all up to the first that does
      not fit. */
  ghost function Fits(cost: Cost, room: int, names: seq<string>): (r: seq<string>)
    ensures |r| <= |names|
  {
    if names == [] || cost(names[0]) > room then []
    else [names[0]] + Fits(cost, room - cost(names[0]), names[1..])
  }

  /** The room left then; -1 if a name did not fit into room that was left. */
  ghost function RoomLeft(cost: Cost, room: int, names: seq<string>): int
  {
    if names == [] then room
    else if cost(names[0]) > room then -1
    else if cost(names[0]) == room then 0
    else RoomLeft(cost, room - cost(names[0]), names[1..])
  }

  /** The reserved entry `name`, if it matches and has not been sent. */
  ghost function Wanted(v: View, name: string, sent: bool): seq<string> {
    if !sent && Glob.Answers(v.fold, name, v.pattern, 0, 0) then [name] else []
  }

  /** Nothing had to be written, or room is left after it. */
  ghost predicate Went(cost: Cost, room: int, names: seq<string>)
  {
    names == [] || RoomLeft(cost, room, names) > 0
  }

  lemma NoneFits(cost: Cost, room: int, base: seq<string>)
    ensures base + Fits(cost, room, []) == base && RoomLeft(cost, room, []) == room && Went(cost, room, [])
  {
  }

  /** A reserved entry that has to be written. */
  method PopulateOne(v: View, size: EntrySize, d: DirInfo, ghost space: int, name: string, ghost cost: Cost)
    returns (r: DirInfo)
    requires InfoOk(cost, d, space) && cost == Needs(v, size)
    ensures InfoOk(cost, r, space)
    ensures Names(r.entries) == Names(d.entries) + Fits(cost, d.outBufLen, [name])
    ensures r.outBufLen == RoomLeft(cost, d.outBufLen, [name])
  {
    OneFits(cost, d.outBufLen, name, []);
    assert [name] + [] == [name];
    r := PopulateName(d, v, name, size, space, cost);
  }

  /** One of the two reserved entries. If it had to be written, it counts as sent, and the next one is
      looked at (`go`), iff room is left after it. */
  method PopulateDot(v: View, size: EntrySize, d: DirInfo, ghost space: int, name: string, sent: bool,
                     ghost cost: Cost)
    returns (r: DirInfo, nowSent: bool, go: bool)
    requires InfoOk(cost, d, space) && cost == Needs(v, size)
    ensures InfoOk(cost, r, space)
    ensures Names(r.entries) == Names(d.entries) + Fits(cost, d.outBufLen, Wanted(v, name, sent))
    ensures r.outBufLen == RoomLeft(cost, d.outBufLen, Wanted(v, name, sent))
    ensures go == nowSent == Went(cost, d.outBufLen, Wanted(v, name, sent))
  {
    NoneFits(cost, d.outBufLen, Names(d.entries));
    r, nowSent, go := d, sent, true;
    if !sent {
      var m := Glob.MatchPattern(v.fold, name, v.pattern);
      if m {
        r := PopulateOne(v, size, r, space, name, cost);
        go := r.outBufLen > 0;
      }
      nowSent := go;
    }
  }

  datatype Did = Skipped | Wrote | Full

  datatype Status = Success | NoMoreFiles | NoSuchFile

  /** What a QUERY_DIRECTORY request asks for: the room left for entries (already reduced by the fixed
      parts), the entry structure's size, and the single-entry flag. */
  datatype Request = Request(room: int, size: EntrySize, single: bool)

  datatype Response = Response(st: Status, entries: seq<Entry>)

  /** Where a listing stands: the listed names not yet returned, and which reserved entries were sent. */
  datatype Cursor = Cursor(left: seq<string>, dotSent: bool, dotdotSent: bool)

  ghost predicate Reserves(v: View, req: Request) {
    !req.single || v.pattern == "*"
  }

  /** The entries reserved at the head of a response. */
  ghost function Reserved(v: View, c: Cursor, req: Request): (r: seq<string>)
    ensures forall i :: 0 <= i < |r| ==> IsDot(r[i])
  {
    if Reserves(v, req) then Wanted(v, DOT, c.dotSent) + Wanted(v, DOTDOT, c.dotdotSent) else []
  }

  /** The reserved entries that fit, and the room left after them. */
  ghost function Dots(v: View, c: Cursor, req: Request): seq<string>
  {
    Fits(Needs(v, req.size), req.room, Reserved(v, c, req))
  }

  ghost function Room(v: View, c: Cursor, req: Request): int
  {
    RoomLeft(Needs(v, req.size), req.room, Reserved(v, c, req))
  }

  /** The names a request may return: only the first, if it asks for a single entry. */
  ghost function Asked(single: bool, names: seq<string>): (r: seq<string>)
    ensures |r| <= |names|
  {
    if single && names != [] then names[..1] else names
  }

  /** The room left after the listed names that fit; none is tried without room. */
  ghost function EndRoom(cost: Cost, single: bool, room: int, names: seq<string>): int
  {
    if room <= 0 then room else RoomLeft(cost, room, Asked(single, names))
  }

  /** The listed names a request returns. */
  ghost function Batch(v: View, c: Cursor, req: Request): (r: seq<string>)
    ensures |r| <= |c.left|
  {
    Fits(Needs(v, req.size), Room(v, c, req), Asked(req.single, c.left))
  }

  function EndStatus(single: bool, pattern: string): Status {
    if single && pattern != "*" then NoSuchFile else NoMoreFiles
  }

  ghost function ReplyStatus(v: View, c: Cursor, req: Request): Status
  {
    var written := Dots(v, c, req) + Batch(v, c, req);
    var after := EndRoom(Needs(v, req.size), req.single, Room(v, c, req), c.left);
    if written != [] || after < 0 then Success else EndStatus(req.single, v.pattern)
  }

  /** Which reserved entries count as sent once they have been tried. */
  ghost function DotsTried(v: View, c: Cursor, req: Request): Cursor
  {
    var first, second := Wanted(v, DOT, c.dotSent), Wanted(v, DOTDOT, c.dotdotSent);
    if !Reserves(v, req) then c
    else if !Went(Needs(v, req.size), req.room, first) then c.(dotSent := false)
    else c.(dotSent := true,
            dotdotSent := Went(Needs(v, req.size), RoomLeft(Needs(v, req.size), req.room, first), second))
  }

  /** Where the listing stands after a request; a listing that ended sends the reserved entries again. */
  ghost function Advance(v: View, c: Cursor, req: Request): Cursor
  {
    var left := c.left[|Batch(v, c, req)|..];
    if ReplyStatus(v, c, req) == NoMoreFiles && !req.single then Cursor(left, false, false)
    else DotsTried(v, c, req).(left := left)
  }

  lemma OneFits(cost: Cost, room: int, name: string, more: seq<string>)
    ensures var need := cost(name);
            && Fits(cost, room, [name] + more) ==
                 (if need > room then [] else [name] + Fits(cost, room - need, more))
            && RoomLeft(cost, room, [name] + more) ==
                 (if need > room then -1 else if need == room then 0 else RoomLeft(cost, room - need, more))
  {
    assert ([name] + more)[1..] == more;
  }

  lemma NoRoom(cost: Cost, room: int, names: seq<string>)
    requires room <= 0
    ensures Fits(cost, room, names) == []
  {
  }

  /** At most one name, tried alone. */
  lemma TriedOne(cost: Cost, room: int, name: string, names: seq<string>)
    requires names == [] || names == [name]
    ensures names == [] ==> Fits(cost, room, names) == [] && RoomLeft(cost, room, names) == room
    ensures names != [] ==> Fits(cost, room, names) == if cost(name) <= room then [name] else []
    ensures names != [] ==> RoomLeft(cost, room, names) == if cost(name) <= room then room - cost(name) else -1
  {
    assert names != [] ==> names[1..] == [];
  }

  lemma AfterOne(cost: Cost, room: int, name: string, second: seq<string>, all: seq<string>)
    requires all == [name] + second
    ensures if cost(name) < room then
              && Fits(cost, room, all) == [name] + Fits(cost, room - cost(name), second)
              && RoomLeft(cost, room, all) == RoomLeft(cost, room - cost(name), second)
            else
              && Fits(cost, room, all) == (if cost(name) == room then [name] else [])
              && RoomLeft(cost, room, all) == if cost(name) == room then 0 else -1
  {
    OneFits(cost, room, name, second);
    if cost(name) == room {
      NoRoom(cost, 0, second);
    }
  }

  /** Writing `second` after `first`, when that is at most one name. */
  lemma FitsAfter(cost: Cost, room: int, first: seq<string>, second: seq<string>)
    requires |first| <= 1
    ensures var left := RoomLeft(cost, room, first);
            if Went(cost, room, first) then
              && Fits(cost, room, first + second) == Fits(cost, room, first) + Fits(cost, left, second)
              && RoomLeft(cost, room, first + second) == RoomLeft(cost, left, second)
            else
              && Fits(cost, room, first + second) == Fits(cost, room, first)
              && RoomLeft(cost, room, first + second) == left
  {
    if first == [] {
      assert first + second == second && [] + Fits(cost, room, second) == Fits(cost, room, second);
    } else {
      assert first == [first[0]];
      TriedOne(cost, room, first[0], first);
      AfterOne(cost, room, first[0], second, first + second);
    }
  }

  /** What a turn of the loop of smb2_query_dir does with the name it fetched. */
  method Consider(v: View, req: Request, d: DirInfo, name: string, ghost cost: Cost) returns (r: DirInfo, did: Did)
    requires InfoOk(cost, d, req.room) && cost == Needs(v, req.size)
    ensures InfoOk(cost, r, req.room) && (did.Skipped? <==> !Listed(v, name))
    ensures did.Skipped? ==> r == d
    ensures did.Wrote? ==> Names(r.entries) == Names(d.entries) + [name]
    ensures did.Wrote? ==> r.outBufLen == d.outBufLen - cost(name) >= 0
    ensures did.Full? ==> r == d.(outBufLen := -1) && cost(name) > d.outBufLen
  {
    r := d;
    if !v.readable(name) || IsDot(name) || v.veto(name) {
      return r, Skipped;
    }
    var m := Glob.MatchPattern(v.fold, name, v.pattern);
    if !m {
      return r, Skipped;
    }
    r := PopulateName(d, v, name, req.size, req.room, cost);
    return r, if r.outBufLen < 0 then Full else Wrote;
  }

  ghost predicate ShortNames(names: seq<string>) {
    forall i :: 0 <= i < |names| ==> |names[i]| <= 255
  }

  /** An open directory: the cached page, the byte offset of the next record in it, the names the
      kernel has not handed out yet, and which dot entries have been sent. */
  class DirFile {
    var page: seq<string>
    var used: nat
    var direntOffset: nat
    var hasPage: bool
    var rest: seq<string>
    var dotSent: bool
    var dotdotSent: bool
    ghost var next: nat

    /** The offset is where record number `next` of the page starts. */
    ghost predicate Valid()
      reads `page, `used, `direntOffset, `hasPage, `rest, `next
    {
      && ShortNames(rest)
      && next <= |page| && direntOffset == Bytes(page[..next])
      && (if hasPage then used == Bytes(page) else page == [])
    }

    /** Names not yet looked at: the rest of the page, then the rest of the directory. */
    ghost function Pending(): (names: seq<string>)
      reads `page, `used, `direntOffset, `hasPage, `rest, `next
      requires Valid()
    {
      page[next..] + rest
    }

    constructor (dir: seq<string>)
      requires ShortNames(dir)
      ensures Valid() && Pending() == dir
    {
      page, used, direntOffset, hasPage, rest, dotSent, dotdotSent := [], 0, 0, false, dir, false, false;
      next := 0;
    }

    /** cifsd_vfs_readdir into the page: the file system hands out any number of records that fit. */
    method Refill()
      requires Valid() && hasPage && next == |page|
      modifies this`page, this`used, this`rest, this`direntOffset, this`next
      ensures Valid() && next == 0 && page + rest == old(rest)
      ensures used == 0 <==> old(rest) == []
      ensures used <= PAGE_SIZE
    {
      direntOffset, next := 0, 0;
      if rest == [] {
        page, used := [], 0;
      } else {
        assert Bytes(rest[..1]) <= PAGE_SIZE by { assert rest[..1][1..] == []; }
        var n: int :| 0 < n <= |rest| && Bytes(rest[..n]) <= PAGE_SIZE;
        page, rest := rest[..n], rest[n..];
        used := Bytes(page);
      }
    }

    /** Step over the record at the offset; `reclen` is what the rewind takes back. */
    method TakeRecord() returns (name: string, reclen: nat)
      requires Valid() && hasPage && next < |page|
      modifies this`direntOffset, this`next
      ensures Valid() && next == old(next) + 1 && name == page[next - 1] && reclen == RecLen(name)
      ensures old(Pending()) == [name] + Pending()
    {
      RecordStarts(page, next);
      ghost var todo := page[next + 1..];
      assert page[next..] == [page[next]] + todo && page[next..] + rest == [page[next]] + (todo + rest);
      name := page[RecordAt(page, direntOffset)];
      reclen := Align8(24 + |name|);
      direntOffset := direntOffset + reclen;
      next := next + 1;
    }

    /** Fetch the next record, refilling a used-up page; at the end of the directory free the page. */
    method NextRecord() returns (name: string, reclen: nat, ended: bool)
      requires Valid() && hasPage
      modifies `page, `used, `rest, `direntOffset, `next, `hasPage
      ensures Valid()
      ensures ended <==> old(Pending()) == []
      ensures ended ==> Pending() == [] && !hasPage
      ensures !ended ==> hasPage && old(Pending()) == [name] + Pending() && reclen == RecLen(name)
      ensures !ended ==> next > 0 && page[next - 1] == name && |Pending()| < |old(Pending())|
    {
      RecordStarts(page, next);
      ghost var todo := Pending();
      if direntOffset >= used {
        assert todo == rest;
        Refill();
        assert Pending() == page + rest;
        if used == 0 {
          hasPage := false;
          page := [];
          return "", 0, true;
        }
      }
      assert Pending() == todo;
      name, reclen := TakeRecord();
      ended := false;
    }

    /** The did-not-fit rewind. */
    method Rewind(reclen: nat, ghost todo: seq<string>)
      requires Valid() && hasPage && next > 0 && reclen == RecLen(page[next - 1])
      requires todo == [page[next - 1]] + Pending()
      modifies `direntOffset, `next
      ensures Valid() && Pending() == todo
    {
      RecordStarts(page, next - 1);
      direntOffset := direntOffset - reclen;
      next := next - 1;
    }

    /** Where the listing stands. */
    ghost function At(v: View): (c: Cursor)
      reads this
      requires Valid()
    {
      Cursor(Select(v, Pending()), dotSent, dotdotSent)
    }

    /** cifsd_populate_dot_dotdot_entries: the reserved entries that match and were not sent, as far as
        there is room. */
    method PopulateDots(v: View, size: EntrySize, d: DirInfo, ghost space: int, ghost cost: Cost) returns (r: DirInfo)
      requires InfoOk(cost, d, space) && cost == Needs(v, size) && d.entries == []
      modifies this`dotSent, this`dotdotSent
      ensures InfoOk(cost, r, space)
      ensures var first, second := Wanted(v, DOT, old(dotSent)), Wanted(v, DOTDOT, old(dotdotSent));
              var went := Went(cost, d.outBufLen, first);
              && Names(r.entries) == Fits(cost, d.outBufLen, first + second)
              && r.outBufLen == RoomLeft(cost, d.outBufLen, first + second)
              && dotSent == went
              && dotdotSent == if went then Went(cost, RoomLeft(cost, d.outBufLen, first), second)
                               else old(dotdotSent)
    {
      var go: bool;
      FitsAfter(cost, d.outBufLen, Wanted(v, DOT, dotSent), Wanted(v, DOTDOT, dotdotSent));
      r, dotSent, go := PopulateDot(v, size, d, space, DOT, dotSent, cost);
      if go {
        r, dotdotSent, go := PopulateDot(v, size, r, space, DOTDOT, dotdotSent, cost);
      }
    }

    /** What a turn does with the record it fetched, the last one before the offset; `todo` was pending
        before, and `left` of it to be listed. */
    method Treat(v: View, req: Request, d: DirInfo, name: string, reclen: nat, ghost cost: Cost,
                 ghost todo: seq<string>, ghost left: seq<string>)
      returns (r: DirInfo, stop: bool, ghost wrote: seq<string>)
      requires Valid() && hasPage && InfoOk(cost, d, req.room) && cost == Needs(v, req.size) && d.outBufLen > 0
      requires next > 0 && page[next - 1] == name && reclen == RecLen(name) && todo == [name] + Pending()
      requires left == Select(v, todo) == (if Listed(v, name) then [name] else []) + Select(v, Pending())
      modifies `direntOffset, `next
      ensures Valid() && InfoOk(cost, r, req.room) && Names(r.entries) == Names(d.entries) + wrote
      ensures Moves(cost, req.single, d.outBufLen, left, wrote, stop, r.outBufLen, Select(v, Pending()))
      ensures !stop ==> Pending() == old(Pending())
    {
      PlusNone(Names(d.entries));
      var did: Did;
      r, did := Consider(v, req, d, name, cost);
      match did {
        case Skipped =>
          MovesPast(cost, req.single, d.outBufLen, left, Select(v, Pending()));
          return r, false, [];
        case Wrote =>
          MovesOn(cost, req.single, d.outBufLen, left, name, r.outBufLen, Select(v, Pending()));
          return r, req.single, [name];
        case Full =>
          MovesFull(cost, req.single, d.outBufLen, left, name, Select(v, Pending()));
          Rewind(reclen, todo);
          return r, true, [];
      }
    }

    /** One turn of the loop of smb2_query_dir, with the rewind when the entry did not fit; `stop` leaves the
        loop. */
    method Step(v: View, req: Request, d: DirInfo, ghost cost: Cost)
      returns (r: DirInfo, stop: bool, ghost wrote: seq<string>)
      requires Valid() && hasPage && InfoOk(cost, d, req.room) && cost == Needs(v, req.size) && d.outBufLen > 0
      modifies `page, `used, `rest, `direntOffset, `next, `hasPage
      ensures Valid() && InfoOk(cost, r, req.room) && Names(r.entries) == Names(d.entries) + wrote
      ensures Moves(cost, req.single, d.outBufLen, Select(v, old(Pending())), wrote, stop, r.outBufLen,
                    Select(v, Pending()))
      ensures !stop ==> hasPage && |Pending()| < |old(Pending())|
    {
      ghost var todo, left := Pending(), Select(v, Pending());
      var name, reclen, ended := NextRecord();
      if ended {
        PlusNone(Names(d.entries));
        MovesEnd(cost, req.single, d.outBufLen, left, Select(v, Pending()));
        return d, true, [];
      }
      SelectOne(v, name, Pending());
      r, stop, wrote := Treat(v, req, d, name, reclen, cost, todo, left);
    }

    /** The loop of smb2_query_dir and the rewind after it. */
    method Scan(v: View, req: Request, d: DirInfo, ghost cost: Cost) returns (r: DirInfo, ghost got: seq<string>)
      requires Valid() && hasPage && InfoOk(cost, d, req.room) && cost == Needs(v, req.size)
      modifies `page, `used, `rest, `direntOffset, `next, `hasPage
      ensures Valid() && InfoOk(cost, r, req.room) && Names(r.entries) == Names(d.entries) + got
      ensures got + Select(v, Pending()) == Select(v, old(Pending()))
      ensures got == Fits(cost, d.outBufLen, Asked(req.single, Select(v, old(Pending()))))
      ensures r.outBufLen == EndRoom(cost, req.single, d.outBufLen, Select(v, old(Pending())))
    {
      r, got := d, [];
      ghost var base, left := Names(d.entries), Select(v, Pending());
      var stop := false;
      MovesNot(cost, req.single, d.outBufLen, left);
      while !stop && r.outBufLen > 0
        invariant Valid() && InfoOk(cost, r, req.room) && Names(r.entries) == base + got && (!stop ==> hasPage)
        invariant Moves(cost, req.single, d.outBufLen, left, got, stop, r.outBufLen, Select(v, Pending()))
        decreases !stop, |Pending()|
      {
        ghost var room, mid, wrote := r.outBufLen, Select(v, Pending()), [];
        r, stop, wrote := Step(v, req, r, cost);
        MovesMore(cost, req.single, d.outBufLen, left, got, room, mid, wrote, stop, r.outBufLen, Select(v, Pending()));
        Regroup(base, got, wrote, got + wrote);
        got := got + wrote;
      }
      if !stop {
        NoRoom(cost, r.outBufLen, Asked(req.single, Select(v, Pending())));
      }
    }

    /** The start of smb2_query_dir: the page, and the entries reserved at the head of the buffer. */
    method Prepare(v: View, req: Request) returns (d: DirInfo)
      requires Valid()
      modifies this
      ensures Valid() && hasPage && Pending() == old(Pending()) && InfoOk(Needs(v, req.size), d, req.room)
      ensures At(v) == DotsTried(v, old(At(v)), req)
      ensures Names(d.entries) == Dots(v, old(At(v)), req) && d.outBufLen == Room(v, old(At(v)), req)
    {
      d := DirInfo(req.room, 0, 0, []);
      if !hasPage {
        hasPage, used, direntOffset, next := true, 0, 0, 0;
      }
      if !req.single || v.pattern == "*" {
        d := PopulateDots(v, req.size, d, req.room, Needs(v, req.size));
      }
    }

    /** smb2_query_dir up to its status, the page and the reserved entries being prepared. */
    method Reply(v: View, req: Request, d: DirInfo, ghost c: Cursor) returns (rsp: Response)
      requires Valid() && hasPage && InfoOk(Needs(v, req.size), d, req.room) && Select(v, Pending()) == c.left
      requires Names(d.entries) == Dots(v, c, req) && d.outBufLen == Room(v, c, req)
      modifies `page, `used, `rest, `direntOffset, `next, `hasPage
      ensures Valid() && Answers(v, c, req, rsp)
      ensures Select(v, Pending()) == Advance(v, c, req).left
    {
      var r, got := Scan(v, req, d, Needs(v, req.size));
      rsp := Finish(r, v, req);
      Concludes(v, c, req, rsp, got, r.outBufLen, Select(v, Pending()));
    }

    /** A listing that ended sends the reserved entries again. */
    method ResetDots(end: bool)
      requires Valid()
      modifies `dotSent, `dotdotSent
      ensures Valid() && dotSent == (!end && old(dotSent)) && dotdotSent == (!end && old(dotdotSent))
      ensures Pending() == old(Pending())
    {
      if end {
        dotSent, dotdotSent := false, false;
      }
    }

    /** smb2_query_dir, the page and the reserved entries being prepared. */
    method Conclude(v: View, req: Request, d: DirInfo, ghost c: Cursor) returns (rsp: Response, ghost left: seq<string>)
      requires Valid() && hasPage && InfoOk(Needs(v, req.size), d, req.room) && Select(v, Pending()) == c.left
      requires Names(d.entries) == Dots(v, c, req) && d.outBufLen == Room(v, c, req)
      modifies this
      ensures Valid() && Answers(v, c, req, rsp) && left == Advance(v, c, req).left && Select(v, Pending()) == left
      ensures var end := rsp.st == NoMoreFiles && !req.single;
              dotSent == (!end && old(dotSent)) && dotdotSent == (!end && old(dotdotSent))
    {
      rsp := Reply(v, req, d, c);
      left := Select(v, Pending());
      ResetDots(rsp.st == NoMoreFiles && !req.single);
    }

    /** smb2_query_dir without the reopen, restart and index flags: whatever the page holds and the file
        system reads, the response and where the listing then stands are those of the listing without
        pages. */
    method QueryDir(v: View, req: Request) returns (rsp: Response)
      requires Valid()
      modifies this
      ensures Valid() && At(v) == Advance(v, old(At(v)), req) && Answers(v, old(At(v)), req, rsp)
    {
      ghost var c := At(v);
      var d := Prepare(v, req);
      ghost var tried := At(v);
      ghost var left;
      rsp, left := Conclude(v, req, d, c);
      ghost var now := AdvanceIs(v, c, req, tried, left, rsp.st, rsp.st == NoMoreFiles && !req.single);
      assert At(v) == Cursor(left, dotSent, dotdotSent);
    }
  }

  lemma AdvanceIs(v: View, c: Cursor, req: Request, tried: Cursor, left: seq<string>, st: Status, end: bool)
    returns (now: Cursor)
    requires left == Advance(v, c, req).left && st == ReplyStatus(v, c, req) && tried == DotsTried(v, c, req)
    requires end == (st == NoMoreFiles && !req.single)
    ensures now == Advance(v, c, req) && now == Cursor(left, !end && tried.dotSent, !end && tried.dotdotSent)
  {
    now := Advance(v, c, req);
  }

  /** The end of smb2_query_dir: the status, and the zero that ends the chain of entries. */
  method Finish(d: DirInfo, v: View, req: Request) returns (rsp: Response)
    requires InfoOk(Needs(v, req.size), d, req.room)
    ensures Names(rsp.entries) == Names(d.entries) && Linked(v, req.size, rsp.entries, req.room)
    ensures rsp.st == if rsp.entries == [] && d.outBufLen >= 0 then EndStatus(req.single, v.pattern) else Success
  {
    var st := Success;
    if d.dataCount == 0 && d.outBufLen >= 0 {
      if req.single {
        st := if v.pattern == "*" then NoMoreFiles else NoSuchFile;
      } else {
        st := NoMoreFiles;
      }
      return Response(st, d.entries);
    }
    if d.entries == [] {
      return Response(st, d.entries);
    }
    ChainedLinks(v, req.size, Needs(v, req.size), d.entries, d.dataCount, req.room);
    return Response(st, ClearLast(d.entries));
  }

  lemma PlusNone(a: seq<string>)
    ensures a + [] == a
  {
  }

  lemma Regroup(a: seq<string>, b: seq<string>, c: seq<string>, d: seq<string>)
    requires b + c == d
    ensures (a + b) + c == a + d
  {
  }

  // ---- The loop on names ----

  /** Part of the way from `room` and the listed names `left`: `wrote` has been written, `now` is left of
      the names and `after` of the room; nothing more will be written after a `stop`. */
  ghost predicate Moves(cost: Cost, single: bool, room: int, left: seq<string>, wrote: seq<string>, stop: bool,
                        after: int, now: seq<string>)
  {
    && wrote + now == left
    && (single && !stop ==> wrote == [])
    && Fits(cost, room, Asked(single, left)) ==
         wrote + (if stop then [] else Fits(cost, after, Asked(single, now)))
    && EndRoom(cost, single, room, left) == if stop then after else EndRoom(cost, single, after, now)
  }

  lemma MovesNot(cost: Cost, single: bool, room: int, left: seq<string>)
    ensures Moves(cost, single, room, left, [], false, room, left)
  {
  }

  lemma MovesEnd(cost: Cost, single: bool, room: int, left: seq<string>, now: seq<string>)
    requires left == now == []
    ensures Moves(cost, single, room, left, [], true, room, now)
  {
  }

  lemma MovesPast(cost: Cost, single: bool, room: int, left: seq<string>, now: seq<string>)
    requires left == [] + now
    ensures Moves(cost, single, room, left, [], false, room, now)
  {
    assert left == now;
  }

  lemma MovesOn(cost: Cost, single: bool, room: int, left: seq<string>, name: string, after: int, now: seq<string>)
    requires room > 0 && left == [name] + now && after == room - cost(name) >= 0
    ensures Moves(cost, single, room, left, [name], single, after, now)
  {
    var more := if single then [] else now;
    assert Asked(single, left) == [name] + more;
    OneFits(cost, room, name, more);
  }

  /** A name that does not fit stops the loop, and is left. */
  lemma MovesFull(cost: Cost, single: bool, room: int, left: seq<string>, name: string, now: seq<string>)
    requires room > 0 && left == [name] + now && cost(name) > room
    ensures Moves(cost, single, room, left, [], true, -1, left)
  {
    var more := if single then [] else now;
    assert Asked(single, left) == [name] + more && [] + left == left;
    OneFits(cost, room, name, more);
  }

  lemma MovesMore(cost: Cost, single: bool, room: int, left: seq<string>, got: seq<string>, mid: int,
                  names: seq<string>, wrote: seq<string>, stop: bool, after: int, now: seq<string>)
    requires Moves(cost, single, room, left, got, false, mid, names)
    requires Moves(cost, single, mid, names, wrote, stop, after, now)
    ensures Moves(cost, single, room, left, got + wrote, stop, after, now)
  {
    Regroup(got, wrote, now, names);
    var rest := if stop then [] else Fits(cost, after, Asked(single, now));
    Regroup(got, wrote, rest, wrote + rest);
  }

  ghost predicate Answers(v: View, c: Cursor, req: Request, rsp: Response)
  {
    && rsp.st == ReplyStatus(v, c, req)
    && Names(rsp.entries) == Dots(v, c, req) + Batch(v, c, req)
    && Linked(v, req.size, rsp.entries, req.room)
  }

  lemma Concludes(v: View, c: Cursor, req: Request, rsp: Response, got: seq<string>, after: int, now: seq<string>)
    requires Names(rsp.entries) == Dots(v, c, req) + got && got == Batch(v, c, req) && got + now == c.left
    requires Linked(v, req.size, rsp.entries, req.room)
    requires after == EndRoom(Needs(v, req.size), req.single, Room(v, c, req), c.left)
    requires rsp.st == if rsp.entries == [] && after >= 0 then EndStatus(req.single, v.pattern) else Success
    ensures Answers(v, c, req, rsp)
    ensures Advance(v, c, req).left == now
  {
    assert c.left[|got|..] == now;
  }

  // ---- Sessions ----

  /** Where a listing stands after a sequence of requests. */
  ghost function After(v: View, c: Cursor, reqs: seq<Request>): Cursor
  {
    if reqs == [] then c else Advance(v, After(v, c, reqs[..|reqs| - 1]), reqs[|reqs| - 1])
  }

  /** The names of a list that are not reserved. */
  ghost function Proper(names: seq<string>): seq<string> {
    if names == [] then [] else (if IsDot(names[0]) then [] else [names[0]]) + Proper(names[1..])
  }

  /** All names but the reserved ones in a sequence of responses. */
  ghost function Returned(rsps: seq<Response>): seq<string> {
    if rsps == [] then [] else Returned(rsps[..|rsps| - 1]) + Proper(Names(rsps[|rsps| - 1].entries))
  }

  lemma {:induction false} FitsPrefix(cost: Cost, room: int, names: seq<string>)
    ensures Fits(cost, room, names) <= names
    decreases |names|
  {
    if names == [] {
    } else {
      FitsPrefix(cost, room - cost(names[0]), names[1..]);
    }
  }

  ghost predicate NoDots(names: seq<string>) {
    forall i :: 0 <= i < |names| ==> !IsDot(names[i])
  }

  lemma {:induction false} AllProper(names: seq<string>)
    requires NoDots(names)
    ensures Proper(names) == names
    decreases |names|
  {
    if names == [] {
    } else {
      AllProper(names[1..]);
      assert names == [names[0]] + names[1..];
    }
  }

  lemma ProperOne(name: string, names: seq<string>)
    ensures Proper([name] + names) == (if IsDot(name) then [] else [name]) + Proper(names)
  {
    assert ([name] + names)[1..] == names;
  }

  lemma {:induction false} ProperAfterDots(dots: seq<string>, names: seq<string>)
    requires NoDots(names) && forall i :: 0 <= i < |dots| ==> IsDot(dots[i])
    ensures Proper(dots + names) == names
    decreases |dots|
  {
    if dots == [] {
      assert dots + names == names;
      AllProper(names);
    } else {
      var more := dots[1..] + names;
      assert dots + names == [dots[0]] + more;
      ProperAfterDots(dots[1..], names);
      ProperOne(dots[0], more);
    }
  }

  lemma {:induction false} SelectHasNoDots(v: View, names: seq<string>)
    ensures NoDots(Select(v, names))
    decreases |names|
  {
    if names == [] {
    } else {
      SelectHasNoDots(v, names[1..]);
    }
  }

  lemma DotsAreDots(v: View, c: Cursor, req: Request, dots: seq<string>)
    requires dots == Dots(v, c, req)
    ensures forall i :: 0 <= i < |dots| ==> IsDot(dots[i])
  {
    FitsPrefix(Needs(v, req.size), req.room, Reserved(v, c, req));
  }

  lemma BatchLeads(v: View, c: Cursor, req: Request, batch: seq<string>)
    requires batch == Batch(v, c, req)
    ensures batch <= c.left && batch + c.left[|batch|..] == c.left
  {
    FitsPrefix(Needs(v, req.size), Room(v, c, req), Asked(req.single, c.left));
  }

  /** One response takes its names, the reserved ones aside, from the front of the names left. */
  lemma Conserves(v: View, c: Cursor, req: Request, rsp: Response)
    requires NoDots(c.left) && Answers(v, c, req, rsp)
    ensures Proper(Names(rsp.entries)) == Batch(v, c, req)
    ensures Proper(Names(rsp.entries)) + Advance(v, c, req).left == c.left && NoDots(Advance(v, c, req).left)
  {
    var dots, batch := Dots(v, c, req), Batch(v, c, req);
    DotsAreDots(v, c, req, dots);
    BatchLeads(v, c, req, batch);
    ProperAfterDots(dots, batch);
  }

  /** Each response answers its request where the listing then stood. */
  ghost predicate Serves(v: View, c: Cursor, reqs: seq<Request>, rsps: seq<Response>)
    decreases |reqs|
  {
    if reqs == [] || rsps == [] then reqs == [] && rsps == []
    else
      var n, m := |reqs| - 1, |rsps| - 1;
      Serves(v, c, reqs[..n], rsps[..m]) && Answers(v, After(v, c, reqs[..n]), reqs[n], rsps[m])
  }

  lemma ServesMore(v: View, c: Cursor, reqs: seq<Request>, rsps: seq<Response>, req: Request, rsp: Response)
    requires Serves(v, c, reqs, rsps) && Answers(v, After(v, c, reqs), req, rsp)
    ensures Serves(v, c, reqs + [req], rsps + [rsp])
    ensures After(v, c, reqs + [req]) == Advance(v, After(v, c, reqs), req)
  {
    assert (reqs + [req])[..|reqs|] == reqs && (rsps + [rsp])[..|rsps|] == rsps;
  }

  /** The names returned, the reserved ones aside, followed by those left are the names there were. */
  lemma {:induction false} ServesConserves(v: View, c: Cursor, reqs: seq<Request>, rsps: seq<Response>)
    requires Serves(v, c, reqs, rsps) && NoDots(c.left)
    ensures Returned(rsps) + After(v, c, reqs).left == c.left && NoDots(After(v, c, reqs).left)
    decreases |reqs|
  {
    if reqs == [] {
      assert [] + c.left == c.left;
    } else {
      var n, m := |reqs| - 1, |rsps| - 1;
      var now := After(v, c, reqs[..n]);
      ServesConserves(v, c, reqs[..n], rsps[..m]);
      Conserves(v, now, reqs[n], rsps[m]);
      Regroup(Returned(rsps[..m]), Proper(Names(rsps[m].entries)), Advance(v, now, reqs[n]).left, now.left);
    }
  }

  lemma TakeMore(reqs: seq<Request>, k: nat)
    requires k < |reqs|
    ensures reqs[..k] + [reqs[k]] == reqs[..k + 1]
  {
  }

  /** Paging refines the plain filter: over any sequence of calls, whatever their buffer sizes, their
      single-entry flags and the batches the file system reads, each response is that of the listing
      without pages, and the names returned, the reserved ones aside, followed by those still to be listed
      are the listed names of the directory in order: none lost and none repeated. */
  method Session(dir: DirFile, v: View, reqs: seq<Request>) returns (rsps: seq<Response>)
    requires dir.Valid()
    modifies dir
    ensures dir.Valid() && |rsps| == |reqs|
    ensures Serves(v, old(dir.At(v)), reqs, rsps) && dir.At(v) == After(v, old(dir.At(v)), reqs)
    ensures Returned(rsps) + Select(v, dir.Pending()) == Select(v, old(dir.Pending()))
  {
    rsps := [];
    ghost var c := dir.At(v);
    SelectHasNoDots(v, dir.Pending());
    for k := 0 to |reqs|
      invariant dir.Valid() && dir.At(v) == After(v, c, reqs[..k]) && Serves(v, c, reqs[..k], rsps)
    {
      TakeMore(reqs, k);
      var rsp := dir.QueryDir(v, reqs[k]);
      ServesMore(v, c, reqs[..k], rsps, reqs[k], rsp);
      rsps := rsps + [rsp];
    }
    assert reqs[..|reqs|] == reqs;
    ServesConserves(v, c, reqs, rsps);
    ServesLength(v, c, reqs, rsps);
  }

  // ---- What a client can rely on ----

  /** With room left after the reserved entries, a request returns a listed name iff the first one left
      fits. */
  lemma Progress(v: View, c: Cursor, req: Request)
    requires Room(v, c, req) > 0 && c.left != []
    ensures Batch(v, c, req) != [] <==> Needs(v, req.size)(c.left[0]) <= Room(v, c, req)
    ensures |Advance(v, c, req).left| < |c.left| <==> Needs(v, req.size)(c.left[0]) <= Room(v, c, req)
  {
  }

  /** Exactly when the end is reported: no reserved entry is due, and either none of the names is left, or
      the request leaves exactly no room for entries; then the end is reported too early. */
  lemma EndIsExact(v: View, c: Cursor, req: Request)
    ensures ReplyStatus(v, c, req) != Success <==>
              Reserved(v, c, req) == [] && (req.room == 0 || (req.room > 0 && c.left == []))
  {
  }

  /** Which end is reported: that no such file exists, to a request for a single entry with a pattern other
      than a star, and otherwise that there are no more. */
  lemma WhichEnd(v: View, c: Cursor, req: Request)
    requires ReplyStatus(v, c, req) != Success
    ensures ReplyStatus(v, c, req) == NoSuchFile <==> req.single && v.pattern != "*"
    ensures ReplyStatus(v, c, req) == NoMoreFiles <==> !req.single || v.pattern == "*"
  {
  }

  /** Which entries are reserved: each of the two that was not sent and that the pattern matches, the one dot
      first, unless a single entry is asked for with a pattern other than a star. */
  lemma ReservedExact(v: View, c: Cursor, req: Request)
    ensures var on := !req.single || v.pattern == "*";
            var first := on && !c.dotSent && Glob.Match(v.fold, ".", Glob.Effective(v.pattern));
            var second := on && !c.dotdotSent && Glob.Match(v.fold, "..", Glob.Effective(v.pattern));
            Reserved(v, c, req) == (if first then ["."] else []) + (if second then [".."] else [])
  {
    Glob.AnswerIsExact(v.fold, ".", v.pattern);
    Glob.AnswerIsExact(v.fold, "..", v.pattern);
  }

  /** Which reserved entries count as sent after a request: both are due again after a listing that ended, but
      not after one for a single entry; a request that reserves none changes nothing; otherwise those count
      that were not due, or were written with room to spare. */
  lemma SentExact(v: View, c: Cursor, req: Request)
    ensures var n, cost := Advance(v, c, req), Needs(v, req.size);
            var first, second := Wanted(v, DOT, c.dotSent) != [], Wanted(v, DOTDOT, c.dotdotSent) != [];
            var left := req.room - if first then cost(DOT) else 0;
            if ReplyStatus(v, c, req) != Success && !req.single then !n.dotSent && !n.dotdotSent
            else if req.single && v.pattern != "*" then n.dotSent == c.dotSent && n.dotdotSent == c.dotdotSent
            else
              && n.dotSent == (first ==> cost(DOT) < req.room)
              && n.dotdotSent == if n.dotSent then second ==> cost(DOTDOT) < left else c.dotdotSent
  {
    var first, second, cost := Wanted(v, DOT, c.dotSent), Wanted(v, DOTDOT, c.dotdotSent), Needs(v, req.size);
    TriedOne(cost, req.room, DOT, first);
    TriedOne(cost, RoomLeft(cost, req.room, first), DOTDOT, second);
  }

  /** The end reported too early: one name is left and the request has no room. */
  lemma EndTooEarly(v: View)
    ensures var c, req := Cursor(["a"], true, true), Request(0, 65, false);
            ReplyStatus(v, c, req) == NoMoreFiles && Advance(v, c, req).left == ["a"]
  {
    EndIsExact(v, Cursor(["a"], true, true), Request(0, 65, false));
  }

  /** Exactly when a reserved entry is written and yet not counted as sent: it fills the room to the last
      byte. A later request that reserves entries then writes it again. */
  lemma DotsRepeatExact(v: View, c: Cursor, req: Request, later: Request)
    requires Reserves(v, req) && Reserves(v, later)
    ensures var n, cost := Advance(v, c, req), Needs(v, req.size);
            var first, second := Wanted(v, DOT, c.dotSent) != [], Wanted(v, DOTDOT, c.dotdotSent) != [];
            var left := req.room - if first then cost(DOT) else 0;
            && (DOT in Dots(v, c, req) && !n.dotSent <==> first && cost(DOT) == req.room)
            && (DOTDOT in Dots(v, c, req) && !n.dotdotSent <==> second && cost(DOTDOT) == left)
            && (first && cost(DOT) == req.room ==> DOT in Reserved(v, n, later))
            && (second && cost(DOTDOT) == left ==> DOTDOT in Reserved(v, n, later))
  {
    var first, second, cost := Wanted(v, DOT, c.dotSent), Wanted(v, DOTDOT, c.dotdotSent), Needs(v, req.size);
    assert first + second == Reserved(v, c, req);
    FitsAfter(cost, req.room, first, second);
    TriedOne(cost, req.room, DOT, first);
    TriedOne(cost, RoomLeft(cost, req.room, first), DOTDOT, second);
    DotsTell(v, c, req);
  }

  /** A response with a reserved entry is no end. */
  lemma DotsTell(v: View, c: Cursor, req: Request)
    ensures Dots(v, c, req) != [] ==> ReplyStatus(v, c, req) == Success
    ensures Dots(v, c, req) == [] ==> forall name :: name !in Dots(v, c, req)
  {
  }

  lemma {:induction false} ServesLength(v: View, c: Cursor, reqs: seq<Request>, rsps: seq<Response>)
    requires Serves(v, c, reqs, rsps)
    ensures |rsps| == |reqs|
    decreases |reqs|
  {
    if reqs == [] {
    } else {
      ServesLength(v, c, reqs[..|reqs| - 1], rsps[..|rsps| - 1]);
    }
  }

  /** A client whose last request had room for entries and is told the end has been given every listed
      name by the responses before. */
  lemma EndMeansAll(v: View, c: Cursor, reqs: seq<Request>, rsps: seq<Response>, n: nat)
    requires Serves(v, c, reqs, rsps) && NoDots(c.left) && |reqs| == |rsps| == n + 1
    requires rsps[n].st != Success && reqs[n].room != 0
    ensures Returned(rsps[..n]) == c.left
  {
    ServesConserves(v, c, reqs[..n], rsps[..n]);
    EndIsExact(v, After(v, c, reqs[..n]), reqs[n]);
  }

  /** Room for the reserved entries and any of the names. */
  ghost predicate Roomy(v: View, names: seq<string>, req: Request) {
    forall name :: name in names ==>
      Needs(v, req.size)(DOT) + Needs(v, req.size)(DOTDOT) + Needs(v, req.size)(name) <= req.room
  }

  lemma RoomyRoom(v: View, c: Cursor, req: Request, need: nat)
    requires need > 0 && Needs(v, req.size)(DOT) + Needs(v, req.size)(DOTDOT) + need <= req.room
    ensures Room(v, c, req) >= need
  {
    var first, second := Wanted(v, DOT, c.dotSent), Wanted(v, DOTDOT, c.dotdotSent);
    FitsAfter(Needs(v, req.size), req.room, first, second);
  }

  /** As many requests with enough room as there are names return them all. */
  lemma {:induction false} EnoughCalls(v: View, c: Cursor, reqs: seq<Request>)
    requires forall i :: 0 <= i < |reqs| ==> Roomy(v, c.left, reqs[i])
    ensures var left := After(v, c, reqs).left;
            && (forall name :: name in left ==> name in c.left)
            && (|left| + |reqs| <= |c.left| || left == [])
    decreases |reqs|
  {
    if reqs == [] {
    } else {
      var n := |reqs| - 1;
      EnoughCalls(v, c, reqs[..n]);
      var now, req := After(v, c, reqs[..n]), reqs[n];
      if now.left != [] {
        assert now.left[0] in now.left && Roomy(v, c.left, req);
        RoomyRoom(v, now, req, Needs(v, req.size)(now.left[0]));
        Progress(v, now, req);
      }
    }
  }
}
