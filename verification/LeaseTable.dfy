/** The index of leases by client GUID and lease key (oplock.c). */
module LeaseTable {

  import opened Basics

  type Guid = seq<Byte>
  type Key = seq<Byte>

  /** An open with a lease: the GUID of its client, its lease key and the inode it is on. */
  datatype Entry = Entry(id: nat, guid: Guid, key: Key, inode: nat)

  /** struct lease_table: the leases of one client. */
  datatype Table = Table(guid: Guid, leases: seq<Entry>)

  ghost predicate In(ts: seq<Table>, e: Entry) {
    exists i :: 0 <= i < |ts| && e in ts[i].leases
  }

  ghost predicate DistinctGuids(ts: seq<Table>) {
    forall i, j :: 0 <= i < j < |ts| ==> ts[i].guid != ts[j].guid
  }

  ghost predicate OwnTable(ts: seq<Table>) {
    forall i, e :: 0 <= i < |ts| && e in ts[i].leases ==> e.guid == ts[i].guid
  }

  /** A client uses a lease key for one inode at a time. */
  ghost predicate OneInode(ts: seq<Table>) {
    forall e, f :: In(ts, e) && In(ts, f) && e.guid == f.guid && e.key == f.key ==> e.inode == f.inode
  }

  ghost predicate Inv(ts: seq<Table>) {
    DistinctGuids(ts) && OwnTable(ts) && OneInode(ts)
  }

  /** Some open of the client holds the key for another inode. */
  ghost predicate Clash(ts: seq<Table>, guid: Guid, key: Key, inode: nat) {
    exists e :: In(ts, e) && e.guid == guid && e.key == key && e.inode != inode
  }

  // ---- The effect of each operation ----

  /** The place of the client's table, or the number of tables if it has none. */
  function Find(ts: seq<Table>, guid: Guid): (r: nat)
    ensures r <= |ts| && (r < |ts| ==> ts[r].guid == guid)
    ensures forall j :: 0 <= j < r ==> ts[j].guid != guid
  {
    if ts == [] then 0 else if ts[0].guid == guid then 0 else 1 + Find(ts[1..], guid)
  }

  /** The entry goes to the head of its client's table, or into a new table at the head of the list. */
  ghost function Added(ts: seq<Table>, e: Entry): seq<Table> {
    var i := Find(ts, e.guid);
    if i < |ts| then ts[i := ts[i].(leases := [e] + ts[i].leases)] else [Table(e.guid, [e])] + ts
  }

  /** The leases without that of open `id`. */
  function LeasesWithout(es: seq<Entry>, id: nat): (r: seq<Entry>)
    ensures forall e :: e in r <==> e in es && e.id != id
  {
    if es == [] then [] else (if es[0].id == id then [] else [es[0]]) + LeasesWithout(es[1..], id)
  }

  ghost function Removed(ts: seq<Table>, id: nat): (r: seq<Table>)
    ensures |r| == |ts|
    ensures forall i :: 0 <= i < |ts| ==> r[i] == Table(ts[i].guid, LeasesWithout(ts[i].leases, id))
  {
    seq(|ts|, i requires 0 <= i < |ts| => Table(ts[i].guid, LeasesWithout(ts[i].leases, id)))
  }

  /** The tables without those of the client, or without any when no client is given. */
  ghost function Dropped(ts: seq<Table>, guid: Option<Guid>): (r: seq<Table>)
    ensures forall t :: t in r <==> t in ts && guid.Some? && t.guid != guid.value
  {
    if ts == [] then []
    else
      var init, t := ts[..|ts| - 1], ts[|ts| - 1];
      Dropped(init, guid) + if guid.Some? && t.guid != guid.value then [t] else []
  }

  // ---- Each operation keeps the index ----

  lemma AddedIn(ts: seq<Table>, e: Entry, f: Entry)
    ensures In(Added(ts, e), f) <==> In(ts, f) || f == e
  {
    var i, r := Find(ts, e.guid), Added(ts, e);
    if i < |ts| {
      assert forall j :: 0 <= j < |ts| && j != i ==> r[j] == ts[j];
      assert r[i].leases == [e] + ts[i].leases;
      if In(ts, f) {
        var j :| 0 <= j < |ts| && f in ts[j].leases;
        assert f in r[j].leases;
      }
    } else {
      assert r[0].leases == [e];
      assert forall j :: 0 <= j < |ts| ==> r[j + 1] == ts[j];
      if In(r, f) && f != e {
        var j :| 0 <= j < |r| && f in r[j].leases;
        assert f in ts[j - 1].leases;
      }
      if In(ts, f) {
        var j :| 0 <= j < |ts| && f in ts[j].leases;
        assert f in r[j + 1].leases;
      }
    }
  }

  /** Adding a lease keeps the index exactly when its key does not clash. */
  lemma AddedExact(ts: seq<Table>, e: Entry)
    requires Inv(ts)
    ensures Inv(Added(ts, e)) <==> !Clash(ts, e.guid, e.key, e.inode)
  {
    var r := Added(ts, e);
    forall f
      ensures In(r, f) <==> In(ts, f) || f == e
    {
      AddedIn(ts, e, f);
    }
    assert In(r, e);
    assert DistinctGuids(r) && OwnTable(r);
  }

  lemma RemovedKeeps(ts: seq<Table>, id: nat)
    requires Inv(ts)
    ensures Inv(Removed(ts, id)) && forall f :: In(Removed(ts, id), f) <==> In(ts, f) && f.id != id
  {
    var r := Removed(ts, id);
    forall f
      ensures In(r, f) <==> In(ts, f) && f.id != id
    {
      if In(r, f) {
        var i :| 0 <= i < |r| && f in r[i].leases;
        assert f in ts[i].leases;
      }
      if In(ts, f) && f.id != id {
        var i :| 0 <= i < |ts| && f in ts[i].leases;
        assert f in r[i].leases;
      }
    }
  }

  lemma {:induction false} DroppedDistinct(ts: seq<Table>, guid: Option<Guid>)
    requires DistinctGuids(ts)
    ensures DistinctGuids(Dropped(ts, guid))
    decreases |ts|
  {
    if ts == [] {
    } else {
      var init, t := ts[..|ts| - 1], ts[|ts| - 1];
      DroppedDistinct(init, guid);
      assert forall u :: u in init ==> u.guid != t.guid;
    }
  }

  lemma DroppedNext(ts: seq<Table>, guid: Option<Guid>, i: nat)
    requires i < |ts|
    ensures Dropped(ts[..i + 1], guid) ==
              Dropped(ts[..i], guid) + if guid.Some? && ts[i].guid != guid.value then [ts[i]] else []
  {
    assert ts[..i + 1][..i] == ts[..i];
  }

  lemma DroppedKeeps(ts: seq<Table>, guid: Option<Guid>)
    requires Inv(ts)
    ensures Inv(Dropped(ts, guid))
    ensures forall f :: In(Dropped(ts, guid), f) <==> In(ts, f) && guid.Some? && f.guid != guid.value
  {
    var r := Dropped(ts, guid);
    DroppedDistinct(ts, guid);
    forall f
      ensures In(r, f) <==> In(ts, f) && guid.Some? && f.guid != guid.value
    {
      if In(r, f) {
        var i :| 0 <= i < |r| && f in r[i].leases;
        assert r[i] in r;
        var j :| 0 <= j < |ts| && ts[j] == r[i];
        assert f in ts[j].leases;
      }
      if In(ts, f) && guid.Some? && f.guid != guid.value {
        var i :| 0 <= i < |ts| && f in ts[i].leases;
        assert ts[i] in r;
        var j :| 0 <= j < |r| && r[j] == ts[i];
        assert f in r[j].leases;
      }
    }
    forall i, e | 0 <= i < |r| && e in r[i].leases
      ensures e.guid == r[i].guid
    {
      assert r[i] in r;
      var j :| 0 <= j < |ts| && ts[j] == r[i];
    }
  }

  // ---- Runs ----

  datatype Step =
    | Open(e: Entry, granted: bool)
    | Close(id: nat)
    | Destroy(guid: Option<Guid>)

  /** An open that asks for a lease is refused on a clash; otherwise it is indexed, if it is granted. */
  ghost function Next(ts: seq<Table>, s: Step): seq<Table> {
    match s
    case Open(e, granted) => if granted && !Clash(ts, e.guid, e.key, e.inode) then Added(ts, e) else ts
    case Close(id) => Removed(ts, id)
    case Destroy(guid) => Dropped(ts, guid)
  }

  ghost function Run(steps: seq<Step>): seq<Table> {
    if steps == [] then [] else Next(Run(steps[..|steps| - 1]), steps[|steps| - 1])
  }

  /** Over every run of opens, closes and table destructions: tables have distinct GUIDs, every entry is
      in its own client's table, and entries with the same GUID and key are on the same inode. */
  lemma {:induction false} AlwaysIndexed(steps: seq<Step>)
    ensures Inv(Run(steps))
    decreases |steps|
  {
    if steps == [] {
    } else {
      var ts, s := Run(steps[..|steps| - 1]), steps[|steps| - 1];
      AlwaysIndexed(steps[..|steps| - 1]);
      match s {
        case Open(e, granted) => AddedExact(ts, e);
        case Close(id) => RemovedKeeps(ts, id);
        case Destroy(guid) => DroppedKeeps(ts, guid);
      }
    }
  }

  // ---- The code ----

  /** Looking at the client's own table is enough. */
  lemma ClashIsLocal(ts: seq<Table>, guid: Guid, key: Key, inode: nat)
    requires Inv(ts)
    ensures Clash(ts, guid, key, inode) <==>
              var i := Find(ts, guid);
              i < |ts| && exists e :: e in ts[i].leases && e.key == key && e.inode != inode
  {
    var i := Find(ts, guid);
    if Clash(ts, guid, key, inode) {
      var e :| In(ts, e) && e.guid == guid && e.key == key && e.inode != inode;
      var j :| 0 <= j < |ts| && e in ts[j].leases;
      assert ts[j].guid == guid && i == j;
    }
    if i < |ts| && exists e :: e in ts[i].leases && e.key == key && e.inode != inode {
      var e :| e in ts[i].leases && e.key == key && e.inode != inode;
      assert In(ts, e);
    }
  }

  lemma InOwnTable(ts: seq<Table>, e: Entry, i: nat)
    requires DistinctGuids(ts) && OwnTable(ts) && In(ts, e) && i == Find(ts, e.guid)
    ensures i < |ts| && e in ts[i].leases
  {
    forall j | 0 <= j < |ts| && e in ts[j].leases
      ensures j == i
    {
      assert ts[j].guid == e.guid;
    }
  }

  lemma {:induction false} WithoutNone(es: seq<Entry>, id: nat)
    requires forall e :: e in es ==> e.id != id
    ensures LeasesWithout(es, id) == es
    decreases |es|
  {
    if es == [] {
    } else {
      assert es[0] in es;
      WithoutNone(es[1..], id);
      assert es == [es[0]] + es[1..];
    }
  }

  lemma NotElsewhere(ts: seq<Table>, e: Entry, i: nat, j: nat)
    requires Inv(ts) && i == Find(ts, e.guid) < |ts| && j < |ts| && j != i
    requires forall f :: In(ts, f) && f.id == e.id ==> f == e
    ensures LeasesWithout(ts[j].leases, e.id) == ts[j].leases
  {
    forall f | f in ts[j].leases
      ensures f.id != e.id
    {
      assert In(ts, f) && f.guid == ts[j].guid;
      assert i < j ==> ts[i].guid != ts[j].guid;
      assert j < i ==> ts[j].guid != ts[i].guid;
    }
    WithoutNone(ts[j].leases, e.id);
  }

  /** lease_table_list */
  class Index {
    var tables: seq<Table>

    constructor ()
      ensures tables == []
    {
      tables := [];
    }

    /** The search for a client's table. */
    method FindTable(guid: Guid) returns (i: nat)
      ensures i == Find(tables, guid)
    {
      i := 0;
      while i < |tables|
        invariant i <= |tables| && forall j :: 0 <= j < i ==> tables[j].guid != guid
      {
        if tables[i].guid == guid {
          return;
        }
        i := i + 1;
      }
    }

    /** find_same_lease_key: it looks at one table, and reports exactly when the key is in use for
        another inode anywhere in the index. */
    method FindSameLeaseKey(guid: Guid, key: Key, inode: nat) returns (used: bool)
      requires Inv(tables)
      ensures used <==> Clash(tables, guid, key, inode)
    {
      ClashIsLocal(tables, guid, key, inode);
      var i := FindTable(guid);
      if i == |tables| {
        return false;
      }
      var leases := tables[i].leases;
      for k := 0 to |leases|
        invariant forall j :: 0 <= j < k ==> leases[j].inode == inode || leases[j].key != key
      {
        if leases[k].inode != inode && leases[k].guid == guid && leases[k].key == key {
          return true;
        }
      }
      return false;
    }

    /** add_lease_global_list */
    method AddLeaseGlobalList(e: Entry)
      modifies this
      ensures tables == Added(old(tables), e)
    {
      var i := FindTable(e.guid);
      if i < |tables| {
        tables := tables[i := tables[i].(leases := [e] + tables[i].leases)];
      } else {
        tables := [Table(e.guid, [e])] + tables;
      }
    }

    /** The check in smb2_open, then the grant. */
    method CheckThenGrant(e: Entry, granted: bool) returns (ok: bool)
      requires Inv(tables)
      modifies this
      ensures tables == Next(old(tables), Open(e, granted)) && Inv(tables)
      ensures ok <==> granted && !Clash(old(tables), e.guid, e.key, e.inode)
    {
      AddedExact(tables, e);
      var used := FindSameLeaseKey(e.guid, e.key, e.inode);
      ok := !used && granted;
      if ok {
        AddLeaseGlobalList(e);
      }
    }

    /** lease_del_list, of the only lease of an open: it is taken out of the table it is in. */
    method LeaseDelList(e: Entry)
      requires Inv(tables) && In(tables, e) && forall f :: In(tables, f) && f.id == e.id ==> f == e
      modifies this
      ensures tables == Removed(old(tables), e.id)
    {
      var i := FindTable(e.guid);
      InOwnTable(tables, e, i);
      forall j | 0 <= j < |tables| && j != i
        ensures LeasesWithout(tables[j].leases, e.id) == tables[j].leases
      {
        NotElsewhere(tables, e, i, j);
      }
      tables := tables[i := Table(tables[i].guid, LeasesWithout(tables[i].leases, e.id))];
    }

    /** destroy_lease_table: each table of the client is emptied and unlinked. */
    method DestroyLeaseTable(guid: Option<Guid>)
      modifies this
      ensures tables == Dropped(old(tables), guid)
    {
      var all, kept := tables, [];
      for i := 0 to |all|
        invariant kept == Dropped(all[..i], guid)
      {
        DroppedNext(all, guid, i);
        if guid.Some? && all[i].guid != guid.value {
          kept := kept + [all[i]];
        }
      }
      assert all[..|all|] == all;
      tables := kept;
    }
  }
}
