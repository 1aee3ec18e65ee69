/** The manifest: the durable list of live tables, newest first. */
module Manifests {
  import opened Bytes
  import opened Tables
  import opened Compaction
  import opened Picker

  /** What the manifest file holds; it is replaced as a whole. */
  datatype Document = Document(epoch: nat, nextSstId: nat, tables: seq<Table>)

  /** Insert one table behind every table that is at least as new. */
  method InsertSorted(sorted: seq<Table>, t: Table) returns (more: seq<Table>)
    requires Descending(sorted)
    ensures SortedFrom(more, sorted + [t])
  {
    var i := 0;
    while i < |sorted| && sorted[i].maxSeqno >= t.maxSeqno
      invariant i <= |sorted| && forall j :: 0 <= j < i ==> sorted[j].maxSeqno >= t.maxSeqno
    {
      i := i + 1;
    }
    more := sorted[..i] + [t] + sorted[i..];
    assert sorted == sorted[..i] + sorted[i..];
    assert multiset(more) == multiset(sorted[..i]) + multiset{t} + multiset(sorted[i..]);
  }

  /** Newest first by maximum sequence number. */
  method SortByMaxSeqno(ts: seq<Table>) returns (order: seq<Table>)
    ensures SortedFrom(order, ts)
  {
    order := [];
    var i := 0;
    while i < |ts|
      invariant i <= |ts| && SortedFrom(order, ts[..i])
    {
      var more := InsertSorted(order, ts[i]);
      assert ts[..i + 1] == ts[..i] + [ts[i]];
      assert multiset(order + [ts[i]]) == multiset(order) + multiset{ts[i]};
      order := more;
      i := i + 1;
    }
    assert ts[..|ts|] == ts;
  }

  class Manifest {
    var tables: seq<Table>
    var epoch: nat
    var nextSstId: nat
    var saved: Option<Document>

    /** Every live number is below the next one, and the file lists the same tables, in any order. */
    ghost predicate Valid()
      reads this
    {
      && (forall t :: t in tables ==> t.id < nextSstId)
      && (saved.None? ==> tables == [])
      && (saved.Some? ==> saved.value.epoch == epoch && multiset(saved.value.tables) == multiset(tables))
    }

    /** Read the file, if there is one; the order of its list does not matter. */
    constructor LoadOrCreate(file: Option<Document>)
      ensures Valid() && saved == file
      ensures file.None? ==> tables == [] && epoch == 0 && nextSstId == 1
      ensures file.Some? ==> SortedFrom(tables, file.value.tables) && epoch == file.value.epoch
      ensures file.Some? ==> nextSstId >= file.value.nextSstId
      ensures file.Some? ==>
                nextSstId == file.value.nextSstId || exists t :: t in file.value.tables && nextSstId == t.id + 1
    {
      saved := file;
      var list, e, next := [], 0, 1;
      if file.Some? {
        list := SortByMaxSeqno(file.value.tables);
        SortedMembers(list, file.value.tables);
        e, next := file.value.epoch, file.value.nextSstId;
        var i := 0;
        while i < |list|
          invariant i <= |list| && next >= file.value.nextSstId
          invariant forall j :: 0 <= j < i ==> list[j].id < next
          invariant next == file.value.nextSstId || exists t :: t in file.value.tables && next == t.id + 1
        {
          assert list[i] in list;
          next := if list[i].id + 1 > next then list[i].id + 1 else next;
          i := i + 1;
        }
      }
      tables, epoch, nextSstId := list, e, next;
    }

    method Save()
      modifies `saved
      ensures saved == Some(Document(epoch, nextSstId, tables))
    {
      saved := Some(Document(epoch, nextSstId, tables));
    }

    /** A flushed table goes to the front. */
    method AddTable(meta: Table)
      requires Valid()
      modifies this
      ensures Valid()
      ensures tables == [meta] + old(tables) && epoch == old(epoch) + 1
      ensures nextSstId == if meta.id + 1 > old(nextSstId) then meta.id + 1 else old(nextSstId)
      ensures saved == Some(Document(epoch, nextSstId, tables))
    {
      tables := [meta] + tables;
      nextSstId := if meta.id + 1 > nextSstId then meta.id + 1 else nextSstId;
      epoch := epoch + 1;
      Save();
    }

    /** The inputs go and the output comes in one rewrite; the list is sorted anew. */
    method ApplyCompaction(removed: seq<nat>, added: Option<Table>)
      requires Valid()
      modifies this
      ensures Valid()
      ensures SortedFrom(tables, Without(old(tables), removed) + Listed(added)) && epoch == old(epoch) + 1
      ensures nextSstId == if added.Some? && added.value.id + 1 > old(nextSstId) then added.value.id + 1
              else old(nextSstId)
      ensures saved == Some(Document(epoch, nextSstId, tables))
    {
      var kept := EraseListed(tables, removed);
      WithoutSubset(tables, removed);
      kept := kept + Listed(added);
      if added.Some? {
        nextSstId := if added.value.id + 1 > nextSstId then added.value.id + 1 else nextSstId;
      }
      tables := SortByMaxSeqno(kept);
      SortedMembers(tables, kept);
      epoch := epoch + 1;
      Save();
    }

    method MaxSeqno() returns (v: nat)
      ensures v == MaxSeqnoOf(tables)
    {
      v := 0;
      var i := 0;
      while i < |tables|
        invariant i <= |tables| && v == MaxSeqnoOf(tables[..i])
      {
        assert tables[..i + 1][..i] == tables[..i];
        v := if tables[i].maxSeqno > v then tables[i].maxSeqno else v;
        i := i + 1;
      }
      assert tables[..|tables|] == tables;
    }

    method TotalSize() returns (v: nat)
      ensures v == TotalBytes(tables)
    {
      v := 0;
      var i := 0;
      while i < |tables|
        invariant i <= |tables| && v == TotalBytes(tables[..i])
      {
        assert tables[..i + 1][..i] == tables[..i];
        v := v + tables[i].size;
        i := i + 1;
      }
      assert tables[..|tables|] == tables;
    }
  }

  method EraseListed(ts: seq<Table>, ids: seq<nat>) returns (kept: seq<Table>)
    ensures kept == Without(ts, ids)
  {
    kept := [];
    var i := 0;
    while i < |ts|
      invariant i <= |ts| && kept == Without(ts[..i], ids)
    {
      assert ts[..i + 1][..i] == ts[..i];
      if ts[i].id !in ids {
        kept := kept + [ts[i]];
      }
      i := i + 1;
    }
    assert ts[..|ts|] == ts;
  }

  lemma {:induction false} WithoutSubset(ts: seq<Table>, ids: seq<nat>)
    ensures forall t :: t in Without(ts, ids) <==> t in ts && t.id !in ids
    decreases |ts|
  {
    if ts != [] {
      WithoutSubset(ts[..|ts| - 1], ids);
      assert ts == ts[..|ts| - 1] + [ts[|ts| - 1]];
    }
  }
}
