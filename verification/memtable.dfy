/** The memtable: an ordered map from keys to their latest version, with byte accounting. */
module Memtables {
  import opened Bytes

  datatype Entry = Entry(value: bytes, seqno: nat, tombstone: bool)

  datatype Row = Row(key: bytes, entry: Entry)

  type Mem = map<bytes, Entry>

  /** One mutation: a put, or a delete when it is a tombstone. */
  datatype Record = Record(tombstone: bool, key: bytes, value: bytes, seqno: nat)

  /** The largest sequence number of a stretch of mutations; 0 if there are none. */
  function MaxSeqno(rs: seq<Record>): nat {
    if rs == [] then 0
    else
      var m := MaxSeqno(rs[..|rs| - 1]);
      var last := rs[|rs| - 1].seqno;
      if m < last then last else m
  }

  // ----- an ordered map as its rows in key order -----

  ghost predicate Ordered(rows: seq<Row>) {
    forall i, j :: 0 <= i < j < |rows| ==> Less(rows[i].key, rows[j].key)
  }

  function ToMap(rows: seq<Row>): Mem {
    if rows == [] then map[] else ToMap(rows[1..])[rows[0].key := rows[0].entry]
  }

  function Find(rows: seq<Row>, key: bytes): Option<Entry> {
    if rows == [] then None else if rows[0].key == key then Some(rows[0].entry) else Find(rows[1..], key)
  }

  function Upsert(rows: seq<Row>, key: bytes, entry: Entry): seq<Row> {
    if rows == [] || Less(key, rows[0].key) then [Row(key, entry)] + rows
    else if rows[0].key == key then [Row(key, entry)] + rows[1..]
    else [rows[0]] + Upsert(rows[1..], key, entry)
  }

  function RowSize(row: Row, overhead: nat): nat {
    |row.key| + |row.entry.value| + overhead
  }

  function TotalSize(rows: seq<Row>, overhead: nat): nat {
    if rows == [] then 0 else RowSize(rows[0], overhead) + TotalSize(rows[1..], overhead)
  }

  lemma {:induction false} FindInMap(rows: seq<Row>, key: bytes)
    ensures Find(rows, key) == if key in ToMap(rows) then Some(ToMap(rows)[key]) else None
    decreases |rows|
  {
    if rows != [] {
      FindInMap(rows[1..], key);
    }
  }

  lemma {:induction false} FindAt(rows: seq<Row>, i: nat)
    requires Ordered(rows) && i < |rows|
    ensures Find(rows, rows[i].key) == Some(rows[i].entry)
    decreases |rows|
  {
    if i > 0 {
      LessAsymmetric(rows[0].key, rows[i].key);
      FindAt(rows[1..], i - 1);
    }
  }

  lemma {:induction false} FindNone(rows: seq<Row>, key: bytes)
    requires forall i :: 0 <= i < |rows| ==> rows[i].key != key
    ensures Find(rows, key) == None
    decreases |rows|
  {
    if rows != [] {
      FindNone(rows[1..], key);
    }
  }

  lemma {:induction false} UpsertKeys(rows: seq<Row>, key: bytes, entry: Entry)
    ensures forall r :: r in Upsert(rows, key, entry) ==> r in rows || r.key == key
    decreases |rows|
  {
    if rows != [] && !Less(key, rows[0].key) && rows[0].key != key {
      UpsertKeys(rows[1..], key, entry);
    }
  }

  lemma {:induction false} UpsertOrdered(rows: seq<Row>, key: bytes, entry: Entry)
    requires Ordered(rows)
    ensures Ordered(Upsert(rows, key, entry))
    decreases |rows|
  {
    var up := Upsert(rows, key, entry);
    if rows == [] {
    } else if Less(key, rows[0].key) {
      assert up[1..] == rows;
      forall j | 0 <= j < |rows| ensures Less(key, rows[j].key) {
        if j > 0 {
          LessTransitive(key, rows[0].key, rows[j].key);
        }
      }
    } else if rows[0].key == key {
      assert up[1..] == rows[1..];
    } else {
      LessTotal(key, rows[0].key);
      UpsertOrdered(rows[1..], key, entry);
      UpsertKeys(rows[1..], key, entry);
      var rest := Upsert(rows[1..], key, entry);
      assert up[1..] == rest;
      forall j | 0 <= j < |rest| ensures Less(rows[0].key, rest[j].key) {
        assert rest[j] in rows[1..] || rest[j].key == key;
      }
    }
  }

  lemma {:induction false} UpsertMap(rows: seq<Row>, key: bytes, entry: Entry)
    ensures ToMap(Upsert(rows, key, entry)) == ToMap(rows)[key := entry]
    decreases |rows|
  {
    if rows == [] || Less(key, rows[0].key) {
      assert Upsert(rows, key, entry)[1..] == rows;
    } else if rows[0].key == key {
      assert Upsert(rows, key, entry)[1..] == rows[1..];
    } else {
      UpsertMap(rows[1..], key, entry);
      assert Upsert(rows, key, entry)[1..] == Upsert(rows[1..], key, entry);
    }
  }

  /** Overwriting or inserting keeps the rows in strict key order and changes exactly one key. */
  lemma UpsertIsUpdate(rows: seq<Row>, key: bytes, entry: Entry)
    requires Ordered(rows)
    ensures Ordered(Upsert(rows, key, entry))
    ensures ToMap(Upsert(rows, key, entry)) == ToMap(rows)[key := entry]
  {
    UpsertOrdered(rows, key, entry);
    UpsertMap(rows, key, entry);
  }

  function OldSize(rows: seq<Row>, key: bytes, overhead: nat): nat {
    match Find(rows, key)
    case None => 0
    case Some(e) => RowSize(Row(key, e), overhead)
  }

  lemma {:induction false} UpsertSize(rows: seq<Row>, key: bytes, entry: Entry, overhead: nat)
    requires Ordered(rows)
    ensures OldSize(rows, key, overhead) <= TotalSize(rows, overhead)
    ensures TotalSize(Upsert(rows, key, entry), overhead)
            == TotalSize(rows, overhead) - OldSize(rows, key, overhead) + |key| + |entry.value| + overhead
    ensures OldSize(rows, key, overhead)
            == match Find(rows, key)
               case None => 0
               case Some(e) => |key| + |e.value| + overhead
    decreases |rows|
  {
    var up := Upsert(rows, key, entry);
    if rows == [] {
    } else if Less(key, rows[0].key) {
      assert up[1..] == rows;
      forall j | 0 <= j < |rows| ensures rows[j].key != key {
        if j > 0 {
          LessTransitive(key, rows[0].key, rows[j].key);
        }
        LessAsymmetric(key, rows[j].key);
      }
      FindNone(rows, key);
    } else if rows[0].key == key {
      assert up[1..] == rows[1..];
    } else {
      UpsertSize(rows[1..], key, entry, overhead);
      assert up[1..] == Upsert(rows[1..], key, entry);
    }
  }

  class Memtable {
    const overhead: nat
    var rows: seq<Row>
    var size: nat

    ghost predicate Valid()
      reads this
    {
      Ordered(rows) && size == TotalSize(rows, overhead)
    }

    constructor (overhead: nat)
      ensures Valid() && rows == [] && size == 0 && this.overhead == overhead
    {
      this.overhead := overhead;
      rows, size := [], 0;
    }

    /** Insert or overwrite; the byte count follows the rows exactly. */
    method Apply(key: bytes, value: bytes, seqno: nat, tombstone: bool)
      requires Valid()
      modifies this
      ensures Valid()
      ensures ToMap(rows) == old(ToMap(rows))[key := Entry(value, seqno, tombstone)]
      ensures size == old(size) + |key| + |value| + overhead
                      - (if key in old(ToMap(rows)) then |key| + |old(ToMap(rows))[key].value| + overhead else 0)
    {
      var entry := Entry(value, seqno, tombstone);
      UpsertIsUpdate(rows, key, entry);
      UpsertSize(rows, key, entry, overhead);
      var found := Lookup(key);
      match found {
        case Some(e) =>
          size := size - RowSize(Row(key, e), overhead);
        case None =>
      }
      rows := Upsert(rows, key, entry);
      size := size + RowSize(Row(key, entry), overhead);
    }

    method Lookup(key: bytes) returns (r: Option<Entry>)
      requires Valid()
      ensures r == Find(rows, key)
      ensures r == if key in ToMap(rows) then Some(ToMap(rows)[key]) else None
    {
      FindInMap(rows, key);
      r := Find(rows, key);
    }
  }
}
