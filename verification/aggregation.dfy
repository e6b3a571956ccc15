/** The table after a whole stream of packet lines: `parseComm` applied to
    each line in turn, starting from the empty table. */
module Aggregation {
  import opened Comms
  import Sequences

  predicate AllShaped(rows: seq<seq<string>>, proto: bool) {
    forall i :: 0 <= i < |rows| ==> PacketShape(rows[i], proto)
  }

  /** The table after the rows, in order. */
  function Aggregate(rows: seq<seq<string>>, proto: bool): (comms: seq<Comm>)
    requires AllShaped(rows, proto)
    decreases |rows|
  {
    if |rows| == 0 then []
    else Ingest(Aggregate(rows[..|rows| - 1], proto), rows[|rows| - 1], proto)
  }

  /** Folding one more row of a stream into the table of its prefix. */
  lemma AggregatePrefix(rows: seq<seq<string>>, n: nat, proto: bool)
    requires AllShaped(rows, proto) && n < |rows|
    ensures AllShaped(rows[..n], proto) && AllShaped(rows[..n + 1], proto)
    ensures Aggregate(rows[..n + 1], proto) == Ingest(Aggregate(rows[..n], proto), rows[n], proto)
  {
    assert forall i :: 0 <= i <= n ==> rows[..n + 1][i] == rows[i];
    assert rows[..n + 1][..n] == rows[..n];
  }

  /** Number of rows that belong to flow k. */
  function Count(rows: seq<seq<string>>, k: Key, proto: bool): nat
    requires AllShaped(rows, proto)
    decreases |rows|
  {
    if |rows| == 0 then 0
    else Count(rows[..|rows| - 1], k, proto) + (if PacketKey(rows[|rows| - 1], proto) == k then 1 else 0)
  }

  /** Sum of the byte lengths of the rows that belong to flow k. */
  function Bytes(rows: seq<seq<string>>, k: Key, proto: bool): nat
    requires AllShaped(rows, proto)
    decreases |rows|
  {
    if |rows| == 0 then 0
    else
      var last := rows[|rows| - 1];
      Bytes(rows[..|rows| - 1], k, proto) + (if PacketKey(last, proto) == k then FrameLength(last) else 0)
  }

  /** Sum of the byte lengths of all rows. */
  function TotalLength(rows: seq<seq<string>>, proto: bool): nat
    requires AllShaped(rows, proto)
    decreases |rows|
  {
    if |rows| == 0 then 0 else TotalLength(rows[..|rows| - 1], proto) + FrameLength(rows[|rows| - 1])
  }

  /** The flows the rows belong to. */
  function RowKeys(rows: seq<seq<string>>, proto: bool): set<Key>
    requires AllShaped(rows, proto)
  {
    set i | 0 <= i < |rows| :: PacketKey(rows[i], proto)
  }

  lemma PrefixShaped(rows: seq<seq<string>>, proto: bool)
    requires AllShaped(rows, proto) && |rows| > 0
    ensures AllShaped(rows[..|rows| - 1], proto)
  {
    assert forall i :: 0 <= i < |rows| - 1 ==> rows[..|rows| - 1][i] == rows[i];
  }

  lemma RowKeysStep(rows: seq<seq<string>>, proto: bool)
    requires AllShaped(rows, proto) && |rows| > 0
    ensures AllShaped(rows[..|rows| - 1], proto)
    ensures RowKeys(rows, proto) == RowKeys(rows[..|rows| - 1], proto) + {PacketKey(rows[|rows| - 1], proto)}
  {
    PrefixShaped(rows, proto);
    var init := rows[..|rows| - 1];
    assert forall i :: 0 <= i < |init| ==> init[i] == rows[i];
  }

  /** A flow no row belongs to has no packets and no bytes. */
  lemma {:induction false} CountOutside(rows: seq<seq<string>>, k: Key, proto: bool)
    requires AllShaped(rows, proto)
    requires k !in RowKeys(rows, proto)
    ensures Count(rows, k, proto) == 0 && Bytes(rows, k, proto) == 0
    decreases |rows|
  {
    if |rows| > 0 {
      RowKeysStep(rows, proto);
      CountOutside(rows[..|rows| - 1], k, proto);
    }
  }

  /** Over the whole stream the table keeps one record per flow, counts
      every packet once, and counts every byte once. */
  lemma {:induction false} AggregateTotals(rows: seq<seq<string>>, proto: bool)
    requires AllShaped(rows, proto)
    ensures Valid(Aggregate(rows, proto), proto)
    ensures TotalCnt(Aggregate(rows, proto)) == |rows|
    ensures TotalSiz(Aggregate(rows, proto)) == TotalLength(rows, proto)
    decreases |rows|
  {
    if |rows| > 0 {
      PrefixShaped(rows, proto);
      var init := rows[..|rows| - 1];
      AggregateTotals(init, proto);
      IngestValid(Aggregate(init, proto), rows[|rows| - 1], proto);
      IngestTotals(Aggregate(init, proto), rows[|rows| - 1], proto);
    }
  }

  /** Every record's counts are its flow's traffic in the rows. */
  predicate Tallied(comms: seq<Comm>, rows: seq<seq<string>>, proto: bool)
    requires AllShaped(rows, proto)
  {
    forall i :: 0 <= i < |comms| ==>
      comms[i].cnt == Count(rows, KeyOf(comms[i], proto), proto) &&
      comms[i].siz == Bytes(rows, KeyOf(comms[i], proto), proto)
  }

  /** One more row of a flow that already has a record. */
  lemma TalliedBump(rows: seq<seq<string>>, before: seq<Comm>, proto: bool)
    requires AllShaped(rows, proto) && |rows| > 0
    requires AllShaped(rows[..|rows| - 1], proto)
    requires KeysUnique(before, proto)
    requires Tallied(before, rows[..|rows| - 1], proto)
    requires FirstMatch(before, rows[|rows| - 1], proto) < |before|
    ensures Tallied(Ingest(before, rows[|rows| - 1], proto), rows, proto)
  {
    var last := rows[|rows| - 1];
    var pk := PacketKey(last, proto);
    var k := FirstMatch(before, last, proto);
    var after := Ingest(before, last, proto);
    assert KeyOf(before[k], proto) == pk;
    forall i | 0 <= i < |after|
      ensures after[i].cnt == Count(rows, KeyOf(after[i], proto), proto)
      ensures after[i].siz == Bytes(rows, KeyOf(after[i], proto), proto)
    {
      if i != k {
        assert KeyOf(before[i], proto) != pk;
      }
    }
  }

  /** The first row of a flow that has no record yet. */
  lemma TalliedAppend(rows: seq<seq<string>>, before: seq<Comm>, proto: bool)
    requires AllShaped(rows, proto) && |rows| > 0
    requires AllShaped(rows[..|rows| - 1], proto)
    requires KeySet(before, proto) == RowKeys(rows[..|rows| - 1], proto)
    requires Tallied(before, rows[..|rows| - 1], proto)
    requires FirstMatch(before, rows[|rows| - 1], proto) == |before|
    ensures Tallied(Ingest(before, rows[|rows| - 1], proto), rows, proto)
  {
    var init := rows[..|rows| - 1];
    var last := rows[|rows| - 1];
    var pk := PacketKey(last, proto);
    var after := Ingest(before, last, proto);
    assert pk !in RowKeys(init, proto) by {
      assert forall i :: 0 <= i < |before| ==> KeyOf(before[i], proto) != pk;
    }
    CountOutside(init, pk, proto);
    forall i | 0 <= i < |after|
      ensures after[i].cnt == Count(rows, KeyOf(after[i], proto), proto)
      ensures after[i].siz == Bytes(rows, KeyOf(after[i], proto), proto)
    {
      if i < |before| {
        assert KeyOf(before[i], proto) != pk;
      }
    }
  }

  /** Each record of the final table is exactly its flow's traffic: the
      table holds a record for every flow that occurs and for no other,
      and a record's packet and byte counts are the number and the total
      length of the rows of its flow. */
  lemma {:induction false} AggregatePerFlow(rows: seq<seq<string>>, proto: bool)
    requires AllShaped(rows, proto)
    ensures KeySet(Aggregate(rows, proto), proto) == RowKeys(rows, proto)
    ensures forall i :: 0 <= i < |Aggregate(rows, proto)| ==>
              var c := Aggregate(rows, proto)[i];
              c.cnt == Count(rows, KeyOf(c, proto), proto) && c.siz == Bytes(rows, KeyOf(c, proto), proto)
    decreases |rows|
  {
    if |rows| > 0 {
      RowKeysStep(rows, proto);
      var init := rows[..|rows| - 1];
      var last := rows[|rows| - 1];
      var before := Aggregate(init, proto);
      AggregatePerFlow(init, proto);
      AggregateTotals(init, proto);
      IngestKeys(before, last, proto);
      if FirstMatch(before, last, proto) < |before| {
        TalliedBump(rows, before, proto);
      } else {
        TalliedAppend(rows, before, proto);
      }
      assert Tallied(Aggregate(rows, proto), rows, proto);
    }
  }

  /** A table with one record per flow has as many records as flows. */
  lemma {:induction false} UniqueKeysCount(comms: seq<Comm>, proto: bool)
    requires KeysUnique(comms, proto)
    ensures |KeySet(comms, proto)| == |comms|
    decreases |comms|
  {
    if |comms| > 0 {
      var n := |comms| - 1;
      var init := comms[..n];
      var k := KeyOf(comms[n], proto);
      assert KeysUnique(init, proto) by {
        assert forall i :: 0 <= i < n ==> init[i] == comms[i];
      }
      assert k !in KeySet(init, proto) by {
        forall i | 0 <= i < n ensures KeyOf(init[i], proto) != k {
          assert init[i] == comms[i];
        }
      }
      KeySetLast(comms, proto);
      UniqueKeysCount(init, proto);
    }
  }

  /** The final table has exactly one record per distinct flow. */
  lemma DistinctFlows(rows: seq<seq<string>>, proto: bool)
    requires AllShaped(rows, proto)
    ensures |Aggregate(rows, proto)| == |RowKeys(rows, proto)|
  {
    AggregateTotals(rows, proto);
    AggregatePerFlow(rows, proto);
    UniqueKeysCount(Aggregate(rows, proto), proto);
  }

  /** Splitting a stream in two splits each flow's traffic in two. */
  lemma {:induction false} CountAppend(a: seq<seq<string>>, b: seq<seq<string>>, k: Key, proto: bool)
    requires AllShaped(a, proto) && AllShaped(b, proto)
    ensures AllShaped(a + b, proto)
    ensures Count(a + b, k, proto) == Count(a, k, proto) + Count(b, k, proto)
    ensures Bytes(a + b, k, proto) == Bytes(a, k, proto) + Bytes(b, k, proto)
    decreases |b|
  {
    assert forall i :: 0 <= i < |a + b| ==> (a + b)[i] == if i < |a| then a[i] else b[i - |a|];
    if |b| == 0 {
      assert a + b == a;
    } else {
      var init := b[..|b| - 1];
      PrefixShaped(b, proto);
      assert (a + b)[..|a + b| - 1] == a + init;
      CountAppend(a, init, k, proto);
    }
  }

  /** Taking one row out of a stream takes its traffic out of its flow. */
  lemma CountRemove(t: seq<seq<string>>, j: nat, k: Key, proto: bool)
    requires AllShaped(t, proto) && j < |t|
    ensures AllShaped(t[..j] + t[j + 1..], proto) && AllShaped([t[j]], proto)
    ensures Count(t, k, proto) == Count(t[..j] + t[j + 1..], k, proto) + Count([t[j]], k, proto)
    ensures Bytes(t, k, proto) == Bytes(t[..j] + t[j + 1..], k, proto) + Bytes([t[j]], k, proto)
  {
    var before, after := t[..j], t[j + 1..];
    assert AllShaped(before, proto) && AllShaped(after, proto) by {
      assert forall i :: 0 <= i < |before| ==> before[i] == t[i];
      assert forall i :: 0 <= i < |after| ==> after[i] == t[j + 1 + i];
    }
    assert t == before + [t[j]] + after;
    CountAppend(before, after, k, proto);
    CountAppend(before, [t[j]], k, proto);
    CountAppend(before + [t[j]], after, k, proto);
  }

  /** Each flow's traffic depends only on which rows occur, not on their
      order. */
  lemma {:induction false} CountPermutation(rows: seq<seq<string>>, rows': seq<seq<string>>, k: Key, proto: bool)
    requires AllShaped(rows, proto) && AllShaped(rows', proto)
    requires multiset(rows) == multiset(rows')
    ensures Count(rows, k, proto) == Count(rows', k, proto)
    ensures Bytes(rows, k, proto) == Bytes(rows', k, proto)
    decreases |rows|
  {
    assert |rows| == |multiset(rows)| == |rows'|;
    if |rows| > 0 {
      var n := |rows| - 1;
      assert rows[n] in multiset(rows');
      var j :| 0 <= j < |rows'| && rows'[j] == rows[n];
      Sequences.RemoveMatching(rows, n, rows', j);
      CountRemove(rows, n, k, proto);
      CountRemove(rows', j, k, proto);
      CountPermutation(rows[..n] + rows[n + 1..], rows'[..j] + rows'[j + 1..], k, proto);
    }
  }

  /** Reordering the stream yields the same records: the same number of
      them, every record of one table is a record of the other, and the
      two tables are permutations of each other. Only their order may
      differ, and ranking discards that. */
  lemma OrderIndependent(rows: seq<seq<string>>, rows': seq<seq<string>>, proto: bool)
    requires AllShaped(rows, proto) && AllShaped(rows', proto)
    requires multiset(rows) == multiset(rows')
    ensures |Aggregate(rows, proto)| == |Aggregate(rows', proto)|
    ensures forall c :: c in Aggregate(rows, proto) <==> c in Aggregate(rows', proto)
    ensures multiset(Aggregate(rows, proto)) == multiset(Aggregate(rows', proto))
  {
    assert RowKeys(rows, proto) == RowKeys(rows', proto) by {
      assert forall x :: x in rows <==> x in rows' by {
        forall x ensures x in rows <==> x in rows' {
          assert x in rows <==> x in multiset(rows);
        }
      }
      forall key | key in RowKeys(rows, proto) ensures key in RowKeys(rows', proto) {
        var i :| 0 <= i < |rows| && PacketKey(rows[i], proto) == key;
        assert rows[i] in rows';
      }
      forall key | key in RowKeys(rows', proto) ensures key in RowKeys(rows, proto) {
        var i :| 0 <= i < |rows'| && PacketKey(rows'[i], proto) == key;
        assert rows'[i] in rows;
      }
    }
    DistinctFlows(rows, proto);
    DistinctFlows(rows', proto);
    forall c | c in Aggregate(rows, proto) ensures c in Aggregate(rows', proto) {
      SameRecord(rows, rows', c, proto);
    }
    forall c | c in Aggregate(rows', proto) ensures c in Aggregate(rows, proto) {
      SameRecord(rows', rows, c, proto);
    }
    AggregateTotals(rows, proto);
    AggregateTotals(rows', proto);
    UniqueRecords(Aggregate(rows, proto), proto);
    UniqueRecords(Aggregate(rows', proto), proto);
    Sequences.SameDistinct(Aggregate(rows, proto), Aggregate(rows', proto));
  }

  /** Records of different flows are different records. */
  lemma UniqueRecords(comms: seq<Comm>, proto: bool)
    requires KeysUnique(comms, proto)
    ensures Sequences.Distinct(comms)
  {
  }

  /** A record of one table is a record of the table of any reordering. */
  lemma SameRecord(rows: seq<seq<string>>, rows': seq<seq<string>>, c: Comm, proto: bool)
    requires AllShaped(rows, proto) && AllShaped(rows', proto)
    requires multiset(rows) == multiset(rows')
    requires RowKeys(rows, proto) == RowKeys(rows', proto)
    requires c in Aggregate(rows, proto)
    ensures c in Aggregate(rows', proto)
  {
    var agg, agg' := Aggregate(rows, proto), Aggregate(rows', proto);
    AggregateTotals(rows, proto);
    AggregateTotals(rows', proto);
    AggregatePerFlow(rows, proto);
    AggregatePerFlow(rows', proto);
    var i :| 0 <= i < |agg| && agg[i] == c;
    var key := KeyOf(c, proto);
    assert key in KeySet(agg', proto);
    var j :| 0 <= j < |agg'| && KeyOf(agg'[j], proto) == key;
    CountPermutation(rows, rows', key, proto);
    assert agg'[j] == c;
  }
}
