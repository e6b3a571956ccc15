/** The per-flow aggregation table: one Comm record per flow, updated by
    `parseComm` for every packet line. */
module Comms {
  import opened Decimal

  /** One flow: packet count, byte count, source, destination and protocol.
      The protocol stays empty when packets are not grouped by protocol.
      The C++ fields are host `int`; here they are unbounded. */
  datatype Comm = Comm(cnt: nat, siz: nat, src: string, dst: string, pro: string)

  /** The fields of one packet line as `parseComm` and `addComm` read
      them: source, destination, a numeral byte length and, when grouping
      by protocol, the protocol in the fourth field. */
  predicate PacketShape(fields: seq<string>, proto: bool) {
    && |fields| >= 3
    && (proto ==> |fields| >= 4)
    && IsNumeral(fields[2])
  }

  /** The packet's byte length, `std::stoi(fields[2])`. */
  function FrameLength(fields: seq<string>): nat
    requires PacketShape(fields, false)
  {
    NumeralValue(fields[2])
  }

  /** The flow a record or a packet belongs to: source and destination,
      and the protocol only when grouping by protocol. */
  datatype Key = Key(src: string, dst: string, pro: string)

  function KeyOf(c: Comm, proto: bool): Key {
    Key(c.src, c.dst, if proto then c.pro else "")
  }

  function PacketKey(fields: seq<string>, proto: bool): Key
    requires PacketShape(fields, proto)
  {
    Key(fields[0], fields[1], if proto then fields[3] else "")
  }

  /** The test of the scan in `parseComm`: same source and destination,
      and, when grouping by protocol, the same protocol. It holds exactly
      when the record and the packet belong to the same flow. */
  predicate Matches(c: Comm, fields: seq<string>, proto: bool)
    requires PacketShape(fields, proto)
    ensures Matches(c, fields, proto) <==> KeyOf(c, proto) == PacketKey(fields, proto)
  {
    c.src == fields[0] && c.dst == fields[1] && (!proto || c.pro == fields[3])
  }

  /** The new record `addComm` builds for a packet of an unseen flow: one
      packet of the packet's length, keyed by the packet's flow, with no
      protocol unless grouping by protocol. */
  function AddComm(fields: seq<string>, proto: bool): (c: Comm)
    requires PacketShape(fields, proto)
    ensures c.cnt == 1 && c.siz == FrameLength(fields)
    ensures KeyOf(c, proto) == PacketKey(fields, proto)
    ensures !proto ==> c.pro == ""
  {
    Comm(1, FrameLength(fields), fields[0], fields[1], if proto then fields[3] else "")
  }

  /** No record before index k matches the packet. */
  predicate NoMatchBefore(comms: seq<Comm>, fields: seq<string>, proto: bool, k: nat)
    requires PacketShape(fields, proto)
    requires k <= |comms|
  {
    forall j :: 0 <= j < k ==> !Matches(comms[j], fields, proto)
  }

  /** Index of the first record that matches the packet, |comms| if none. */
  function FirstMatch(comms: seq<Comm>, fields: seq<string>, proto: bool): (k: nat)
    requires PacketShape(fields, proto)
    ensures k <= |comms|
    ensures NoMatchBefore(comms, fields, proto, k)
    ensures k < |comms| ==> Matches(comms[k], fields, proto)
    decreases |comms|
  {
    if |comms| == 0 then 0
    else if Matches(comms[0], fields, proto) then 0
    else
      var k := FirstMatch(comms[1..], fields, proto);
      assert forall j :: 1 <= j < k + 1 ==> comms[j] == comms[1..][j - 1];
      k + 1
  }

  /** `parseComm` as a function: scan the records in order; the first that
      matches the packet gets one more packet and the packet's length, and
      nothing else changes; with no match the packet's new record is
      appended at the end. */
  function Ingest(comms: seq<Comm>, fields: seq<string>, proto: bool): (r: seq<Comm>)
    requires PacketShape(fields, proto)
    ensures var k := FirstMatch(comms, fields, proto);
            if k < |comms| then
              r == comms[k := comms[k].(cnt := comms[k].cnt + 1, siz := comms[k].siz + FrameLength(fields))]
            else
              r == comms + [AddComm(fields, proto)]
    decreases |comms|
  {
    if |comms| == 0 then [AddComm(fields, proto)]
    else if Matches(comms[0], fields, proto) then
      [comms[0].(cnt := comms[0].cnt + 1, siz := comms[0].siz + FrameLength(fields))] + comms[1..]
    else
      [comms[0]] + Ingest(comms[1..], fields, proto)
  }

  /** `parseComm` as written: a linear scan that stops at the first match,
      and an append when the scan found none (or the table was empty). */
  method ParseComm(comms: seq<Comm>, fields: seq<string>, proto: bool) returns (r: seq<Comm>)
    requires PacketShape(fields, proto)
    ensures r == Ingest(comms, fields, proto)
  {
    var seen := false;
    r := comms;
    if |comms| > 0 {
      var i := 0;
      while i < |comms|
        invariant 0 <= i <= |comms|
        invariant NoMatchBefore(comms, fields, proto, i)
        invariant !seen && r == comms
      {
        if Matches(comms[i], fields, proto) {
          r := comms[i := comms[i].(cnt := comms[i].cnt + 1, siz := comms[i].siz + FrameLength(fields))];
          seen := true;
          assert FirstMatch(comms, fields, proto) == i;
          break;
        }
        i := i + 1;
      }
    }
    if !seen {
      assert FirstMatch(comms, fields, proto) == |comms|;
      r := comms + [AddComm(fields, proto)];
    }
  }

  /** Sum of the packet counts of the records. */
  function TotalCnt(comms: seq<Comm>): nat
    decreases |comms|
  {
    if |comms| == 0 then 0 else comms[0].cnt + TotalCnt(comms[1..])
  }

  /** Sum of the byte counts of the records. */
  function TotalSiz(comms: seq<Comm>): nat
    decreases |comms|
  {
    if |comms| == 0 then 0 else comms[0].siz + TotalSiz(comms[1..])
  }

  /** Every packet is counted once: one packet more in total, and exactly
      its length more bytes in total. */
  lemma {:induction false} IngestTotals(comms: seq<Comm>, fields: seq<string>, proto: bool)
    requires PacketShape(fields, proto)
    ensures TotalCnt(Ingest(comms, fields, proto)) == TotalCnt(comms) + 1
    ensures TotalSiz(Ingest(comms, fields, proto)) == TotalSiz(comms) + FrameLength(fields)
    decreases |comms|
  {
    var r := Ingest(comms, fields, proto);
    if |comms| == 0 {
      assert r == [AddComm(fields, proto)];
      assert r[1..] == [];
    } else if Matches(comms[0], fields, proto) {
      assert r[1..] == comms[1..];
    } else {
      assert r[1..] == Ingest(comms[1..], fields, proto);
      IngestTotals(comms[1..], fields, proto);
    }
  }

  /** No two records belong to the same flow. */
  predicate KeysUnique(comms: seq<Comm>, proto: bool) {
    forall i, j :: 0 <= i < j < |comms| ==> KeyOf(comms[i], proto) != KeyOf(comms[j], proto)
  }

  /** The invariant of the table: one record per flow, every record has
      seen at least one packet, and records carry no protocol unless
      grouping by protocol. */
  predicate Valid(comms: seq<Comm>, proto: bool) {
    && KeysUnique(comms, proto)
    && forall i :: 0 <= i < |comms| ==> comms[i].cnt >= 1 && (proto || comms[i].pro == "")
  }

  /** The flows the table holds records for. */
  function KeySet(comms: seq<Comm>, proto: bool): set<Key> {
    set i | 0 <= i < |comms| :: KeyOf(comms[i], proto)
  }

  /** A packet adds its own flow to the table's flows, and no other. */
  lemma IngestKeys(comms: seq<Comm>, fields: seq<string>, proto: bool)
    requires PacketShape(fields, proto)
    ensures KeySet(Ingest(comms, fields, proto), proto) == KeySet(comms, proto) + {PacketKey(fields, proto)}
  {
    var r := Ingest(comms, fields, proto);
    var k := FirstMatch(comms, fields, proto);
    var pk := PacketKey(fields, proto);
    if k < |comms| {
      assert KeyOf(comms[k], proto) == pk;
      SameKeys(comms, r, proto);
    } else {
      var n := |comms|;
      assert r[..n] == comms;
      assert KeyOf(r[n], proto) == pk;
      KeySetLast(r, proto);
    }
  }

  /** Tables whose records have the same keys, position by position, have
      the same flows. */
  lemma SameKeys(a: seq<Comm>, b: seq<Comm>, proto: bool)
    requires |a| == |b|
    requires forall i :: 0 <= i < |a| ==> KeyOf(a[i], proto) == KeyOf(b[i], proto)
    ensures KeySet(a, proto) == KeySet(b, proto)
  {
    forall x | x in KeySet(a, proto) ensures x in KeySet(b, proto) {
      var i :| 0 <= i < |a| && KeyOf(a[i], proto) == x;
    }
    forall x | x in KeySet(b, proto) ensures x in KeySet(a, proto) {
      var i :| 0 <= i < |b| && KeyOf(b[i], proto) == x;
    }
  }

  /** The flows of a table are those of all but its last record, plus
      the last record's flow. */
  lemma KeySetLast(comms: seq<Comm>, proto: bool)
    requires |comms| > 0
    ensures KeySet(comms, proto) == KeySet(comms[..|comms| - 1], proto) + {KeyOf(comms[|comms| - 1], proto)}
  {
    var init := comms[..|comms| - 1];
    assert forall i :: 0 <= i < |init| ==> init[i] == comms[i];
  }

  /** A table with one record per flow keeps one record per flow. */
  lemma IngestValid(comms: seq<Comm>, fields: seq<string>, proto: bool)
    requires PacketShape(fields, proto)
    requires Valid(comms, proto)
    ensures Valid(Ingest(comms, fields, proto), proto)
  {
    var r := Ingest(comms, fields, proto);
    var k := FirstMatch(comms, fields, proto);
    if k < |comms| {
      assert forall i :: 0 <= i < |comms| ==> KeyOf(r[i], proto) == KeyOf(comms[i], proto);
    } else {
      var pk := PacketKey(fields, proto);
      assert forall i :: 0 <= i < |comms| ==> r[i] == comms[i];
      assert KeyOf(r[|comms|], proto) == pk;
      assert forall i :: 0 <= i < |comms| ==> KeyOf(comms[i], proto) != pk;
    }
  }
}
