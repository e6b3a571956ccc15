/** The body of `main` once the options are parsed: every producer line is
    split and folded into the table, and the table is ranked. The producer
    itself is not modelled; its output lines are the input here. */
module Pcomms {
  import opened Decimal
  import opened LineSplit
  import opened Comms
  import opened Aggregation
  import opened Ranking
  import Args

  /** The fields of every line. */
  function Rows(lines: seq<string>): (rows: seq<seq<string>>)
    ensures |rows| == |lines|
    ensures forall i :: 0 <= i < |lines| ==> rows[i] == Split(lines[i])
  {
    seq(|lines|, i requires 0 <= i < |lines| => Split(lines[i]))
  }

  /** A line as the producer writes it for the chosen columns: one value
      per column, none holding a comma (one occurrence per field, comma as
      separator), the frame length written in decimal. Splitting it gives
      back the values, in exactly the shape `parseComm` relies on, and the
      length `parseComm` reads is the length the producer wrote. */
  lemma ProducerLine(values: seq<string>, len: nat, proto: bool)
    requires |values| == |Args.Columns(proto)|
    requires CommaFreeAll(values)
    requires values[2] == Show(len)
    ensures Split(Join(values)) == values
    ensures PacketShape(Split(Join(values)), proto)
    ensures FrameLength(Split(Join(values))) == len
  {
    SplitJoin(values);
  }

  /** The read loop of `main`: split each line and fold it into the table.
      The result is the table of the whole stream, one record per flow,
      with one packet counted per line. */
  method Tally(lines: seq<string>, proto: bool) returns (comms: seq<Comm>)
    requires AllShaped(Rows(lines), proto)
    ensures comms == Aggregate(Rows(lines), proto)
    ensures Valid(comms, proto)
    ensures TotalCnt(comms) == |lines|
  {
    var rows := Rows(lines);
    comms := [];
    var n := 0;
    while n < |lines|
      invariant 0 <= n <= |lines|
      invariant AllShaped(rows[..n], proto)
      invariant comms == Aggregate(rows[..n], proto)
    {
      var fields := SplitLine(lines[n]);
      AggregatePrefix(rows, n, proto);
      comms := ParseComm(comms, fields, proto);
      n := n + 1;
    }
    assert rows[..|lines|] == rows;
    AggregateTotals(rows, proto);
  }

  /** `main` from the first line read to the table printed: the printed
      records are exactly the records of the stream's table, ranked by
      packets or by bytes, and each is its flow's traffic. */
  method Report(lines: seq<string>, proto: bool, byBytes: bool) returns (table: seq<Comm>)
    requires AllShaped(Rows(lines), proto)
    ensures multiset(table) == multiset(Aggregate(Rows(lines), proto))
    ensures Ranked(table, byBytes)
    ensures forall i :: 0 <= i < |table| ==>
              table[i].cnt == Count(Rows(lines), KeyOf(table[i], proto), proto) &&
              table[i].siz == Bytes(Rows(lines), KeyOf(table[i], proto), proto)
  {
    var comms := Tally(lines, proto);
    table := Rank(comms, byBytes);
    AggregatePerFlow(Rows(lines), proto);
    forall i | 0 <= i < |table|
      ensures table[i].cnt == Count(Rows(lines), KeyOf(table[i], proto), proto)
      ensures table[i].siz == Bytes(Rows(lines), KeyOf(table[i], proto), proto)
    {
      assert table[i] in multiset(comms);
      var j :| 0 <= j < |comms| && comms[j] == table[i];
    }
  }

  /** The byte lengths of the example lines. */
  lemma ExampleLengths()
    ensures IsNumeral("100") && NumeralValue("100") == 100
    ensures IsNumeral("50") && NumeralValue("50") == 50
    ensures IsNumeral("10") && NumeralValue("10") == 10
  {
    assert "100"[..2] == "10" && "10"[..1] == "1" && "1"[..0] == "";
    assert "50"[..1] == "5" && "5"[..0] == "";
  }

  /** Three packets, A to B twice and A to C once, not grouped by protocol:
      two flows, A to B with two packets and 150 bytes first. */
  lemma ScenarioWithoutProtocol()
    ensures var rows := [["A", "B", "100"], ["A", "B", "50"], ["A", "C", "10"]];
            && AllShaped(rows, false)
            && Aggregate(rows, false) == [Comm(2, 150, "A", "B", ""), Comm(1, 10, "A", "C", "")]
            && Rank(Aggregate(rows, false), false) == Aggregate(rows, false)
  {
    var rows := [["A", "B", "100"], ["A", "B", "50"], ["A", "C", "10"]];
    ExampleLengths();
    assert AllShaped(rows, false) by {
      assert PacketShape(rows[0], false) && PacketShape(rows[1], false) && PacketShape(rows[2], false);
    }
    assert rows[..2][..1] == rows[..1];
    assert rows[..1][..0] == [];
    assert Aggregate(rows[..1], false) == [Comm(1, 100, "A", "B", "")];
    assert Aggregate(rows[..2], false) == [Comm(2, 150, "A", "B", "")];
    var agg := [Comm(2, 150, "A", "B", ""), Comm(1, 10, "A", "C", "")];
    assert Aggregate(rows, false) == agg;
    RankExample();
  }

  /** The example table is already ranked by packets. */
  lemma RankExample()
    ensures var agg := [Comm(2, 150, "A", "B", ""), Comm(1, 10, "A", "C", "")];
            Rank(agg, false) == agg
  {
    var agg := [Comm(2, 150, "A", "B", ""), Comm(1, 10, "A", "C", "")];
    assert agg[1..] == [Comm(1, 10, "A", "C", "")];
    assert Rank(agg[1..], false) == agg[1..];
  }

  /** Whatever order std::sort leaves, the example table comes out the
      same: A to B with two packets first, then A to C. Any ranking by
      packets of those two records is this one. */
  lemma ScenarioAnySort(t: seq<Comm>)
    requires multiset(t) == multiset([Comm(2, 150, "A", "B", ""), Comm(1, 10, "A", "C", "")])
    requires Ranked(t, false)
    ensures t == [Comm(2, 150, "A", "B", ""), Comm(1, 10, "A", "C", "")]
  {
    var agg := [Comm(2, 150, "A", "B", ""), Comm(1, 10, "A", "C", "")];
    RankExample();
    RankingUnique(t, agg, false);
    assert |t| == |multiset(t)| == 2;
    assert Metrics(t, false)[0] == 2 && Metrics(t, false)[1] == 1;
    assert t[0] in multiset(agg) && t[1] in multiset(agg);
  }

  /** Two packets between the same hosts with different protocols are two
      flows when grouping by protocol, and one flow when not. */
  lemma ProtocolSeparates()
    ensures var rows := [["A", "B", "100", "TCP"], ["A", "B", "50", "UDP"]];
            && AllShaped(rows, true)
            && Aggregate(rows, true) == [Comm(1, 100, "A", "B", "TCP"), Comm(1, 50, "A", "B", "UDP")]
            && Aggregate(rows, false) == [Comm(2, 150, "A", "B", "")]
  {
    var rows := [["A", "B", "100", "TCP"], ["A", "B", "50", "UDP"]];
    ExampleLengths();
    assert rows[..1][..0] == [];
    assert Aggregate(rows[..1], true) == [Comm(1, 100, "A", "B", "TCP")];
    assert Aggregate(rows[..1], false) == [Comm(1, 100, "A", "B", "")];
  }
}
