/** Ranking the table before printing: `std::sort` with `compareCnt`, or
    with `compareSiz` when sorting by bytes. */
module Ranking {
  import opened Comms
  import Sequences

  /** `compareCnt`: a ranks before b when it has more packets. */
  predicate CompareCnt(a: Comm, b: Comm) {
    a.cnt > b.cnt
  }

  /** `compareSiz`: a ranks before b when it has more bytes. */
  predicate CompareSiz(a: Comm, b: Comm) {
    a.siz > b.siz
  }

  /** The comparator `main` hands to std::sort. */
  predicate Before(a: Comm, b: Comm, byBytes: bool) {
    if byBytes then CompareSiz(a, b) else CompareCnt(a, b)
  }

  /** The quantity a record is ranked by. */
  function Metric(c: Comm, byBytes: bool): nat {
    if byBytes then c.siz else c.cnt
  }

  /** The comparator is a strict weak ordering, as std::sort requires:
      irreflexive, transitive, and records that neither ranks before the
      other (equal metric) are interchangeable. */
  lemma StrictWeakOrder(byBytes: bool)
    ensures forall a :: !Before(a, a, byBytes)
    ensures forall a, b, c :: Before(a, b, byBytes) && Before(b, c, byBytes) ==> Before(a, c, byBytes)
    ensures forall a, b :: !Before(a, b, byBytes) && !Before(b, a, byBytes) <==> Metric(a, byBytes) == Metric(b, byBytes)
  {
  }

  /** Sorted in the sense of std::sort: no record ranks before one that
      precedes it. */
  predicate Ranked(s: seq<Comm>, byBytes: bool) {
    forall i, j :: 0 <= i < j < |s| ==> !Before(s[j], s[i], byBytes)
  }

  /** A record that no head of a ranked sequence ranks before can lead it. */
  lemma RankedCons(h: Comm, s: seq<Comm>, byBytes: bool)
    requires Ranked(s, byBytes)
    requires |s| > 0 ==> !Before(s[0], h, byBytes)
    ensures Ranked([h] + s, byBytes)
  {
    var r := [h] + s;
    forall i, j | 0 <= i < j < |r|
      ensures !Before(r[j], r[i], byBytes)
    {
      if i == 0 {
        assert r[j] == s[j - 1];
        assert !Before(s[j - 1], s[0], byBytes) || j == 1;
      } else {
        assert r[i] == s[i - 1] && r[j] == s[j - 1];
      }
    }
  }

  /** Insert a record into a ranked sequence, after every record that
      ranks before it. */
  function Insert(c: Comm, s: seq<Comm>, byBytes: bool): (r: seq<Comm>)
    requires Ranked(s, byBytes)
    ensures multiset(r) == multiset(s) + multiset{c}
    ensures Ranked(r, byBytes)
    ensures |r| > 0 && (r[0] == c || (|s| > 0 && r[0] == s[0]))
    decreases |s|
  {
    if |s| == 0 then [c]
    else if Before(s[0], c, byBytes) then
      RankedSlice(s, 1, |s|, byBytes);
      var rest := Insert(c, s[1..], byBytes);
      InsertBehind(c, s, rest, byBytes);
      [s[0]] + rest
    else
      RankedCons(c, s, byBytes);
      [c] + s
  }

  /** A record that the head ranks before goes behind the head. */
  lemma InsertBehind(c: Comm, s: seq<Comm>, rest: seq<Comm>, byBytes: bool)
    requires Ranked(s, byBytes) && |s| > 0 && Before(s[0], c, byBytes)
    requires Ranked(rest, byBytes) && multiset(rest) == multiset(s[1..]) + multiset{c}
    requires |rest| > 0 && (rest[0] == c || (|s| > 1 && rest[0] == s[1..][0]))
    ensures multiset([s[0]] + rest) == multiset(s) + multiset{c}
    ensures Ranked([s[0]] + rest, byBytes)
  {
    assert s == [s[0]] + s[1..];
    assert |s| > 1 ==> !Before(s[1], s[0], byBytes);
    RankedCons(s[0], rest, byBytes);
  }

  /** The sort choice of `main`: the table reordered so that packet counts
      (or byte counts when sorting by bytes) never increase. The records
      are the same records; the order among equal metrics is this model's
      own (std::sort leaves it unspecified). */
  function Rank(comms: seq<Comm>, byBytes: bool): (r: seq<Comm>)
    ensures multiset(r) == multiset(comms)
    ensures Ranked(r, byBytes)
    decreases |comms|
  {
    if |comms| == 0 then []
    else
      assert comms == [comms[0]] + comms[1..];
      Insert(comms[0], Rank(comms[1..], byBytes), byBytes)
  }

  /** The metrics of a sequence, in order. */
  function Metrics(s: seq<Comm>, byBytes: bool): (m: seq<nat>)
    ensures |m| == |s|
    ensures forall i :: 0 <= i < |s| ==> m[i] == Metric(s[i], byBytes)
  {
    seq(|s|, i requires 0 <= i < |s| => Metric(s[i], byBytes))
  }

  lemma RankedSlice(s: seq<Comm>, lo: nat, hi: nat, byBytes: bool)
    requires Ranked(s, byBytes) && lo <= hi <= |s|
    ensures Ranked(s[lo..hi], byBytes)
  {
    assert forall i :: 0 <= i < hi - lo ==> s[lo..hi][i] == s[lo + i];
  }

  lemma RankedRemove(t: seq<Comm>, j: nat, byBytes: bool)
    requires Ranked(t, byBytes) && j < |t|
    ensures Ranked(t[..j] + t[j + 1..], byBytes)
  {
    var u := t[..j] + t[j + 1..];
    assert forall i :: 0 <= i < |u| ==> u[i] == t[if i < j then i else i + 1];
  }

  /** The head of s sits somewhere in any t with the same records, and
      what remains of the two again holds the same records. */
  lemma MatchHead(s: seq<Comm>, t: seq<Comm>) returns (j: nat)
    requires multiset(s) == multiset(t) && |s| > 0
    ensures j < |t| && t[j] == s[0]
    ensures multiset(s[1..]) == multiset(t[..j] + t[j + 1..])
  {
    assert s[0] in multiset(t);
    j :| 0 <= j < |t| && t[j] == s[0];
    Sequences.RemoveMatching(s, 0, t, j);
    assert s[..0] + s[1..] == s[1..];
  }

  /** Two rankings of the same records lead with the same metric. */
  lemma HeadsAgree(s: seq<Comm>, t: seq<Comm>, byBytes: bool)
    requires multiset(s) == multiset(t) && |s| > 0
    requires Ranked(s, byBytes) && Ranked(t, byBytes)
    ensures |t| > 0 && Metric(s[0], byBytes) == Metric(t[0], byBytes)
  {
    assert s[0] in multiset(t);
    assert t[0] in multiset(s);
  }

  /** In a ranked sequence, a record between two of equal metric shares it. */
  lemma Plateau(t: seq<Comm>, p: nat, j: nat, byBytes: bool)
    requires Ranked(t, byBytes) && p <= j < |t|
    requires Metric(t[j], byBytes) == Metric(t[0], byBytes)
    ensures Metric(t[p], byBytes) == Metric(t[0], byBytes)
  {
    if 0 < p {
      assert !Before(t[p], t[0], byBytes);
    }
    if p < j {
      assert !Before(t[j], t[p], byBytes);
    }
  }

  /** Taking out a record that shares the leading metric leaves the
      metric column unchanged after its head. */
  lemma RemoveFromPlateau(t: seq<Comm>, j: nat, byBytes: bool)
    requires Ranked(t, byBytes) && j < |t|
    requires Metric(t[j], byBytes) == Metric(t[0], byBytes)
    ensures Metrics(t, byBytes) == [Metric(t[0], byBytes)] + Metrics(t[..j] + t[j + 1..], byBytes)
  {
    var t' := t[..j] + t[j + 1..];
    var lhs := Metrics(t, byBytes);
    var rhs := [Metric(t[0], byBytes)] + Metrics(t', byBytes);
    forall p | 0 <= p < |t|
      ensures lhs[p] == rhs[p]
    {
      if 0 < p <= j {
        Plateau(t, p, j, byBytes);
        Plateau(t, p - 1, j, byBytes);
        assert t'[p - 1] == t[p - 1];
      } else if p > j {
        assert t'[p - 1] == t[p];
      }
    }
  }

  /** The metric column of a non-empty sequence: its head's metric, then
      the column of the rest. */
  lemma MetricsHead(s: seq<Comm>, byBytes: bool)
    requires |s| > 0
    ensures Metrics(s, byBytes) == [Metric(s[0], byBytes)] + Metrics(s[1..], byBytes)
  {
    assert forall i :: 1 <= i < |s| ==> s[1..][i - 1] == s[i];
  }

  /** Peeling the head off two rankings of the same records: what remains
      are again two rankings of the same records, and if those agree on
      the metric column then so do the whole sequences. */
  lemma PeelHead(s: seq<Comm>, t: seq<Comm>, byBytes: bool) returns (t': seq<Comm>)
    requires multiset(s) == multiset(t) && |s| > 0
    requires Ranked(s, byBytes) && Ranked(t, byBytes)
    ensures multiset(s[1..]) == multiset(t')
    ensures Ranked(s[1..], byBytes) && Ranked(t', byBytes)
    ensures Metrics(s[1..], byBytes) == Metrics(t', byBytes) ==> Metrics(s, byBytes) == Metrics(t, byBytes)
  {
    var j := MatchHead(s, t);
    t' := t[..j] + t[j + 1..];
    RankedSlice(s, 1, |s|, byBytes);
    RankedRemove(t, j, byBytes);
    PeelMetrics(s, t, j, byBytes);
  }

  /** The metric half of `PeelHead`. */
  lemma PeelMetrics(s: seq<Comm>, t: seq<Comm>, j: nat, byBytes: bool)
    requires multiset(s) == multiset(t) && |s| > 0
    requires Ranked(s, byBytes) && Ranked(t, byBytes)
    requires j < |t| && t[j] == s[0]
    ensures Metrics(s[1..], byBytes) == Metrics(t[..j] + t[j + 1..], byBytes) ==> Metrics(s, byBytes) == Metrics(t, byBytes)
  {
    HeadsAgree(s, t, byBytes);
    RemoveFromPlateau(t, j, byBytes);
    MetricsHead(s, byBytes);
  }

  /** Any two rankings of the same records agree on the metric at every
      position: whatever order std::sort gives equal records, the column
      of counts (or bytes) it prints is the same. */
  lemma {:induction false} RankingUnique(s: seq<Comm>, t: seq<Comm>, byBytes: bool)
    requires multiset(s) == multiset(t)
    requires Ranked(s, byBytes) && Ranked(t, byBytes)
    ensures Metrics(s, byBytes) == Metrics(t, byBytes)
    decreases |s|
  {
    assert |s| == |multiset(s)| == |t|;
    if |s| > 0 {
      var t' := PeelHead(s, t, byBytes);
      RankingUnique(s[1..], t', byBytes);
    }
  }
}
