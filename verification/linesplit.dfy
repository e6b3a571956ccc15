/** Splitting one producer line on commas, as `split` does with
    std::getline over a string stream. */
module LineSplit {
  import Sequences

  /** Number of commas in a string. */
  function CommaCount(s: string): nat
    decreases |s|
  {
    if |s| == 0 then 0
    else (if s[0] == ',' then 1 else 0) + CommaCount(s[1..])
  }

  lemma {:induction false} CommaCountAppend(a: string, b: string)
    ensures CommaCount(a + b) == CommaCount(a) + CommaCount(b)
    decreases |a|
  {
    if |a| > 0 {
      assert (a + b)[1..] == a[1..] + b;
      CommaCountAppend(a[1..], b);
    } else {
      assert a + b == b;
    }
  }

  lemma {:induction false} CommaFreeCount(s: string)
    requires ',' !in s
    ensures CommaCount(s) == 0
    decreases |s|
  {
    if |s| > 0 {
      assert s[0] != ',';
      assert forall i :: 0 <= i < |s[1..]| ==> s[1..][i] == s[i + 1];
      CommaFreeCount(s[1..]);
    }
  }

  predicate CommaFreeAll(fs: seq<string>) {
    forall i :: 0 <= i < |fs| ==> ',' !in fs[i]
  }

  /** The fields written back out with a comma between each two. */
  function Join(fs: seq<string>): string
    requires |fs| > 0
    decreases |fs|
  {
    if |fs| == 1 then fs[0] else fs[0] + "," + Join(fs[1..])
  }

  /** Index of the first comma of a string that has one. */
  function FirstComma(s: string): (k: nat)
    requires ',' in s
    ensures k < |s| && s[k] == ','
    ensures ',' !in s[..k]
    decreases |s|
  {
    if s[0] == ',' then 0
    else
      var k' := FirstComma(s[1..]);
      assert s[..k' + 1] == [s[0]] + s[1..][..k'];
      k' + 1
  }

  /** A comma at k with none before it is the first comma. */
  lemma FirstCommaAt(s: string, k: nat)
    requires k < |s| && s[k] == ',' && ',' !in s[..k]
    ensures ',' in s && FirstComma(s) == k
  {
    var j := FirstComma(s);
    assert s[..j] == s[..j];
  }

  lemma CountAroundComma(head: string, tail: string)
    requires ',' !in head
    ensures CommaCount(head + "," + tail) == CommaCount(tail) + 1
  {
    assert head + "," + tail == head + ("," + tail);
    CommaFreeCount(head);
    CommaCountAppend(head, "," + tail);
    assert ","[1..] == "";
    CommaCountAppend(",", tail);
  }

  /** The fields of a line: the text between consecutive commas. The line
      is recovered by joining them, none holds a comma, and there is one
      more field than there are commas. */
  function Split(line: string): (fields: seq<string>)
    ensures |fields| == CommaCount(line) + 1
    ensures CommaFreeAll(fields)
    ensures Join(fields) == line
    ensures line == "" ==> fields == [""]
    decreases |line|
  {
    if ',' !in line then
      CommaFreeCount(line);
      [line]
    else
      var k := FirstComma(line);
      var head, tail := line[..k], line[k + 1..];
      var rest := Split(tail);
      var fields := [head] + rest;
      assert fields[1..] == rest;
      assert line == head + "," + tail;
      CountAroundComma(head, tail);
      fields
  }

  /** Splitting at the first comma: the text before it is the first field. */
  lemma SplitAt(line: string, k: nat)
    requires k < |line| && line[k] == ',' && ',' !in line[..k]
    ensures Split(line) == [line[..k]] + Split(line[k + 1..])
  {
    FirstCommaAt(line, k);
  }

  /** The first of several comma-free fields is the first field of their
      join, and the rest of the join splits into the rest. */
  lemma JoinHead(fs: seq<string>)
    requires |fs| > 1 && ',' !in fs[0]
    ensures Split(Join(fs)) == [fs[0]] + Split(Join(fs[1..]))
  {
    var line := Join(fs);
    var tail := Join(fs[1..]);
    var k := |fs[0]|;
    assert line == fs[0] + "," + tail;
    assert line[..k] == fs[0];
    assert line[k + 1..] == tail;
    SplitAt(line, k);
  }

  /** Splitting a join of comma-free fields gives those fields back. */
  lemma {:induction false} SplitJoin(fs: seq<string>)
    requires |fs| > 0 && CommaFreeAll(fs)
    ensures Split(Join(fs)) == fs
    decreases |fs|
  {
    if |fs| == 1 {
      assert ',' !in fs[0];
    } else {
      assert ',' !in fs[0];
      JoinHead(fs);
      assert CommaFreeAll(fs[1..]) by {
        assert forall i :: 0 <= i < |fs[1..]| ==> fs[1..][i] == fs[i + 1];
      }
      SplitJoin(fs[1..]);
      assert fs == [fs[0]] + fs[1..];
    }
  }

  /** One std::getline call with ',' as delimiter: the text from `pos` up
      to the next comma, or to the end of the line when there is none. */
  method ReadField(line: string, pos: nat) returns (field: string, end: nat)
    requires pos <= |line|
    ensures pos <= end <= |line|
    ensures field == line[pos..end]
    ensures ',' !in field
    ensures end < |line| ==> line[end] == ','
  {
    field := "";
    end := pos;
    while end < |line| && line[end] != ','
      invariant pos <= end <= |line|
      invariant field == line[pos..end]
      invariant ',' !in field
    {
      assert line[pos..end + 1] == line[pos..end] + [line[end]];
      field := field + [line[end]];
      end := end + 1;
    }
  }

  /** What one getline call contributes to the split of the rest of the
      line: the field it read, followed by the split of what remains after
      the comma, if it stopped at one. */
  lemma SplitStep(line: string, pos: nat, end: nat, field: string)
    requires pos <= end <= |line|
    requires field == line[pos..end] && ',' !in field
    requires end < |line| ==> line[end] == ','
    ensures end < |line| ==> Split(line[pos..]) == [field] + Split(line[end + 1..])
    ensures end == |line| ==> Split(line[pos..]) == [field]
  {
    var rest := line[pos..];
    assert rest[..end - pos] == field;
    if end < |line| {
      assert rest[end - pos] == ',';
      SplitAt(rest, end - pos);
      assert rest[end - pos + 1..] == line[end + 1..];
    } else {
      assert rest == field;
    }
  }

  /** The loop of `split`: one getline per field. The stream reaches
      end-of-file only when a read runs into the end of the line, so a
      trailing comma yields one more, empty, field. */
  method SplitLine(line: string) returns (fields: seq<string>)
    ensures fields == Split(line)
  {
    fields := [];
    var pos := 0;
    var eof := false;
    ghost var todo := Split(line);
    assert line[0..] == line;
    while !eof
      invariant 0 <= pos <= |line|
      invariant fields + todo == Split(line)
      invariant !eof ==> todo == Split(line[pos..])
      invariant eof ==> todo == []
      decreases |line| - pos + (if eof then 0 else 1)
    {
      var field, end := ReadField(line, pos);
      SplitStep(line, pos, end, field);
      if end < |line| {
        Sequences.Regroup(fields, field, Split(line[end + 1..]));
        todo := Split(line[end + 1..]);
        pos := end + 1;
      } else {
        Sequences.Regroup(fields, field, []);
        todo := [];
        pos := end;
        eof := true;
      }
      fields := fields + [field];
    }
    assert fields + [] == fields;
  }
}
