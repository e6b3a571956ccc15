/** Command-line parsing: `parseArgs` reads the options left to right,
    builds the producer command, and says whether to group by protocol
    and whether to rank by bytes. Whether a file exists is asked of the
    file system; here that answer is a parameter. */
module Args {
  import Sequences

  datatype Option<T> = None | Some(value: T)

  /** What `parseArgs` hands back to `main` on success. */
  datatype Options = Options(cmd: string, proto: bool, byBytes: bool)

  /** The start of the producer command, before the input file names. */
  const Tshark: string := "tshark -r "

  const ProtocolColumn: string := "_ws.col.Protocol"

  /** The columns the producer is asked for, in output order. */
  function Columns(proto: bool): (cols: seq<string>)
    ensures |cols| == if proto then 4 else 3
    ensures cols[2] == "frame.len"
    ensures ProtocolColumn in cols <==> proto
  {
    ["ip.src", "ip.dst", "frame.len"] + (if proto then [ProtocolColumn] else [])
  }

  /** One `-e` option per column. */
  function ExtractArgs(cols: seq<string>): string
    decreases |cols|
  {
    if |cols| == 0 then "" else " -e " + cols[0] + ExtractArgs(cols[1..])
  }

  /** The producer options `parseArgs` appends after the file names: the
      chosen columns, one value per column, comma-separated, first
      occurrence only. With the protocol column this reads
      " -T fields -e ip.src -e ip.dst -e frame.len -e _ws.col.Protocol -E separator=, -E occurrence=f",
      without it the same less the protocol column. */
  function FieldArgs(proto: bool): string {
    " -T fields" + ExtractArgs(Columns(proto)) + " -E separator=, -E occurrence=f"
  }

  /** How the scan in `parseArgs` reads one word. */
  datatype Kind = ProtoOpt | BytesOpt | FileOpt | HelpOpt | NotAnOption

  function Classify(a: string): Kind {
    if a == "-p" then ProtoOpt
    else if a == "-b" || a == "--bytes" then BytesOpt
    else if a == "-f" || a == "--file" then FileOpt
    else if a == "-h" || a == "--help" then HelpOpt
    else NotAnOption
  }

  /** An option as the scan in `parseArgs` reads it; any other word is
      passed over. A file option takes the next word as its operand, if
      there is one. */
  datatype Word = ProtoFlag | BytesFlag | HelpFlag | FileFlag(operand: Option<string>)

  /** The options read from position i on. */
  function Words(argv: seq<string>, i: nat): seq<Word>
    decreases |argv| - i
  {
    if i >= |argv| then []
    else
      match Classify(argv[i])
      case ProtoOpt => [ProtoFlag] + Words(argv, i + 1)
      case BytesOpt => [BytesFlag] + Words(argv, i + 1)
      case FileOpt =>
        if i + 1 < |argv| then [FileFlag(Some(argv[i + 1]))] + Words(argv, i + 2)
        else [FileFlag(None)]
      case HelpOpt => [HelpFlag] + Words(argv, i + 1)
      case NotAnOption => Words(argv, i + 1)
  }

  /** A file option without an operand, or naming a file that does not exist. */
  predicate BadFile(w: Word, fileExists: string -> bool) {
    w.FileFlag? && (w.operand.None? || !fileExists(w.operand.value))
  }

  /** The options make `parseArgs` give up: help was asked for, or a file
      option is bad. */
  predicate Rejects(ws: seq<Word>, fileExists: string -> bool) {
    HelpFlag in ws || exists w :: w in ws && BadFile(w, fileExists)
  }

  /** The file operands, concatenated as `parseArgs` appends them. */
  function Operands(ws: seq<Word>): string
    decreases |ws|
  {
    if |ws| == 0 then ""
    else (if ws[0].FileFlag? && ws[0].operand.Some? then ws[0].operand.value else "") + Operands(ws[1..])
  }

  lemma OperandsAppend(ws: seq<Word>, w: Word)
    ensures Operands(ws + [w]) == Operands(ws) + Operands([w])
    decreases |ws|
  {
    if |ws| > 0 {
      assert (ws + [w])[1..] == ws[1..] + [w];
      OperandsAppend(ws[1..], w);
    } else {
      assert ws + [w] == [w];
    }
  }

  /** Reading one more option. */
  lemma ReadOne(read: seq<Word>, w: Word, fileExists: string -> bool)
    ensures Rejects(read + [w], fileExists) <==> Rejects(read, fileExists) || w == HelpFlag || BadFile(w, fileExists)
    ensures ProtoFlag in read + [w] <==> ProtoFlag in read || w == ProtoFlag
    ensures BytesFlag in read + [w] <==> BytesFlag in read || w == BytesFlag
    ensures Operands(read + [w]) == Operands(read) + (if w.FileFlag? && w.operand.Some? then w.operand.value else "")
  {
    OperandsAppend(read, w);
    assert [w][1..] == [];
    assert forall x :: x in read + [w] <==> x in read || x == w;
  }

  /** `parseArgs`: fewer than three words is a failure; then the options
      are read left to right, and the first help option or bad file option
      ends it with a failure. On success grouping by protocol is on
      exactly when -p was read, ranking by bytes exactly when -b or
      --bytes was read, and the command names the file operands followed
      by the producer options for the chosen columns. */
  method ParseArgs(argv: seq<string>, fileExists: string -> bool) returns (r: Option<Options>)
    ensures r.None? <==> |argv| < 3 || Rejects(Words(argv, 1), fileExists)
    ensures r.Some? ==>
              && r.value.proto == (ProtoFlag in Words(argv, 1))
              && r.value.byBytes == (BytesFlag in Words(argv, 1))
              && r.value.cmd == Tshark + Operands(Words(argv, 1)) + FieldArgs(r.value.proto)
  {
    if |argv| < 3 {
      return None;
    }
    var cmd := Tshark;
    var proto, sort := false, false;
    var i := 1;
    ghost var read: seq<Word> := [];
    ghost var rest: seq<Word> := Words(argv, 1);
    while i < |argv|
      invariant Scanned(argv, i, read, rest, cmd, proto, sort, fileExists)
      decreases |argv| - i
    {
      match Classify(argv[i]) {
        case ProtoOpt =>
          FlagStep(argv, i, read, rest, cmd, proto, sort, fileExists);
          proto := true;
          read, rest := read + [ProtoFlag], rest[1..];
        case BytesOpt =>
          FlagStep(argv, i, read, rest, cmd, proto, sort, fileExists);
          sort := true;
          read, rest := read + [BytesFlag], rest[1..];
        case FileOpt =>
          if i + 1 < |argv| && fileExists(argv[i + 1]) {
            FileStep(argv, i, read, rest, cmd, proto, sort, fileExists);
            i := i + 1;
            cmd := cmd + argv[i];
            read, rest := read + [FileFlag(Some(argv[i]))], rest[1..];
          } else {
            StopStep(argv, i, read, rest, cmd, proto, sort, fileExists);
            return None;
          }
        case HelpOpt =>
          StopStep(argv, i, read, rest, cmd, proto, sort, fileExists);
          return None;
        case NotAnOption =>
      }
      i := i + 1;
    }
    assert rest == [] && read + [] == read;
    cmd := cmd + FieldArgs(proto);
    return Some(Options(cmd, proto, sort));
  }

  /** The state of the scan in `parseArgs` before the word at i: the
      options read so far followed by those still to come make up all the
      options, none of those read rejects, and the flags and the command
      reflect exactly what was read. */
  ghost predicate Scanned(argv: seq<string>, i: nat, read: seq<Word>, rest: seq<Word>,
                          cmd: string, proto: bool, sort: bool, fileExists: string -> bool)
  {
    && 1 <= i <= |argv|
    && rest == Words(argv, i)
    && Words(argv, 1) == read + rest
    && !Rejects(read, fileExists)
    && proto == (ProtoFlag in read) && sort == (BytesFlag in read)
    && cmd == Tshark + Operands(read)
  }

  /** Reading -p, -b or --bytes sets its flag and moves on one word. */
  lemma FlagStep(argv: seq<string>, i: nat, read: seq<Word>, rest: seq<Word>,
                 cmd: string, proto: bool, sort: bool, fileExists: string -> bool)
    requires Scanned(argv, i, read, rest, cmd, proto, sort, fileExists) && i < |argv|
    requires Classify(argv[i]) == ProtoOpt || Classify(argv[i]) == BytesOpt
    ensures Classify(argv[i]) == ProtoOpt ==>
              Scanned(argv, i + 1, read + [ProtoFlag], rest[1..], cmd, true, sort, fileExists)
    ensures Classify(argv[i]) == BytesOpt ==>
              Scanned(argv, i + 1, read + [BytesFlag], rest[1..], cmd, proto, true, fileExists)
  {
    var w := if Classify(argv[i]) == ProtoOpt then ProtoFlag else BytesFlag;
    assert rest == [w] + Words(argv, i + 1);
    ReadOne(read, w, fileExists);
    Sequences.Regroup(read, w, rest[1..]);
    assert Operands(read) + "" == Operands(read);
  }

  /** Reading a file option whose operand exists appends the operand to
      the command and moves on two words. */
  lemma FileStep(argv: seq<string>, i: nat, read: seq<Word>, rest: seq<Word>,
                 cmd: string, proto: bool, sort: bool, fileExists: string -> bool)
    requires Scanned(argv, i, read, rest, cmd, proto, sort, fileExists) && i + 1 < |argv|
    requires Classify(argv[i]) == FileOpt && fileExists(argv[i + 1])
    ensures Scanned(argv, i + 2, read + [FileFlag(Some(argv[i + 1]))], rest[1..],
                    cmd + argv[i + 1], proto, sort, fileExists)
  {
    var w := FileFlag(Some(argv[i + 1]));
    assert rest == [w] + Words(argv, i + 2);
    ReadOne(read, w, fileExists);
    Sequences.Regroup(read, w, rest[1..]);
    assert Tshark + Operands(read) + argv[i + 1] == Tshark + (Operands(read) + argv[i + 1]);
  }

  /** A help option, or a file option without an existing operand, is
      among the options, so the whole command line is rejected. */
  lemma StopStep(argv: seq<string>, i: nat, read: seq<Word>, rest: seq<Word>,
                 cmd: string, proto: bool, sort: bool, fileExists: string -> bool)
    requires Scanned(argv, i, read, rest, cmd, proto, sort, fileExists) && i < |argv|
    requires Classify(argv[i]) == HelpOpt ||
             (Classify(argv[i]) == FileOpt && !(i + 1 < |argv| && fileExists(argv[i + 1])))
    ensures Rejects(Words(argv, 1), fileExists)
  {
    var w := if Classify(argv[i]) == HelpOpt then HelpFlag
             else if i + 1 < |argv| then FileFlag(Some(argv[i + 1]))
             else FileFlag(None);
    assert rest[0] == w;
    assert w in Words(argv, 1);
  }

  /** With no file option among the words, the options are just the flags
      that appear: grouping by protocol is asked for exactly when -p is
      among the words. */
  lemma {:induction false} ProtoWithoutFiles(argv: seq<string>, i: nat)
    requires i <= |argv|
    requires forall k :: i <= k < |argv| ==> argv[k] != "-f" && argv[k] != "--file"
    ensures ProtoFlag in Words(argv, i) <==> "-p" in argv[i..]
    ensures BytesFlag in Words(argv, i) <==> "-b" in argv[i..] || "--bytes" in argv[i..]
    ensures HelpFlag in Words(argv, i) <==> "-h" in argv[i..] || "--help" in argv[i..]
    decreases |argv| - i
  {
    if i < |argv| {
      assert argv[i..] == [argv[i]] + argv[i + 1..];
      ProtoWithoutFiles(argv, i + 1);
    }
  }

  /** No file option is needed: any three words without help or file
      options are accepted, and the command then names no input file. */
  lemma NoFileAccepted(fileExists: string -> bool)
    ensures var argv := ["pcomms", "-p", "-b"];
            && !Rejects(Words(argv, 1), fileExists)
            && Operands(Words(argv, 1)) == ""
            && ProtoFlag in Words(argv, 1) && BytesFlag in Words(argv, 1)
  {
    var argv := ["pcomms", "-p", "-b"];
    assert Words(argv, 3) == [];
    assert Words(argv, 2) == [BytesFlag];
    assert Words(argv, 1) == [ProtoFlag, BytesFlag];
    assert [ProtoFlag, BytesFlag][1..] == [BytesFlag];
    assert Operands([BytesFlag]) == "";
  }
}
