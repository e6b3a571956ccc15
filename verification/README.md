# pcomms in Dafny

pcomms reports communication statistics for a packet capture. It asks
tshark for one line per frame: source address, destination address, frame
length and, optionally, the protocol column, separated by commas. It then
folds every line into a table with one `Comm` record per flow (packet
count, byte count, source, destination, protocol). It ranks the table by
packets or by bytes and prints it.

This project models the logic of `pcomms.cpp` as pure functions over
sequences. The loops of `split`, `parseComm` and `main`'s read loop are
also written as methods. Each such method is proved equal to its function
(`Split`, `Ingest`, `Aggregate`). `parseArgs` is a method too. There is no
separate function for it. Its contract states the result in terms of
`Words`, the options read left to right, and the predicates `Rejects` and
`Operands` over them.

- `Decimal`: the numerals `std::stoi` reads as frame lengths, with the
  decimal rendering as the partner of that reading.
- `LineSplit`: `split`. It is the function `Split` plus the getline loop
  `SplitLine`, and the two are proved equal.
- `Comms`: the `Comm` record, `addComm`, and the scan of `parseComm`
  (`Ingest` / `ParseComm`). The table invariant `Valid` says one record
  per flow, and `Ingest` preserves it.
- `Aggregation`: the table after a whole stream of lines. It is
  characterised flow by flow: a record's counts are its flow's packet
  count and byte total.
- `Ranking`: `compareCnt` and `compareSiz`, and the sort choice in
  `main`.
- `Args`: `parseArgs`. The file-system question `fileExists` is a
  parameter.
- `Sequences`: generic facts about sequences: regrouping a concatenation,
  removing one element from sequences that hold the same elements, and
  sequences without repetitions.
- `Pcomms`: the read loop of `main`, the shape of a line the producer
  writes, and two worked examples.

A flow's key is its source and destination. When grouping by protocol
(`-p`), the protocol is part of the key too. Without `-p`, the protocol
of a record stays empty.

## Model

| member | source | states |
|---|---|---|
| Decimal.Show | pcomms.cpp:141 | Rendering a length in decimal gives a numeral, and reading it back gives the same length. This is the partner of the `stoi` reading, and `Pcomms.ProducerLine` uses it for the length field. |
| LineSplit.Split | pcomms.cpp:123-133 | The fields number one more than the commas, and none holds a comma. Joining them with commas gives back the line. The empty line gives one empty field. |
| LineSplit.SplitJoin | pcomms.cpp:123-133 | Splitting a comma-joined list of comma-free fields gives back exactly those fields. |
| LineSplit.SplitAt | pcomms.cpp:128-130 | The text before the first comma is the first field, and the rest of the line supplies the rest. |
| LineSplit.ReadField | pcomms.cpp:128-129 | One getline with ',' as delimiter reads the text up to the next comma or the end of the line. That text holds no comma. |
| LineSplit.SplitStep | pcomms.cpp:127-131 | One getline round adds the field it read, followed by the split of the text after the comma. At the end of the line it adds only that field. |
| LineSplit.SplitLine | pcomms.cpp:123-133 | The getline loop until end-of-file yields exactly the fields of `Split`, including the empty field after a trailing comma. |
| Comms.Matches | pcomms.cpp:107-108 | The scan's test holds exactly when the record and the packet have the same flow key. The protocol counts only when grouping by protocol. |
| Comms.AddComm | pcomms.cpp:136-144 | A new record has one packet and the packet's length, and it is keyed by the packet's flow. Its protocol is empty unless grouping by protocol. |
| Comms.FirstMatch | pcomms.cpp:105-108 | The index of the first matching record: no earlier record matches, and it is the table's length when none matches. |
| Comms.Ingest | pcomms.cpp:102-120 | If some record matches, only the first match changes: one packet more and the packet's length more bytes, and the table length is unchanged. With no match, including an empty table, the new record is appended at the end. |
| Comms.ParseComm | pcomms.cpp:102-120 | The linear scan with its early break computes `Ingest`. The loop invariant is that no record before the index matches. |
| Comms.IngestTotals | pcomms.cpp:109-110 | Each packet raises the table's total packet count by exactly one. It raises the byte total by exactly the packet's length. |
| Comms.IngestKeys | pcomms.cpp:102-119 | The table's set of flows gains the packet's flow and no other. |
| Comms.IngestValid | pcomms.cpp:102-119 | If every flow has one record, every count is positive and every protocol is empty without grouping, then this still holds after the packet. |
| Aggregation.AggregateTotals | pcomms.cpp:44-51 | After any stream the table holds one record per flow. The total packet count is the number of lines, and the total byte count is the sum of their lengths. |
| Aggregation.AggregatePerFlow | pcomms.cpp:44-51 | The table has a record for exactly the flows that occur. Each record's counts are the number of lines of its flow and their total length. |
| Aggregation.UniqueKeysCount | pcomms.cpp:102-119 | A table with one record per flow has as many records as flows. |
| Aggregation.DistinctFlows | pcomms.cpp:44-51 | The final table has as many records as there are distinct flows in the stream. |
| Aggregation.CountAppend | pcomms.cpp:44-51 | A flow's packet count and byte total over two concatenated streams are the sums over each stream. |
| Aggregation.CountRemove | pcomms.cpp:44-51 | Removing one line from a stream removes exactly that line's contribution from its flow's counts. |
| Aggregation.CountPermutation | pcomms.cpp:44-51 | A flow's packet count and byte total do not depend on the order of the lines. |
| Aggregation.OrderIndependent | pcomms.cpp:44-51 | Reordering the lines gives a table of the same size with the same records. The two tables are permutations of each other (equal multisets), so only the positions of the records may differ. |
| Aggregation.SameRecord | pcomms.cpp:44-51 | Any record of one table also appears in the table of a reordered stream. |
| Ranking.StrictWeakOrder | pcomms.cpp:146-152 | Both comparators are irreflexive and transitive, as `std::sort` requires. Two records are incomparable exactly when their metrics are equal. |
| Ranking.RankedCons | pcomms.cpp:53-56 | A record that the head of a ranked sequence does not rank before can be put in front of it. |
| Ranking.Insert | pcomms.cpp:53-56 | Inserting a record into a ranked sequence adds exactly that record, and the result is still ranked. |
| Ranking.Rank | pcomms.cpp:53-56 | The ranked table is a permutation of the table. It never increases in packets, or in bytes when sorting by bytes. |
| Ranking.MatchHead | pcomms.cpp:53-56 | The head of one arrangement of a table appears in any other arrangement. Removing it from both leaves the same records. |
| Ranking.HeadsAgree | pcomms.cpp:53-56 | Two rankings of the same records lead with the same metric. |
| Ranking.Plateau | pcomms.cpp:53-56 | In a ranked sequence, a record between two records of equal metric has that metric too. |
| Ranking.RemoveFromPlateau | pcomms.cpp:53-56 | Removing a record that shares the leading metric leaves the metric column unchanged after the head. |
| Ranking.RankingUnique | pcomms.cpp:53-56 | Any two rankings of the same records print the same column of counts (or bytes). Records with equal metrics may still come in either order. |
| Args.Columns | pcomms.cpp:93-97 | The producer is asked for three columns, or four with protocol grouping. The third column is the frame length. The protocol column is requested exactly when grouping by protocol. |
| Args.ReadOne | pcomms.cpp:76-91 | Reading one more option rejects exactly when the earlier options already rejected, or the new one is help or a bad file option. It sets protocol grouping or byte ranking only if the new option is that flag, and it appends only its own file operand. |
| Args.FlagStep | pcomms.cpp:77-80 | Reading -p sets protocol grouping, and reading -b or --bytes sets ranking by bytes. The other flag, the command and the failure state stay as they were, and the scan moves on one word. |
| Args.FileStep | pcomms.cpp:81-84 | A file option followed by an existing file appends that name to the command. It consumes the name, so the name is never read as an option. |
| Args.StopStep | pcomms.cpp:81-90 | A help option, a file option in last position, or a file option naming a nonexistent file makes the whole command line rejected. |
| Args.ParseArgs | pcomms.cpp:72-98 | Failure exactly when there are fewer than three words, or when a help option or a missing or nonexistent file operand is read. On success: grouping by protocol iff -p was read, ranking by bytes iff -b or --bytes was read, and the command is `tshark -r`, the file operands, then the producer options for the chosen columns. |
| Args.ProtoWithoutFiles | pcomms.cpp:76-90 | When no -f or --file word occurs, each flag is read exactly when its word appears among the arguments. |
| Args.NoFileAccepted | pcomms.cpp:73-98 | `pcomms -p -b` is accepted, with both flags set and no input file in the command. |
| Pcomms.ProducerLine | pcomms.cpp:94-96 | A line written for the requested columns, with comma-free values and the frame length in decimal, splits back into those values. The result has the shape `parseComm` relies on, and the length `parseComm` reads is the length that was written. |
| Pcomms.Tally | pcomms.cpp:44-51 | The read loop computes the table of the whole stream. It keeps one record per flow and counts one packet per line. |
| Pcomms.Report | pcomms.cpp:44-57 | The printed records are exactly the table's records, ranked by the chosen metric, and each carries its flow's packet count and byte total. |
| Pcomms.ScenarioWithoutProtocol | pcomms.cpp:44-56 | Two frames from A to B (100 and 50 bytes) and one from A to C (10 bytes) give two records: A to B with 2 packets and 150 bytes, ranked first. |
| Pcomms.ScenarioAnySort | pcomms.cpp:53-56 | Any ranking by packets of the example table is the same: A to B with 2 packets first, then A to C. So the order does not depend on how `std::sort` treats ties. |
| Pcomms.ProtocolSeparates | pcomms.cpp:102-119 | Frames between the same hosts with TCP and with UDP are two records when grouping by protocol. They are one record when not. |

Where the usage text and the code differ, the model follows the code:

- `-f` is described as required, but `parseArgs` only checks that there
  are at least three words. A command line with no file option is
  accepted (`Args.NoFileAccepted`).
- Several `-f` options are accepted. Their names are appended to the
  command one after another, with no separator.

## Left out

- Running tshark (`popen`, `fgets`, `pclose`) is left out (pcomms.cpp:38-52). So are the 512-byte line buffer and the newline stripping. The lines the producer writes are the model's input, newline already removed.
- `outComms` and `usage` (pcomms.cpp:59-65, 155-163) only format text for the terminal.
- `fileExists` (pcomms.cpp:66-69) calls `stat`. It is the parameter `fileExists` of `Args.ParseArgs`.
- The error message `parseArgs` writes to standard error is not modelled; only its failure result is.
- Comms.FrameLength: `std::stoi` also accepts leading whitespace, a sign and trailing junk, and it throws on non-numbers. The model only reads plain decimal numerals: `PacketShape` requires the length field to be one. The producer always writes frame.len that way. `std::stoi` also throws `std::out_of_range` for a numeral above `INT_MAX`. `NumeralValue` reads any numeral as an unbounded `nat` and has no such failure.
- Comms.PacketShape: the C++ code reads `fields[2]` and, when grouping by protocol, `fields[3]` without checking that they exist. The model requires at least three fields, and four when grouping by protocol, as the producer command guarantees (`Pcomms.ProducerLine`).
- Comm: `cnt` and `siz` are host `int` in C++, and a very large capture could overflow them. They are unbounded `nat` here.
- Ranking.Rank: `std::sort` leaves the order of equal records unspecified. `Rank` is one particular sort. Its contract promises only a ranked permutation, and `Ranking.RankingUnique` shows that every such result prints the same metric column.
- Pcomms.ProducerLine: a protocol value that itself contains a comma would be split into extra fields. That case is excluded by requiring comma-free values.
