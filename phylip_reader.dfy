/**
 A reader for the text `output_relaxed_phylip` writes: split on "\n", read a
 header, then as many record lines as the header's row count says, and repeat.
 Its lemmas show that the writer's output can be decoded back into the
 replicates it was written from.
 */
module RelaxedPhylipReader {
  import opened Wrappers
  import opened Strings
  import opened Msaboot

  /** One block read back: the column count its header states and its records. */
  datatype Block = Block(columns: int, records: Alignment)

  /** Reads `" <rows> <columns>"`. */
  function ParseHeader(line: string): Option<(nat, int)> {
    if |line| == 0 || line[0] != ' ' then None
    else
      match SplitAtFirst(line[1..], ' ')
      case None => None
      case Some((rows, columns)) =>
        match (ParseNat(rows), ParseInt(columns))
        case (Some(r), Some(c)) => Some((r, c))
        case _ => None
  }

  /** Reads `"<id> <seq>"`, splitting at the first space. */
  function ParseRecord(line: string): Option<Record> {
    match SplitAtFirst(line, ' ')
    case Some((id, sequence)) => Some(Record(id, sequence))
    case None => None
  }

  function ParseRecords(lines: seq<string>): Option<Alignment>
    decreases |lines|
  {
    if |lines| == 0 then Some([])
    else
      match (ParseRecord(lines[0]), ParseRecords(lines[1..]))
      case (Some(r), Some(rs)) => Some([r] + rs)
      case _ => None
  }

  function ParseBlocks(lines: seq<string>): Option<seq<Block>>
    decreases |lines|
  {
    if |lines| == 0 then Some([])
    else
      match ParseHeader(lines[0])
      case None => None
      case Some((rows, columns)) =>
        if |lines| - 1 < rows then None
        else
          match (ParseRecords(lines[1..1 + rows]), ParseBlocks(lines[1 + rows..]))
          case (Some(records), Some(rest)) => Some([Block(columns, records)] + rest)
          case _ => None
  }

  /** The empty text holds no block; any other text is read line by line. */
  function ParseRelaxedPhylip(text: string): Option<seq<Block>> {
    if text == "" then Some([]) else ParseBlocks(Split(text, '\n'))
  }

  /** The blocks that writing `replicates` with `seqLength` should read back as. */
  function Tagged(replicates: seq<Alignment>, seqLength: int): seq<Block> {
    seq(|replicates|, i requires 0 <= i < |replicates| => Block(seqLength, replicates[i]))
  }

  /** The header line states the row count and the column count it was given. */
  lemma ParseHeaderLine(rows: nat, seqLength: int)
    ensures ParseHeader(HeaderLine(rows, seqLength)) == Some((rows, seqLength))
  {
    var r := NatToString(rows);
    var c := IntToString(seqLength);
    assert HeaderLine(rows, seqLength)[1..] == r + [' '] + c;
    assert ' ' !in r by {
      forall k | 0 <= k < |r| ensures r[k] != ' ' { assert IsDigit(r[k]); }
    }
    SplitAtFirstAround(r, ' ', c);
    ParseNatToString(rows);
    ParseIntToString(seqLength);
  }

  /** Splitting a record line at its first space recovers the record. */
  lemma ParseRecordLine(r: Record)
    requires ' ' !in r.id
    ensures ParseRecord(RecordLine(r)) == Some(r)
  {
    assert RecordLine(r) == r.id + [' '] + r.sequence;
    SplitAtFirstAround(r.id, ' ', r.sequence);
  }

  lemma {:induction false} ParseRecordLines(alignment: Alignment)
    requires IdsWithoutSpace(alignment)
    ensures ParseRecords(RecordLines(alignment)) == Some(alignment)
    decreases |alignment|
  {
    if |alignment| > 0 {
      var lines := RecordLines(alignment);
      assert lines[0] == RecordLine(alignment[0]);
      assert lines[1..] == RecordLines(alignment[1..]);
      ParseRecordLine(alignment[0]);
      ParseRecordLines(alignment[1..]);
      assert [alignment[0]] + alignment[1..] == alignment;
    }
  }

  /** One step of the reader: a header stating `|records|` rows, those record
      lines, and the lines after them. */
  lemma ParseBlocksStep(header: string, records: seq<string>, rest: seq<string>,
                        columns: int, alignment: Alignment, blocks: seq<Block>)
    requires ParseHeader(header) == Some((|records|, columns))
    requires ParseRecords(records) == Some(alignment)
    requires ParseBlocks(rest) == Some(blocks)
    ensures ParseBlocks([header] + records + rest) == Some([Block(columns, alignment)] + blocks)
  {
    var lines := [header] + records + rest;
    assert lines[0] == header;
    assert lines[1..1 + |records|] == records;
    assert lines[1 + |records|..] == rest;
  }

  /** Reading the lines of all blocks gives each replicate back, tagged with
      the column count the header carried. */
  lemma {:induction false} ParseLines(replicates: seq<Alignment>, seqLength: int)
    requires forall i :: 0 <= i < |replicates| ==> IdsWithoutSpace(replicates[i])
    ensures ParseBlocks(Lines(replicates, seqLength)) == Some(Tagged(replicates, seqLength))
    decreases |replicates|
  {
    if |replicates| > 0 {
      var a := replicates[0];
      var header := HeaderLine(|a|, seqLength);
      var records := RecordLines(a);
      var rest := Lines(replicates[1..], seqLength);
      assert Lines(replicates, seqLength) == [header] + records + rest;
      ParseHeaderLine(|a|, seqLength);
      ParseRecordLines(a);
      ParseLines(replicates[1..], seqLength);
      ParseBlocksStep(header, records, rest, seqLength, a, Tagged(replicates[1..], seqLength));
      assert Tagged(replicates, seqLength) ==
             [Block(seqLength, a)] + Tagged(replicates[1..], seqLength);
    }
  }

  /** Round trip: when no replicate is empty and the fields keep the line
      structure, the writer's output reads back as the replicates, in order,
      each under a header stating `seqLength` columns. */
  lemma RoundTrip(replicates: seq<Alignment>, seqLength: int)
    requires forall i :: 0 <= i < |replicates| ==>
               |replicates[i]| > 0 && NewlineFree(replicates[i]) && IdsWithoutSpace(replicates[i])
    ensures ParseRelaxedPhylip(RelaxedPhylip(replicates, seqLength)) == Some(Tagged(replicates, seqLength))
  {
    if |replicates| > 0 {
      var text := RelaxedPhylip(replicates, seqLength);
      OutputLines(replicates, seqLength);
      ParseLines(replicates, seqLength);
      assert ParseRelaxedPhylip(text) == ParseBlocks(Lines(replicates, seqLength));
    } else {
      assert Tagged(replicates, seqLength) == [];
    }
  }

  /** Replicates that each pass the shape check with the same length are read
      back with every record's sequence exactly as long as its header says. */
  lemma ValidatedReplicatesMatchHeaders(replicates: seq<Alignment>, seqLength: int)
    requires forall i :: 0 <= i < |replicates| ==>
               WellShaped(replicates[i], seqLength) &&
               NewlineFree(replicates[i]) && IdsWithoutSpace(replicates[i])
    ensures var parsed := ParseRelaxedPhylip(RelaxedPhylip(replicates, seqLength));
            parsed.Some? && |parsed.value| == |replicates| &&
            forall i :: 0 <= i < |replicates| ==>
              parsed.value[i].columns == seqLength &&
              parsed.value[i].records == replicates[i] &&
              forall k :: 0 <= k < |parsed.value[i].records| ==>
                |parsed.value[i].records[k].sequence| == parsed.value[i].columns
  {
    RoundTrip(replicates, seqLength);
  }
}
