/**
 The two hand-written parts of msaboot: the shape check that `run` makes on the
 alignment it has read, and `output_relaxed_phylip`, which writes the bootstrap
 replicates as one relaxed-PHYLIP text.
 */
module Msaboot {
  import opened Strings

  /** A sequence record of an alignment: Biopython's `record.id` and `record.seq`. */
  datatype Record = Record(id: string, sequence: string)

  /** An alignment is its records, in order. */
  type Alignment = seq<Record>

  // ---------------------------------------------------------------------------
  // Validation (the checks in `run`)
  // ---------------------------------------------------------------------------

  /** The three `ValueError`s that `run` raises. */
  datatype ValidationError = NoSequences | EmptySequences | UnequalLengths

  function Message(e: ValidationError): string {
    match e
    case NoSequences => "The input file must contain at least one sequence."
    case EmptySequences => "Non empty sequences are required"
    case UnequalLengths => "Sequences must be all the same length"
  }

  /** Each check raises its own message, so the message tells which check failed. */
  lemma MessageIdentifiesError(e1: ValidationError, e2: ValidationError)
    ensures Message(e1) == Message(e2) <==> e1 == e2
  {
    assert |Message(NoSequences)| != |Message(EmptySequences)|;
    assert |Message(NoSequences)| != |Message(UnequalLengths)|;
    assert |Message(EmptySequences)| != |Message(UnequalLengths)|;
  }

  datatype Outcome = Pass | Fail(error: ValidationError)

  /** An alignment the rest of the program may work on: at least one record,
      a positive length, and every record of exactly that length. */
  predicate WellShaped(alignment: Alignment, alignmentLength: int) {
    |alignment| > 0 && alignmentLength > 0 &&
    forall k :: 0 <= k < |alignment| ==> |alignment[k].sequence| == alignmentLength
  }

  /** The checks `run` makes, in its order, stopping at the first that fails. */
  method Validate(alignment: Alignment, alignmentLength: int) returns (outcome: Outcome)
    ensures outcome == Pass <==> WellShaped(alignment, alignmentLength)
    ensures |alignment| == 0 ==> outcome == Fail(NoSequences)
    ensures |alignment| > 0 && alignmentLength <= 0 ==> outcome == Fail(EmptySequences)
    ensures |alignment| > 0 && alignmentLength > 0 ==> outcome == Pass || outcome == Fail(UnequalLengths)
    ensures forall k :: 0 <= k < |alignment| && |alignment[k].sequence| != alignmentLength ==> outcome.Fail?
  {
    if |alignment| == 0 {
      return Fail(NoSequences);
    }
    if alignmentLength <= 0 {
      return Fail(EmptySequences);
    }
    for i := 0 to |alignment|
      invariant forall k :: 0 <= k < i ==> |alignment[k].sequence| == alignmentLength
    {
      if alignmentLength != |alignment[i].sequence| {
        return Fail(UnequalLengths);
      }
    }
    return Pass;
  }

  // ---------------------------------------------------------------------------
  // The relaxed-PHYLIP layout
  // ---------------------------------------------------------------------------

  /** The header line without its newline: `" %i %s" % (rows, seq_length)`. */
  function HeaderLine(rows: nat, seqLength: int): string {
    " " + NatToString(rows) + " " + IntToString(seqLength)
  }

  function Header(rows: nat, seqLength: int): string {
    HeaderLine(rows, seqLength) + "\n"
  }

  /** `str(record.id) + " " + str(record.seq)` */
  function RecordLine(r: Record): string {
    r.id + " " + r.sequence
  }

  function RecordLines(alignment: Alignment): seq<string> {
    seq(|alignment|, i requires 0 <= i < |alignment| => RecordLine(alignment[i]))
  }

  /** The record lines joined by newlines, with none after the last. */
  function Body(alignment: Alignment): string {
    Join("\n", RecordLines(alignment))
  }

  /** What one loop iteration writes, leaving out the separator before it. */
  function BlockText(alignment: Alignment, seqLength: int): string {
    Header(|alignment|, seqLength) + Body(alignment)
  }

  function BlockTexts(replicates: seq<Alignment>, seqLength: int): seq<string> {
    seq(|replicates|, i requires 0 <= i < |replicates| => BlockText(replicates[i], seqLength))
  }

  /** The whole output: the blocks in replicate order, one "\n" before each
      block but the first. The text is empty exactly when there are no replicates. */
  function RelaxedPhylip(replicates: seq<Alignment>, seqLength: int): (text: string)
    ensures text == "" <==> |replicates| == 0
  {
    Join("\n", BlockTexts(replicates, seqLength))
  }

  /** Writing one more replicate appends a "\n" (unless it is the first) and its block. */
  lemma RelaxedPhylipSnoc(replicates: seq<Alignment>, alignment: Alignment, seqLength: int)
    ensures RelaxedPhylip(replicates + [alignment], seqLength) ==
            RelaxedPhylip(replicates, seqLength) + (if |replicates| > 0 then "\n" else "") +
            BlockText(alignment, seqLength)
  {
    assert BlockTexts(replicates + [alignment], seqLength) ==
           BlockTexts(replicates, seqLength) + [BlockText(alignment, seqLength)];
    JoinSnoc("\n", BlockTexts(replicates, seqLength), BlockText(alignment, seqLength));
  }

  /** The header of a two-record, four-column block. */
  lemma ExampleHeader()
    ensures Header(2, 4) == " 2 4\n"
  {
    assert NatToString(2) == "2" && IntToString(4) == "4";
  }

  /** The body of the alignment seq1/ACGT, seq2/TGCA: two lines, no final newline. */
  lemma ExampleBody()
    ensures Body([Record("seq1", "ACGT"), Record("seq2", "TGCA")]) == "seq1 ACGT\nseq2 TGCA"
  {
    var a := [Record("seq1", "ACGT"), Record("seq2", "TGCA")];
    assert RecordLines(a) == [RecordLine(a[0]), RecordLine(a[1])];
    assert RecordLine(a[0]) == "seq1 ACGT" && RecordLine(a[1]) == "seq2 TGCA";
    JoinPair("\n", "seq1 ACGT", "seq2 TGCA");
  }

  /** The block of that alignment with four columns. */
  lemma ExampleBlock()
    ensures BlockText([Record("seq1", "ACGT"), Record("seq2", "TGCA")], 4) == " 2 4\nseq1 ACGT\nseq2 TGCA"
  {
    var a := [Record("seq1", "ACGT"), Record("seq2", "TGCA")];
    ExampleHeader();
    ExampleBody();
    assert BlockText(a, 4) == Header(2, 4) + Body(a);
  }

  /** Two replicates of that alignment: the second header follows the first
      block's last record line directly, with no blank line, and the text does
      not end with a newline. */
  lemma TwoReplicateExample()
    ensures var a := [Record("seq1", "ACGT"), Record("seq2", "TGCA")];
            RelaxedPhylip([a, a], 4) == " 2 4\nseq1 ACGT\nseq2 TGCA\n 2 4\nseq1 ACGT\nseq2 TGCA"
  {
    var a := [Record("seq1", "ACGT"), Record("seq2", "TGCA")];
    var block := BlockText(a, 4);
    ExampleBlock();
    assert BlockTexts([a, a], 4) == [block, block];
    JoinPair("\n", block, block);
  }

  // ---------------------------------------------------------------------------
  // The writer
  // ---------------------------------------------------------------------------

  /** An output file opened with mode 'w': what has been written to it so far. */
  class TextFile {
    var contents: string

    constructor ()
      ensures contents == ""
    {
      contents := "";
    }

    method Write(s: string)
      modifies this
      ensures contents == old(contents) + s
    {
      contents := contents + s;
    }
  }

  /** What iteration `i` of the writer loop adds to the output. */
  lemma WriterStep(replicates: seq<Alignment>, i: nat, seqLength: int)
    requires i < |replicates|
    ensures RelaxedPhylip(replicates[..i + 1], seqLength) ==
            RelaxedPhylip(replicates[..i], seqLength) + (if i > 0 then "\n" else "") +
            Header(|replicates[i]|, seqLength) + Body(replicates[i])
  {
    assert replicates[..i + 1] == replicates[..i] + [replicates[i]];
    RelaxedPhylipSnoc(replicates[..i], replicates[i], seqLength);
  }

  /** `output_relaxed_phylip`: opens a fresh file and writes every replicate. */
  method OutputRelaxedPhylip(replicates: seq<Alignment>, seqLength: int) returns (file: TextFile)
    ensures fresh(file)
    ensures file.contents == RelaxedPhylip(replicates, seqLength)
  {
    file := new TextFile();
    for i := 0 to |replicates|
      invariant file.contents == RelaxedPhylip(replicates[..i], seqLength)
    {
      ghost var written := file.contents;
      ghost var separator := if i > 0 then "\n" else "";
      var alignment := replicates[i];
      if i > 0 {
        file.Write("\n");
      }
      assert file.contents == written + separator;
      file.Write(Header(|alignment|, seqLength));
      file.Write(Body(alignment));
      WriterStep(replicates, i, seqLength);
    }
    assert replicates[..|replicates|] == replicates;
  }

  /** `run` after the input file is read: validate, then (given the replicates
      the resampler produced) write them. On a failed check no file is written. */
  method Run(alignment: Alignment, alignmentLength: int, replicates: seq<Alignment>)
    returns (outcome: Outcome, file: TextFile?)
    ensures outcome == Pass <==> WellShaped(alignment, alignmentLength)
    ensures |alignment| == 0 ==> outcome == Fail(NoSequences)
    ensures |alignment| > 0 && alignmentLength <= 0 ==> outcome == Fail(EmptySequences)
    ensures |alignment| > 0 && alignmentLength > 0 && outcome.Fail? ==> outcome == Fail(UnequalLengths)
    ensures outcome.Fail? ==> file == null
    ensures outcome == Pass ==> file != null && fresh(file) &&
                                file.contents == RelaxedPhylip(replicates, alignmentLength)
  {
    outcome := Validate(alignment, alignmentLength);
    if outcome.Fail? {
      return outcome, null;
    }
    file := OutputRelaxedPhylip(replicates, alignmentLength);
  }

  // ---------------------------------------------------------------------------
  // The output, line by line
  // ---------------------------------------------------------------------------

  /** No id and no sequence holds a newline (as is so for fields read from FASTA),
      so every record stays on one line. */
  predicate NewlineFree(alignment: Alignment) {
    forall k :: 0 <= k < |alignment| ==> '\n' !in alignment[k].id && '\n' !in alignment[k].sequence
  }

  /** No id holds a space, so a record line splits back at its first space. */
  predicate IdsWithoutSpace(alignment: Alignment) {
    forall k :: 0 <= k < |alignment| ==> ' ' !in alignment[k].id
  }

  /** The lines of one block: its header, then one line per record. */
  function BlockLines(alignment: Alignment, seqLength: int): seq<string> {
    [HeaderLine(|alignment|, seqLength)] + RecordLines(alignment)
  }

  /** The lines of all blocks, in replicate order. */
  function Lines(replicates: seq<Alignment>, seqLength: int): seq<string>
    decreases |replicates|
  {
    if |replicates| == 0 then []
    else BlockLines(replicates[0], seqLength) + Lines(replicates[1..], seqLength)
  }

  /** The total number of records over all replicates. */
  function RowCount(replicates: seq<Alignment>): nat
    decreases |replicates|
  {
    if |replicates| == 0 then 0 else |replicates[0]| + RowCount(replicates[1..])
  }

  lemma {:induction false} LinesCount(replicates: seq<Alignment>, seqLength: int)
    ensures |Lines(replicates, seqLength)| == |replicates| + RowCount(replicates)
    decreases |replicates|
  {
    if |replicates| > 0 {
      LinesCount(replicates[1..], seqLength);
    }
  }

  /** Every line is non-empty and free of newlines. */
  lemma {:induction false} LinesArePlain(replicates: seq<Alignment>, seqLength: int)
    requires forall i :: 0 <= i < |replicates| ==> NewlineFree(replicates[i])
    ensures forall j :: 0 <= j < |Lines(replicates, seqLength)| ==>
              Lines(replicates, seqLength)[j] != "" && '\n' !in Lines(replicates, seqLength)[j]
    decreases |replicates|
  {
    if |replicates| > 0 {
      var a := replicates[0];
      var block := BlockLines(a, seqLength);
      var rest := Lines(replicates[1..], seqLength);
      LinesArePlain(replicates[1..], seqLength);
      forall j | 0 <= j < |block|
        ensures block[j] != "" && '\n' !in block[j]
      {
        if j > 0 {
          assert block[j] == RecordLine(a[j - 1]);
        }
      }
      assert Lines(replicates, seqLength) == block + rest;
    }
  }

  /** A block with at least one record is its lines joined by newlines. */
  lemma BlockTextIsJoinedLines(alignment: Alignment, seqLength: int)
    requires |alignment| > 0
    ensures BlockText(alignment, seqLength) == Join("\n", BlockLines(alignment, seqLength))
  {
    assert BlockLines(alignment, seqLength)[1..] == RecordLines(alignment);
  }

  /** When no replicate is empty, the whole output is all lines joined by newlines:
      the separator before a block only ends the previous block's last line. */
  lemma {:induction false} RelaxedPhylipIsJoinedLines(replicates: seq<Alignment>, seqLength: int)
    requires forall i :: 0 <= i < |replicates| ==> |replicates[i]| > 0
    ensures RelaxedPhylip(replicates, seqLength) == Join("\n", Lines(replicates, seqLength))
    decreases |replicates|
  {
    if |replicates| == 0 {
      return;
    }
    var first := replicates[0];
    var blocks := BlockTexts(replicates, seqLength);
    BlockTextIsJoinedLines(first, seqLength);
    if |replicates| == 1 {
      assert Lines(replicates, seqLength) == BlockLines(first, seqLength) + [];
      assert Lines(replicates, seqLength) == BlockLines(first, seqLength);
    } else {
      var tail := replicates[1..];
      assert blocks[1..] == BlockTexts(tail, seqLength);
      RelaxedPhylipIsJoinedLines(tail, seqLength);
      JoinAppend("\n", BlockLines(first, seqLength), Lines(tail, seqLength));
    }
  }

  /** Splitting the output on "\n" gives, block after block, the header line
      followed by exactly one line per record of that replicate. */
  lemma OutputLines(replicates: seq<Alignment>, seqLength: int)
    requires |replicates| > 0
    requires forall i :: 0 <= i < |replicates| ==> |replicates[i]| > 0 && NewlineFree(replicates[i])
    ensures Split(RelaxedPhylip(replicates, seqLength), '\n') == Lines(replicates, seqLength)
    ensures |Split(RelaxedPhylip(replicates, seqLength), '\n')| == |replicates| + RowCount(replicates)
  {
    RelaxedPhylipIsJoinedLines(replicates, seqLength);
    LinesArePlain(replicates, seqLength);
    LinesCount(replicates, seqLength);
    SplitJoin('\n', Lines(replicates, seqLength));
  }

  /** With no empty replicate, the output has no blank line anywhere: it neither
      starts nor ends with a newline and never holds two newlines in a row. */
  lemma NoBlankLines(replicates: seq<Alignment>, seqLength: int)
    requires |replicates| > 0
    requires forall i :: 0 <= i < |replicates| ==> |replicates[i]| > 0 && NewlineFree(replicates[i])
    ensures var text := RelaxedPhylip(replicates, seqLength);
            text[0] != '\n' && text[|text| - 1] != '\n' &&
            forall i :: 0 <= i < |text| - 1 ==> !(text[i] == '\n' && text[i + 1] == '\n')
  {
    var text := RelaxedPhylip(replicates, seqLength);
    OutputLines(replicates, seqLength);
    LinesArePlain(replicates, seqLength);
    NoEmptyPiece(text, '\n');
  }

  /** A replicate with no records leaves its header's newline at the end of its
      block, so when it is the last one the output ends with a newline. */
  lemma EmptyLastReplicateEndsWithNewline(replicates: seq<Alignment>, seqLength: int)
    requires |replicates| > 0 && replicates[|replicates| - 1] == []
    ensures var text := RelaxedPhylip(replicates, seqLength);
            text[|text| - 1] == '\n'
  {
    var n := |replicates|;
    assert replicates == replicates[..n - 1] + [[]];
    RelaxedPhylipSnoc(replicates[..n - 1], [], seqLength);
  }

  /** A replicate with no records followed by another block yields a blank line. */
  lemma EmptyInnerReplicateLeavesBlankLine(before: seq<Alignment>, after: seq<Alignment>, seqLength: int)
    requires |after| > 0
    ensures var text := RelaxedPhylip(before + [[]] + after, seqLength);
            exists i :: 0 <= i < |text| - 1 && text[i] == '\n' && text[i + 1] == '\n'
  {
    var replicates := before + [[]] + after;
    var blocks := BlockTexts(replicates, seqLength);
    var head := BlockTexts(before + [[]], seqLength);
    var tail := BlockTexts(after, seqLength);
    assert blocks == head + tail;
    JoinAppend("\n", head, tail);
    RelaxedPhylipSnoc(before, [], seqLength);
    var prefix := RelaxedPhylip(before + [[]], seqLength);
    var text := RelaxedPhylip(replicates, seqLength);
    assert prefix[|prefix| - 1] == '\n';
    assert text == prefix + "\n" + Join("\n", tail);
    assert text[|prefix| - 1] == '\n' && text[|prefix|] == '\n';
  }
}
