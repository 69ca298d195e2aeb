# msaboot in Dafny

msaboot bootstraps a multiple sequence alignment read from a FASTA file. It
writes the replicate alignments to one file in relaxed PHYLIP format. This
project models the two pieces of hand-written logic around the library's
resampling call:

- the **shape check** that `run` makes on the alignment it has read. It rejects
  an alignment with no records, a non-positive alignment length, or a record
  whose sequence length differs from the alignment length;
- **`output_relaxed_phylip`**, which writes the replicates as one text. Each
  block is a header `" <rows> <seq_length>\n"` followed by the record lines
  `"<id> <seq>"` joined by `"\n"`. A `"\n"` is written before every block but
  the first.

Files:

- `strings.dfy`: module `Wrappers` (an `Option` type) and module `Strings`:
  decimal rendering of integers the way Python's `%i`/`%s` write them, with
  parsers for them; `sep.join`, `str.split` and a split at the first space,
  with the lemmas that make each pair inverse.
- `msaboot.dfy`: module `Msaboot`. It holds records and alignments, the shape
  check `Validate` (a loop, as in the source), and the relaxed-PHYLIP layout as
  functions (`HeaderLine`, `RecordLine`, `Body`, `BlockText`, `RelaxedPhylip`).
  The output file is a class `TextFile` whose `Write` appends to its contents,
  and `OutputRelaxedPhylip` is the writer loop proved equal to `RelaxedPhylip`.
  `Run` joins the check and the writer. The module ends with lemmas about the
  output's line structure.
- `phylip_reader.dfy`: module `RelaxedPhylipReader`, a reader for the
  writer's output and the round-trip lemmas it supports.

The writer is modelled as the code behaves, not as the format is usually
described. A block's body does not end in a newline, so the `"\n"` written
before the next block only ends the previous block's last record line. So when
ids and sequences hold no newline (as is so for fields read from FASTA) and no
replicate is empty, the output has **no blank line between blocks** and **no
newline at the end** (`NoBlankLines`, `TwoReplicateExample`). A description of
the format as "blank-line separated" disagrees with the code here; the model
follows the code. With newline-free fields, the only source of a blank line is
a replicate with no records, because its block then ends with the header's
newline (`EmptyInnerReplicateLeavesBlankLine`,
`EmptyLastReplicateEndsWithNewline`). The shape check excludes that case for
the input alignment. A field that itself holds newlines can also put blank
lines or a final newline into the text; nothing in the writer prevents that.

## Model

| member | source | states |
|---|---|---|
| `Msaboot.Validate` | msaboot/msaboot.py:120-129 | passes exactly when the alignment is well shaped (at least one record, positive length, every record that long); no records fails with the "at least one sequence" error; a non-positive length with records present fails with the "non empty sequences" error; otherwise the only failure is "same length"; one mismatched record anywhere makes it fail |
| `Msaboot.MessageIdentifiesError` | msaboot/msaboot.py:120-129 | the three checks raise three different messages, so the message a failed run reports tells which check failed |
| `Msaboot.RelaxedPhylip` | msaboot/msaboot.py:181-190 | the output text is empty exactly when there are no replicates |
| `Msaboot.RelaxedPhylipSnoc` | msaboot/msaboot.py:182-190 | writing one more replicate appends a single "\n" (none before the first block) and then that replicate's header and body, so blocks appear in replicate order |
| `Msaboot.TextFile.constructor` | msaboot/msaboot.py:179 | a file opened for writing starts empty |
| `Msaboot.TextFile.Write` | msaboot/msaboot.py:184 | a write appends its text to what the file holds |
| `Msaboot.OutputRelaxedPhylip` | msaboot/msaboot.py:177-191 | the loop leaves a fresh file whose contents are exactly the layout `RelaxedPhylip` of the replicates and the given `seq_length` |
| `Msaboot.Run` | msaboot/msaboot.py:120-136 | the run goes on exactly when the alignment is well shaped; a failed run carries the error of the first check that fails (no records, then a non-positive length, then a record of another length); on a failed check no file is written; otherwise the file holds the layout of the replicates with the checked length as the column count |
| `Msaboot.ExampleHeader` | msaboot/msaboot.py:188 | the header for two rows and length 4 is " 2 4\n", with its leading space |
| `Msaboot.ExampleBody` | msaboot/msaboot.py:190 | the body of records seq1/ACGT and seq2/TGCA is "seq1 ACGT\nseq2 TGCA", with no newline after the last line |
| `Msaboot.ExampleBlock` | msaboot/msaboot.py:188-190 | the block of records seq1/ACGT and seq2/TGCA with length 4 is " 2 4\nseq1 ACGT\nseq2 TGCA" |
| `Msaboot.TwoReplicateExample` | msaboot/msaboot.py:182-190 | two such replicates give both blocks separated by a single "\n": no blank line, no final newline |
| `Msaboot.LinesCount` | msaboot/msaboot.py:188-190 | there is one line per replicate for its header plus one per record |
| `Msaboot.LinesArePlain` | msaboot/msaboot.py:188-190 | when ids and sequences hold no newline, every header and record line is non-empty and holds no newline |
| `Msaboot.BlockTextIsJoinedLines` | msaboot/msaboot.py:188-190 | a block with at least one record is its header line and its record lines joined by "\n" |
| `Msaboot.RelaxedPhylipIsJoinedLines` | msaboot/msaboot.py:182-190 | with no empty replicate, the whole output is all header and record lines joined by "\n" (both empty when there are no replicates): the separator before a block only ends the previous line |
| `Msaboot.OutputLines` | msaboot/msaboot.py:182-190 | splitting the output on "\n" gives, per replicate in order, its header line followed by exactly one line per record; the line count is the number of replicates plus the number of records |
| `Msaboot.NoBlankLines` | msaboot/msaboot.py:183-190 | with no empty replicate and newline-free fields, the output neither starts nor ends with "\n" and never has two "\n" in a row |
| `Msaboot.EmptyLastReplicateEndsWithNewline` | msaboot/msaboot.py:188-190 | if the last replicate has no records, the output ends with "\n" |
| `Msaboot.EmptyInnerReplicateLeavesBlankLine` | msaboot/msaboot.py:183-190 | a replicate with no records followed by another replicate produces two "\n" in a row |
| `Strings.NatToString` | msaboot/msaboot.py:188 | the `%i` rendering of the row count is a non-empty string of digits without a leading zero |
| `Strings.IntToString` | msaboot/msaboot.py:188 | the `%s` rendering of `seq_length` is non-empty and holds no space or newline |
| `Strings.ParseNatToString` | msaboot/msaboot.py:188 | the rendered row count reads back as the same number |
| `Strings.ParseIntToString` | msaboot/msaboot.py:188 | the rendered `seq_length` reads back as the same integer, negative ones included |
| `Strings.JoinSnoc` | msaboot/msaboot.py:190 | joining one more part adds one separator and the part at the end |
| `Strings.SplitJoin` | msaboot/msaboot.py:190 | splitting a "\n"-join of newline-free parts gives the parts back |
| `Strings.NoEmptyPiece` | msaboot/msaboot.py:183-190 | a text whose split has no empty piece does not start or end with the delimiter and never doubles it |
| `Strings.SplitAtFirstAround` | msaboot/msaboot.py:190 | splitting `a + " " + b` at its first space gives `a` and `b` when `a` has no space |
| `RelaxedPhylipReader.ParseHeaderLine` | msaboot/msaboot.py:188 | the header line reads back as the replicate's row count and the given `seq_length`, not a length measured from the replicate |
| `RelaxedPhylipReader.ParseRecordLine` | msaboot/msaboot.py:190 | splitting a record line at its first space recovers the record's id and sequence when the id has no space |
| `RelaxedPhylipReader.ParseRecordLines` | msaboot/msaboot.py:190 | when no id holds a space, reading a block's record lines gives back its records in order |
| `RelaxedPhylipReader.ParseLines` | msaboot/msaboot.py:188-190 | when no id holds a space, reading the header and record lines of all blocks gives back every replicate in order, each tagged with the header's column count |
| `RelaxedPhylipReader.RoundTrip` | msaboot/msaboot.py:181-190 | with no empty replicate and ids free of spaces and newlines, sequences free of newlines, the output reads back as exactly the replicates, in order, each with column count `seq_length` (and the empty output as no replicates) |
| `RelaxedPhylipReader.ValidatedReplicatesMatchHeaders` | msaboot/msaboot.py:123-136 | when every replicate passes the shape check with the same length, the output reads back as one block per replicate, each with that length in its header and every record's sequence exactly that long |

## Left out

- `bootstrap` (the resampler, a Biopython routine that draws random columns) is a foreign, randomised call. `Run` takes the replicates it produced as a parameter, and the writer's lemmas state their own conditions on them (no empty replicate; the shape check for the composed lemma).
- `AlignIO.read` (FASTA parsing) and `get_alignment_length` are library calls. The alignment and its length are parameters of `Validate` and `Run`.
- The file-existence check, opening the input, and every `print` are I/O and console output. The output file is the in-memory `TextFile`.
- Write failures are not modelled, and neither is closing the output file (the code never closes it explicitly).
- `int(numBootstraps)` is a Python builtin conversion. The code does not reject a negative count, and the model adds no such check; the replicate count is simply the length of the replicate list.
- `parse` and `main` are argument-parsing glue. The context script `bootstrapping.py` and the packaging file `setup.py` have no logic of their own to model.
- `RelaxedPhylip` renders `seq_length` as a Python integer. The source would format any value with `%s`; only integers are modelled.
