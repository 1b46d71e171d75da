# Spanki GTF attribute extractor, modelled in Dafny

Spanki's `gtf_to_attributes_dict` (`spanki/spanki_utils.py`) reads a GTF
(Gene Transfer Format) annotation file. It builds a table from each
`transcript_id` to the record (`gene_id`, `gene_name`) of that transcript's
exon lines. For each line it does the following:

- It removes trailing whitespace and cuts the line at tabs.
- It ignores lines with a single field and lines whose third field is not
  exactly `exon`.
- It cuts the ninth field at every `"; "` and strips each token.
- It reads each token as a key (the first space-separated word) and a value
  (the second word, without its leading and trailing double quotes).
- It writes the last `gene_id` (default `""`) and the last `gene_name`
  (default the string `"None"`) under the last `transcript_id` of the line.
  A later line for the same transcript replaces the earlier record.

A token without a space stops the whole run. So does the attempt to read a
tab field that does not exist, or a `transcript_id` that is absent.

The project has four modules:

- `PyStr` (`py_str.dfy`) models the Python 2 string operations the extractor
  uses: `rstrip()`, `strip()`, `strip('"')` and `split(sep)`. Each comes with
  lemmas that characterise it. For `split`, joining the pieces gives the
  string back, and no piece contains the separator.
- `SpankiUtils` (`spanki_utils.dfy`) models the extractor.
  - The file is given as the sequence of its lines.
  - `ProcessLine` gives the effect of one line: skip it, write a record, or
    fail.
  - `Extract` is the reference result: it folds these effects over the file.
  - The method `GtfToAttributesDict` is the imperative scan with a map
    variable and a loop, and is proved to compute `Extract`. Its inner loop
    over the tokens is the method `ReadAttributes`, proved to compute the
    line's attribute dictionary `LineDict`.
  - The source's fatal paths become the `Err` result:
    - `print line` followed by `quit` gives `Malformed(line)`;
    - an uncaught `IndexError` gives `FieldMissing(line)`;
    - an uncaught `KeyError` gives `NoTranscriptId(line)`.
  - Each error carries the right-stripped line. Only `Malformed` carries text
    the source reports: the line printed at line 43.
- `GtfProperties` (`gtf_properties.dfy`) proves what the extractor promises
  about tokens, single lines and the whole file.
- `GtfExamples` (`gtf_examples.dfy`) works through the example line given
  next to the function. It first handles every line laid out like it, then
  the example's own values.

In these places the model follows what the code does, which is narrower
than a first reading of the function suggests:

- An exon line without `transcript_id` stops the run. At line 48 the handler
  indexes `linedict['transcript_id']` again, so the `KeyError` escapes. The
  line is not skipped.
- A line with two tab fields fails at `values[2]`. An exon line with three to
  eight fields fails at `values[8]`. Neither line is skipped.
- The value is the second space-separated word, not everything after the
  first space.
- Only leading and trailing quotes are removed.
- All trailing whitespace is removed, not only the newline.

## Model

| member | source | states |
|---|---|---|
| SpankiUtils.GtfToAttributesDict | spanki/spanki_utils.py:15-54 | the scan returns exactly `Extract(lines)`: the table built by applying each line's effect in order, or the error of the first fatal line and no table |
| SpankiUtils.ReadLine | spanki/spanki_utils.py:22-52 | the loop body for one line computes that line's effect `ProcessLine(raw)` |
| SpankiUtils.ReadAttributes | spanki/spanki_utils.py:37-44 | the inner loop returns the line's attribute dictionary, later tokens overwriting earlier ones, or `None` at the first token without a value |
| SpankiUtils.ExtractStep | spanki/spanki_utils.py:21-52 | reading one more line applies that line's effect to the table read so far |
| SpankiUtils.LineDictStep | spanki/spanki_utils.py:38-44 | reading one more token binds its key to its value, or ends the dictionary |
| SpankiUtils.RunErrSticky | spanki/spanki_utils.py:43-44 | after a failure, no later line changes the outcome |
| SpankiUtils.ExtractErrPrefix | spanki/spanki_utils.py:43-44 | a failed prefix of the file decides the result of the whole file |
| SpankiUtils.LineDictNoneIsFinal | spanki/spanki_utils.py:42-44 | once a token has failed, the line has no dictionary however many tokens follow |
| PyStr.TrimLeftSpec | spanki/spanki_utils.py:37 | left trimming returns a suffix; every removed character is in the set, and the first kept one is not |
| PyStr.TrimRightSpec | spanki/spanki_utils.py:22 | `rstrip` returns a prefix; every removed character is whitespace, and the last kept one is not |
| PyStr.StripSpec | spanki/spanki_utils.py:37-41 | `strip` returns a substring surrounded only by characters of the set, whose ends are not in the set |
| PyStr.StripIdempotent | spanki/spanki_utils.py:37-39 | stripping an already stripped token (lines 37 and 39) changes nothing |
| PyStr.Split | spanki/spanki_utils.py:24 | `split` always yields at least one piece |
| PyStr.SplitJoinsBack | spanki/spanki_utils.py:24 | joining the pieces of `s.split(sep)` with `sep` gives `s` back |
| PyStr.SplitPiecesAvoidSep | spanki/spanki_utils.py:31 | no piece of `s.split(sep)` contains `sep` |
| PyStr.SplitSpec | spanki/spanki_utils.py:31 | both facts above together |
| PyStr.SplitCutsIffContains | spanki/spanki_utils.py:25 | there is more than one piece exactly when `sep` occurs in `s` |
| PyStr.SplitCutsAtFirst | spanki/spanki_utils.py:31 | when `sep` occurs nowhere before the end of `p`, the first cut of `p + sep + rest` falls right after `p` |
| PyStr.SplitUnique | spanki/spanki_utils.py:31 | for a separator that cannot overlap itself, the pieces are the only separator-free cut that joins back to `s` |
| PyStr.SplitCharUnique | spanki/spanki_utils.py:39 | for a one-character separator, the pieces are the only separator-free cut that joins back to `s` |
| PyStr.SplitCutsAfterPrefix | spanki/spanki_utils.py:31 | if the first character of `sep` is absent from `p`, the first cut of `p + sep + rest` falls right after `p` |
| PyStr.SplitNoCut | spanki/spanki_utils.py:31 | a string whose only possible start of `sep` lies in a tail shorter than `sep` is not cut |
| PyStr.SplitJoined | spanki/spanki_utils.py:24 | pieces free of `sep`'s first character, joined with `sep`, are split back into the same pieces |
| PyStr.JoinEndsWithLast | spanki/spanki_utils.py:22-24 | the joined string ends with the last piece |
| GtfProperties.ParseAttributeFailsIffNoSpace | spanki/spanki_utils.py:39-44 | a token has no value exactly when it holds no space once stripped, which covers the empty token |
| GtfProperties.ParseAttributeReadsTwoWords | spanki/spanki_utils.py:39-41 | the key is the first word of the stripped token; the value is the second word without its outer quotes; anything after the second word is ignored |
| GtfProperties.ParseAttributeOfTwoWords | spanki/spanki_utils.py:39-41 | conversely, any stripped token made of two words, optionally followed by more, reads as those two words |
| GtfProperties.ParseQuotedAttribute | spanki/spanki_utils.py:41 | the token `key "value"` reads as `key` bound to `value`, as `gene_id "FBgn0037213"` gives `FBgn0037213` |
| GtfProperties.LastValueIsLastBinding | spanki/spanki_utils.py:38-41 | the reference `LastValue` is the value of the last token with the key, and `None` when no token has the key |
| GtfProperties.LineDictFailsIffBadToken | spanki/spanki_utils.py:38-44 | the line's dictionary is missing exactly when some token has no value |
| GtfProperties.LineDictKeepsLastValue | spanki/spanki_utils.py:38-41 | the dictionary's keys are the keys of the tokens, and each holds the value of the last token with that key |
| GtfProperties.AttributeSplitUnique | spanki/spanki_utils.py:31 | the attribute field has exactly one cut at `"; "`: any `"; "`-free pieces that join back to it are its pieces |
| GtfProperties.FieldsOfJoin | spanki/spanki_utils.py:22-24 | tab-free fields joined by tabs, ending in a visible character, are read back as the same fields |
| GtfProperties.SkipIffNotExon | spanki/spanki_utils.py:24-26 | a line leaves the table alone exactly when it has one field, or at least three fields with a third field other than `exon` |
| GtfProperties.NoTabLineIgnored | spanki/spanki_utils.py:24-25 | a line without a tab is ignored |
| GtfProperties.FieldMissingIffShort | spanki/spanki_utils.py:26-31 | a line fails on a missing field exactly when it has two fields, or it is an exon line with three to eight fields |
| GtfProperties.MalformedTokenFailsLine | spanki/spanki_utils.py:39-44 | an exon line with a token that has no space fails as malformed and carries the right-stripped line |
| GtfProperties.WellFormedExonLine | spanki/spanki_utils.py:45-52 | for an exon line whose tokens all have a space: without `transcript_id` it fails; otherwise it writes, under the last `transcript_id`, the last `gene_id` (else `""`) and the last `gene_name` (else `"None"`) |
| GtfProperties.WriteComesFromExonLine | spanki/spanki_utils.py:26-46 | a line that writes is an exon line, and the written key is its last `transcript_id` value |
| GtfProperties.SkippedLineKeepsTable | spanki/spanki_utils.py:24-26 | a skipped line neither creates nor changes an entry |
| GtfProperties.WriteChangesOnlyItsEntry | spanki/spanki_utils.py:46-52 | a writing line sets the entry of its own transcript id; the key set grows by that id only, and every other entry keeps its value |
| GtfProperties.FailingLineIsFatal | spanki/spanki_utils.py:43-44 | after a failing line, whatever follows, the result is that line's error and no table |
| GtfProperties.RunOkIffNoFailure | spanki/spanki_utils.py:21-54 | the scan returns a table exactly when no line fails |
| GtfProperties.RunErrIsFirstFailure | spanki/spanki_utils.py:21-44 | a failed scan reports the error of the first failing line |
| GtfProperties.RunEntryWasWritten | spanki/spanki_utils.py:46-52 | every entry of the table was written by some line |
| GtfProperties.RunWrittenHasEntry | spanki/spanki_utils.py:46-52 | every transcript id written by some line has an entry |
| GtfProperties.RunKeysAreWritten | spanki/spanki_utils.py:46-52 | the table's keys are exactly the transcript ids that lines write |
| GtfProperties.RunKeepsLastWrite | spanki/spanki_utils.py:46-52 | last write wins: the entry for a transcript is the record of the last line that writes it |
| GtfProperties.ExtractKeysFromExonLines | spanki/spanki_utils.py:26-46 | every key of the table is the `transcript_id` value of some exon line of the file |
| GtfExamples.AttributeFieldTokens | spanki/spanki_utils.py:31-37 | an attribute field laid out like the example's cuts into its five stripped key-value tokens |
| GtfExamples.ExampleLayoutLine | spanki/spanki_utils.py:57 | every exon line laid out like the example writes its transcript id with its gene id and gene name |
| GtfExamples.ExampleLineRecord | spanki/spanki_utils.py:57 | the example line maps `FBtr0078962` to (`FBgn0037213`, `CG12581`) |
| GtfExamples.ExampleFile | spanki/spanki_utils.py:57 | a file holding only the example line yields exactly that one entry |

`Extract(lines)` is `Run(Effects(lines))`, where `Effects(lines)[i]` is
`ProcessLine(lines[i])`. The `Run…` lemmas therefore speak about the file
through the effect of each of its lines.

## Left out

- File handling (`open`, iteration over the file object, `close`, lines
  20-21 and 53) is not modelled. The model takes the file as a sequence of
  lines; a line may still end in its newline, which the right strip removes.
- Printing the offending line and `quit("GTF parsing error")` (lines 43-44)
  become the `Malformed(line)` error value. Uncaught `IndexError` and
  `KeyError` become `FieldMissing(line)` and `NoTranscriptId(line)`. The
  model does not tell a process exit from an exception.
- The nested `defaultdict` result (line 19) is modelled as a map from
  transcript id to a record holding both fields. Every write in the source
  sets both fields, so no entry can lack one. Reading an absent transcript
  id from the returned `defaultdict` creates and returns an empty entry; the
  map has no such default on read, and reads by callers are not modelled.
- `FieldMissing(line)` and `NoTranscriptId(line)` carry the line as extra
  detail of the model. The source's uncaught `IndexError` and `KeyError`
  report the exception and the code line, not the data line.
- Whitespace is Python 2's for byte strings: space, tab, newline, carriage
  return, vertical tab and form feed. Unicode whitespace is not modelled.
- `timestamp`, `prep_ref`, `sam_to_bam`, `prepare_output_dir` and
  `prepare_basic_output_dir` in the same file are outside this model. They
  read the clock, call external programs or create directories.
