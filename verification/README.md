# AutophiGen pipeline core, modelled in Dafny

AutophiGen is a script. It takes a FASTA file of query sequences. For each
query it runs a BLAST search, writes the query and the BLAST hits to a FASTA
file, and aligns that file with EMBL-EBI's MUSCLE service. It then builds a
tree from the alignment with EMBL-EBI's simple_phylogeny service and renders
the tree. This project models the logic under the network and library calls:

- the input-file gate `file_check`, including `os.path.splitext`;
- the hit file `result_parse` writes: the query first, then one record per
  HSP of each BLAST alignment whose title lacks "complete";
- `align` reading that file back, its guard that raises `BlastError` when
  the file holds one record, and its re-serialisation;
- the status loops `check_status` and `check_status_phylo`;
- the submit / poll / fetch sequence of each stage, with the events it
  causes (prints, HTTP requests, sleeps);
- the batch loop `seq_functions`, which catches `BlastError` and
  `MuscleError` per record and lets every other exception end the batch.

Remote services and libraries are inputs. For each record, a `Services`
value gives the parsed BLAST report (or the exception BLAST raised), whether
opening the hit file raises, the response to each of the two EBI
submissions as a status code and a body (or the exception raised), the
status bodies each loop receives in order (bodies only), each result fetch
as a body or the exception it raised, and whether the tree viewer raises. A run is an immutable list of `Event`s plus an
`Outcome`. The outcome is one of: the tree was shown, an exception was
reported, an exception escaped, or a status loop never stopped.

Modules, one file each:
`Text` (substring test, `rfind`, `find`),
`FileFormat` (`splitext`, `file_check`),
`Fasta` (records, writer, line-based reader, round trip),
`Hits` (BLAST report to hit file),
`Effects` (events and EBI URLs),
`Polling` (status loops),
`Stages` (one record through every stage),
`Batch` (`seq_functions`).

Facts about the script that the model keeps:

- The status loops have no timeout, and they do not recognise a failed job.
  They stop only on a body containing "FINISHED", and "UNFINISHED" counts.
- The empty-hit case is a `BlastError` raised inside `align`.
- The record-count guard tests `== 1`. An empty hit file would be submitted
  to MUSCLE, but `result_parse` always writes the query, so the case cannot
  arise.
- MUSCLE submissions must return exactly status 200. The script compares
  `str(response)` with `"<Response [200]>"`, and requests renders a response
  as its status code in that frame, so this is the same test.
- The simple_phylogeny submission's status is never checked. Its body is
  used as the job id whatever the status code.
- The only per-record report is the line the `except` clause prints.

## Model

| member | source | states |
|---|---|---|
| Text.RFind | AutophiGen.py:72 | the result is the last index holding the character, or -1 when none does; this is the search splitext makes for the separator and the dot |
| FileFormat.SplitExt | AutophiGen.py:72 | stem and extension concatenate back to the path; a non-empty extension has one leading dot, no other dot and no '/', and its stem's last path component is not made only of dots |
| FileFormat.SplitOfStem | AutophiGen.py:72 | a named stem followed by a valid extension is split exactly between the two, so together with SplitExt's contract the split is determined |
| FileFormat.FileCheck | AutophiGen.py:70-77 | the verdict is either returning "valid format" or exiting with "Not a fasta file", and it returns exactly when the splitext extension is in the six-entry whitelist |
| FileFormat.FileCheckAccepts | AutophiGen.py:70-77 | a name is accepted if and only if it ends in one of .fasta .fna .ffn .faa .frn .fa and the part before it has a last path component with a character other than '.' |
| FileFormat.UpperCaseRefused | AutophiGen.py:73 | the comparison is case-sensitive: "reads.fasta" passes and "reads.FASTA" exits |
| FileFormat.HiddenFileRefused | AutophiGen.py:72-77 | a hidden file ".fasta" has no extension in splitext's sense, so it exits |
| Fasta.Serialize | AutophiGen.py:129 | the writer of `>description\nresidues\n` records; what it promises is stated by ParseSerialize and SerializeParseSerialize |
| Fasta.Parse | AutophiGen.py:144-147 | the reader of the input file and of the hit file; what it promises is stated by ParseSerialize (it inverts Serialize) and ParsedRecordsWellFormed (what it returns can be written back) |
| Fasta.ParseSerialize | AutophiGen.py:143-148 | reading back text written as `>description\nresidues\n` records gives the same records in the same order, provided no field holds a line break and no residue line starts with '>' |
| Fasta.SerializeParseSerialize | AutophiGen.py:143-149 | under the same condition, the string align rebuilds record by record equals the written text, and the record count equals the number written |
| Fasta.ParsedRecordsWellFormed | AutophiGen.py:94-95 | every record read from input text with no '\r' left in it can be written and read back without loss |
| Hits.HitFileText | AutophiGen.py:128-136 | the hit file text starts with the query record, written first; HitFileReadBack and ResultParse state the rest |
| Hits.HitCount | AutophiGen.py:128-136 | the number of hit records equals the HSP count summed over alignments whose title lacks "complete" |
| Hits.HitPosition | AutophiGen.py:131-136 | HSP j of kept alignment i is written right after the HSPs of the kept alignments before i and the HSPs before j, so report order is kept and a title repeats once per HSP |
| Hits.HitOrigin | AutophiGen.py:131-136 | every written hit is the title and subject of some HSP of an alignment whose title lacks "complete" |
| Hits.NoCompleteTitles | AutophiGen.py:134-135 | no written hit has a title containing "complete" |
| Hits.HitFileReadBack | AutophiGen.py:128-151 | the hit file read back is the query followed by the hits, its record count is 1 plus the kept HSP count, and the string align rebuilds from it is the written text |
| Hits.ResultParse | AutophiGen.py:124-136 | the nested writing loop produces exactly the query record followed by the filtered hit records |
| Hits.AppendHsps | AutophiGen.py:132-136 | the inner loop appends one record per HSP when the title lacks "complete", and nothing otherwise |
| Polling.PollEvents | AutophiGen.py:190-200 | the events of the status loop over the bodies the service answers; PollCounts, PollStops and PollContinues state how many requests and sleeps it makes and where it stops |
| Polling.FirstFinished | AutophiGen.py:190-200 | the result is the least index of a body containing "FINISHED", and none exactly when no body contains it |
| Polling.PollCounts | AutophiGen.py:190-200 | with the first stopping body at index k there are k+1 status requests and 5k seconds of sleep, and the last event prints that body; with none, every body is requested and followed by 5 seconds of sleep |
| Polling.PollStops | AutophiGen.py:198-199 | what the service would answer after the stopping body is never requested |
| Polling.PollContinues | AutophiGen.py:191-200 | before any stopping body, the loop continues into whatever the service answers next, so the number of rounds has no bound |
| Polling.FirstFinishedShift | AutophiGen.py:191-200 | after bodies that do not stop the loop, it stops where it would on the later bodies alone, shifted by their number |
| Polling.CheckStatus | AutophiGen.py:190-200 | the loop stops if and only if some body contains "FINISHED"; it then made one request per body up to and including the first such body and slept 5 seconds between consecutive requests; otherwise it requested every body and slept after each; its request count and sleep total equal those of PollEvents' events, and the stopping index is FirstFinished's |
| Polling.UnfinishedStops | AutophiGen.py:198 | a body reading "UNFINISHED" stops the loop, being a substring match |
| Polling.FailureNeverStops | AutophiGen.py:245-255 | a job that only ever answers RUNNING, FAILED or ERROR is never seen as finished |
| Polling.TwoRoundsThenFinished | AutophiGen.py:190-200 | the answers RUNNING, RUNNING, FINISHED cause three requests and ten seconds of sleep |
| Stages.Blast | AutophiGen.py:113-136 | the stage goes on exactly when BLAST answers and the hit file opens, and it hands on the hit file text; when the file cannot be opened, the open's exception is raised and nothing is written; its only exceptions are foreign ones; it only queries and writes |
| Stages.SendSequences | AutophiGen.py:163-186 | the submission goes on exactly on status 200, with the body as job id; any other status raises MuscleError; the first event is the form post carrying email, sequences and title |
| Stages.Align | AutophiGen.py:140-159 | BlastError exactly when the file holds one record, and then nothing is submitted; MuscleError exactly when the file does not hold exactly one record (zero records included, the guard being `== 1`) and the submission is rejected; a result exactly when MUSCLE accepts, a status body says FINISHED and the fetch answers; the post carries the records re-serialised |
| Stages.Phylogeny | AutophiGen.py:213-264 | only foreign exceptions; a tree exactly when the submission, a FINISHED status and the fetch all answer; the post carries the alignment |
| Stages.PhylogenyIgnoresStatus | AutophiGen.py:223-241 | changing the status code of the simple_phylogeny submission changes nothing in the run |
| Stages.Handle | AutophiGen.py:105-109 | a BlastError or MuscleError is reported: the run keeps its events and adds one failure line naming the record; any other exception escapes with the events unchanged |
| Stages.RunRecord | AutophiGen.py:96-109 | one record through blast, align, phylogeny and the viewer; ForeignEscapes, EmptyHitGuard, MuscleErrorWhenRejected, ReportedOnce and ShownWhenAllAnswer state its outcomes |
| Stages.ForeignEscapes | AutophiGen.py:96-109 | only BlastError and MuscleError are ever reported; an exception from BLAST, or from opening the hit file, escapes as it is |
| Stages.AfterAlign | AutophiGen.py:103-104 | after alignment, a record is never reported; it shows simple_phylogeny's tree exactly when that service answers, finishes and the viewer returns |
| Stages.EmptyHitGuard | AutophiGen.py:146-153 | a record is reported with BlastError if and only if BLAST answered, the hit file opened and no HSP survived the title filter |
| Stages.MuscleErrorWhenRejected | AutophiGen.py:175-182 | a record is reported with MuscleError if and only if BLAST answered, the hit file opened, some hit survived and the MUSCLE submission's status is not 200 |
| Stages.EmptyHitTrace | AutophiGen.py:97-107 | the full event list of a BlastError record: announce, query, write the hit file, announce alignment, report; no submission |
| Stages.RejectedTrace | AutophiGen.py:97-109 | the full event list of a MuscleError record: as above, then the MUSCLE post, "Response not 200" and the report |
| Stages.FailureTraceFacts | AutophiGen.py:105-109 | the lines printed before a failure report are never themselves failure reports for that record |
| Stages.ReportedOnce | AutophiGen.py:105-109 | a reported record prints exactly one failure message naming it, as its last event, and makes no status request, fetch, sleep, tree call or phylogeny post |
| Stages.ShownWhenAllAnswer | AutophiGen.py:96-104 | a record shows a tree if and only if every call answers, the hit file opens, some hit survives, MUSCLE returns 200 and both loops see FINISHED; the tree is simple_phylogeny's answer |
| Stages.HandOver | AutophiGen.py:101-103 | MUSCLE receives exactly the hit file that was written, and simple_phylogeny receives exactly MUSCLE's alignment |
| Batch.Stop | AutophiGen.py:95-109 | the processed runs are a prefix of the runs each record would have alone; all but the last went on, and a shorter prefix ends with a record that did not go on |
| Batch.StopReaches | AutophiGen.py:95-109 | run k is in the prefix if and only if every run before it went on |
| Batch.SeqFunctions | AutophiGen.py:91-109 | for the records read from the input file, run i is record i run alone; every run but the last went on; the batch stops early only after a run that did not go on |
| Batch.RunBatch | AutophiGen.py:94-109 | record i's run is the same as running it alone; every record before the last processed one went on; the batch stops early only after a record whose exception escaped or whose loop hung |
| Batch.OutputBlock | AutophiGen.py:94-109 | the events of record k form one contiguous block after those of the records before it |
| Batch.Reached | AutophiGen.py:95-109 | record k is processed if and only if every earlier record ended by showing a tree or by a reported exception |
| Batch.ReportedRecordIsolated | AutophiGen.py:105-109 | when every earlier record went on and a record raises BlastError or MuscleError, that record is processed, prints one failure message naming it as its last event, runs no later stage, and the next record is still processed |
| Batch.StopsAtEscape | AutophiGen.py:96-109 | a record whose exception escapes, or whose status loop never stops, is the last one processed |
| Batch.BatchEmptyHitGuard | AutophiGen.py:94-153 | for records read from the input file (as text mode delivers it), record k is reported with BlastError if and only if BLAST answered, the hit file opened and no HSP survived the filter |
| Batch.MixedBatch | AutophiGen.py:94-109 | a batch of a fully answered record and a record left without hits processes both: the first shows its tree, the second is reported with BlastError |

## Left out

- HTTP transport, BLAST (`NCBIWWW.qblast`, `NCBIXML.read`) and tree rendering (ete3) are foreign calls. Their answers are inputs, and any exception they raise is a named foreign exception.
- Status requests are modelled as always answering. An exception raised by a status request in the middle of a loop is not modelled.
- Byte decoding (`content.decode()`) is not modelled. Bodies are strings.
- `email_check` and `is_email` wrap a library that is not part of this model.
- `arg_parser`, `apg_args` and `main` are command-line plumbing. `file_check` is modelled on its own.
- File I/O is modelled only as far as this: the hit file is its text, and `align` receives the text `result_parse` wrote. A `FileWritten` event records the write.
- Stages.Blast: which file names the file system refuses (a '/' in the id, a name longer than 255 bytes, a missing permission) is not computed. Whether opening `result_{seq_id}.fasta` raises is an input, `Services.hitFile`. When it raises, the exception is not caught and ends the batch. The appending opens and the reopen in `align` are taken to succeed once the first open did.
- Fasta.WellFormed: Python's text mode turns "\r\n" and a lone '\r' into '\n' when it reads a file. The model takes the input text after that translation, so Batch.BatchEmptyHitGuard and Fasta.ParsedRecordsWellFormed require that no '\r' is left in it, and a well-formed field holds neither '\n' nor '\r'. The translation itself is not modelled.
- Sleeping is not modelled as real time. It is a `Sleep(5)` event.
- FileFormat.SplitExt: models POSIX `os.path.splitext`, where only '/' separates path components. The Windows form, which also splits on '\\', is not modelled.
- Fasta.ParseSerialize: the reader is the model's own line-based reader. Biopython also strips trailing whitespace from header lines and removes spaces and '\r' from residues, and that is not modelled. The round trip is stated for records with no line break in any field and no residue line starting with '>'.
- Fasta.Parse: Biopython's parser, besides what the line above says, removes spaces from residue lines. A body line made of spaces and then '>' (for example " >AC") is read by the model as residues " >AC", but by Biopython as ">AC", which the hit file then carries as a second header.
- Fasta.ParsedRecordsWellFormed: holds for the model's reader only. Under Biopython's space removal, a body line of spaces followed by '>' yields residues starting with '>', which do not read back as one record.
- Batch.BatchEmptyHitGuard: holds for the model's reader only. For an input record whose residues Biopython reduces to a line starting with '>' (such as " >AC"), the zero-hit hit file reads back as two records, so the script posts it to MUSCLE instead of raising BlastError; the model reports BlastError there.
- Polling.CheckStatus: the status bodies are a finite list. When none of them contains "FINISHED", the model reports that the loop has not stopped within them. The script would go on polling forever.
- Stages.Align: a loop that never stops is an outcome (`Hung`) that ends the batch. It is not a run without end.
