/**
  The stages one input record goes through in `seq_functions` of
  AutophiGen.py: `blast` (with `result_parse`), `align` (with
  `send_sequences`, `check_status`, `get_result`), `phylogeny` (with
  `send_sequences_phylo`, `check_status_phylo`, `get_result_phylo`) and
  `tree_viewer`, with the two `except` clauses that report BlastError and
  MuscleError and let the batch go on.

  Remote services and libraries are inputs: a `Services` value says what each
  call answers for this record.
 */
module Stages {

  import opened Fasta
  import opened Hits
  import opened Effects
  import opened Polling

  /** What a foreign call gives back: its value, or an exception the script does not catch. */
  datatype Reply<T> = Returns(value: T) | Raises(exception: string)

  /** An HTTP response: its status code and its body, decoded. */
  datatype Response = Response(status: int, body: string)

  /** How the services and libraries answer while one record is processed. */
  datatype Services = Services(
    blast: Reply<seq<Alignment>>,   // NCBIWWW.qblast followed by NCBIXML.read
    hitFile: Option<string>,        // the OSError opening result_{seq_id}.fasta raises, if any
    muscleRun: Reply<Response>,
    muscleStatus: seq<string>,
    muscleResult: Reply<string>,
    phyloRun: Reply<Response>,
    phyloStatus: seq<string>,
    phyloResult: Reply<string>,
    viewer: Option<string>)         // the exception tree_viewer raises, if any

  /** The script's own exception classes, and any other exception. */
  datatype Raised = BlastError | MuscleError | Foreign(name: string)

  /** How a stage ends: with a value, by raising, or never (a status loop that does not stop). */
  datatype Flow<T> = Normal(value: T) | Raise(exn: Raised) | Hang

  datatype Step<T> = Step(events: seq<Event>, flow: Flow<T>)

  /** The fixed parameters of the BLAST query in `blast`. */
  const BlastProgram := "blastn"
  const BlastDatabase := "nt"
  const BlastExpect: real := 0.04
  const BlastHitlistSize: nat := 8

  /**
    `blast` and `result_parse`: query BLAST, open and write the hit file, and
    hand its text on. An id the file system refuses as a file name (a '/' in
    it, say) makes `open` raise, and nothing is written.
   */
  function Blast(residues: string, seqId: string, email: string, reply: Reply<seq<Alignment>>, openError: Option<string>)
    : (s: Step<string>)
    ensures s.flow.Normal? <==> reply.Returns? && openError.None?
    ensures s.flow.Normal? ==> s.flow.value == HitFileText(seqId, residues, reply.value)
    ensures s.flow.Raise? ==> s.flow.exn.Foreign?
    ensures reply.Returns? && openError.Some? ==> s.flow == Raise(Foreign(openError.value))
    ensures forall i :: 0 <= i < |s.events| ==> s.events[i].BlastQuery? || s.events[i].FileWritten?
    ensures s.flow.Raise? ==> forall i :: 0 <= i < |s.events| ==> !s.events[i].FileWritten?
  {
    var query := [BlastQuery(BlastProgram, BlastDatabase, residues, BlastExpect, BlastHitlistSize, email)];
    match reply
    case Raises(e) => Step(query, Raise(Foreign(e)))
    case Returns(report) =>
      match openError
      case Some(e) => Step(query, Raise(Foreign(e)))
      case None =>
        var text := HitFileText(seqId, residues, report);
        Step(query + [FileWritten(HitFileName(seqId), text)], Normal(text))
  }

  /** `send_sequences`: post the sequences to MUSCLE; anything but status 200 raises MuscleError. */
  function SendSequences(seqs: string, email: string, seqId: string, reply: Reply<Response>): (s: Step<string>)
    ensures s.flow.Normal? <==> reply.Returns? && reply.value.status == 200
    ensures s.flow.Normal? ==> s.flow.value == reply.value.body
    ensures s.flow == Raise(MuscleError) <==> reply.Returns? && reply.value.status != 200
    ensures s.flow.Raise? && s.flow.exn != MuscleError ==> reply.Raises? && s.flow.exn == Foreign(reply.exception)
    ensures 1 <= |s.events| <= 2 && s.events[0] == Post(RunUrl(Muscle), Form(email, seqs, seqId))
    ensures |s.events| == 2 ==> s.events[1].Print?
  {
    var post := [Post(RunUrl(Muscle), Form(email, seqs, seqId))];
    match reply
    case Raises(e) => Step(post, Raise(Foreign(e)))
    case Returns(response) =>
      if response.status != 200 then Step(post + [Print("Response not 200")], Raise(MuscleError))
      else Step(post + [Print("Aligning " + seqId)], Normal(response.body))
  }

  function AligningLine(seqId: string): string
  {
    "Aligning BLAST results of " + seqId
  }

  /**
    `align`: read the hit file back, refuse a file holding one record with
    BlastError before anything is submitted, otherwise submit the records
    re-serialised, wait for the MUSCLE job and fetch the alignment.
   */
  function Align(fileText: string, seqId: string, email: string, sv: Services): (s: Step<string>)
    ensures s.flow == Raise(BlastError) <==> |Parse(fileText)| == 1
    ensures s.flow == Raise(MuscleError) <==>
      |Parse(fileText)| != 1 && sv.muscleRun.Returns? && sv.muscleRun.value.status != 200
    ensures s.flow.Normal? <==>
      && |Parse(fileText)| != 1
      && sv.muscleRun.Returns? && sv.muscleRun.value.status == 200
      && FirstFinished(sv.muscleStatus).Some?
      && sv.muscleResult.Returns?
    ensures s.flow.Normal? ==> s.flow.value == sv.muscleResult.value
    ensures |Parse(fileText)| == 1 ==> s.events == [Print(AligningLine(seqId))]
    ensures |Parse(fileText)| != 1 ==>
      |s.events| >= 2 && s.events[1] == Post(RunUrl(Muscle), Form(email, Serialize(Parse(fileText)), seqId))
    ensures s.flow == Raise(MuscleError) ==>
      s.events == [Print(AligningLine(seqId)), Post(RunUrl(Muscle), Form(email, Serialize(Parse(fileText)), seqId)),
                   Print("Response not 200")]
  {
    var start := [Print(AligningLine(seqId))];
    var records := Parse(fileText);
    if |records| == 1 then Step(start, Raise(BlastError))
    else
      var send := SendSequences(Serialize(records), email, seqId, sv.muscleRun);
      var sent := start + send.events;
      match send.flow
      case Raise(e) => Step(sent, Raise(e))
      case Hang => Step(sent, Hang)
      case Normal(jobId) =>
        var waited := sent + [Print("Job ID: " + jobId)] + PollEvents(StatusUrl(Muscle, jobId), sv.muscleStatus);
        if FirstFinished(sv.muscleStatus).None? then Step(waited, Hang)
        else
          var fetched := waited + [Get(ResultUrl(Muscle, jobId, "fa"), "text/plain")];
          match sv.muscleResult
          case Raises(e) => Step(fetched, Raise(Foreign(e)))
          case Returns(aligned) => Step(fetched, Normal(aligned))
  }

  /**
    `phylogeny`: submit the alignment to simple_phylogeny, wait, fetch the
    tree. Unlike `send_sequences`, the submission's status code is not
    checked: whatever body comes back is used as the job id.
   */
  function Phylogeny(aligned: string, seqId: string, email: string, sv: Services): (s: Step<string>)
    ensures s.flow.Raise? ==> s.flow.exn.Foreign?
    ensures s.flow.Normal? <==>
      sv.phyloRun.Returns? && FirstFinished(sv.phyloStatus).Some? && sv.phyloResult.Returns?
    ensures s.flow.Normal? ==> s.flow.value == sv.phyloResult.value
    ensures |s.events| >= 2 && s.events[1] == Post(RunUrl(SimplePhylogeny), Form(email, aligned, seqId))
  {
    var start := [Print("Performing phylogenetic analysis on " + seqId),
                  Post(RunUrl(SimplePhylogeny), Form(email, aligned, seqId))];
    match sv.phyloRun
    case Raises(e) => Step(start, Raise(Foreign(e)))
    case Returns(response) =>
      var jobId := response.body;
      var waited := start + [Print("Job ID: " + jobId)] + PollEvents(StatusUrl(SimplePhylogeny, jobId), sv.phyloStatus);
      if FirstFinished(sv.phyloStatus).None? then Step(waited, Hang)
      else
        var fetched := waited + [Get(ResultUrl(SimplePhylogeny, jobId, "tree"), "application/json")];
        match sv.phyloResult
        case Raises(e) => Step(fetched, Raise(Foreign(e)))
        case Returns(tree) => Step(fetched, Normal(tree))
  }

  /** The submission status of simple_phylogeny has no effect on the run. */
  lemma PhylogenyIgnoresStatus(aligned: string, seqId: string, email: string, sv: Services, code: int)
    requires sv.phyloRun.Returns?
    ensures Phylogeny(aligned, seqId, email, sv)
         == Phylogeny(aligned, seqId, email, sv.(phyloRun := Returns(Response(code, sv.phyloRun.value.body))))
  {
  }

  // ---------------------------------------------------------------- one record

  /** How one record's run ends. */
  datatype Outcome =
    | Shown(tree: string)       // tree_viewer returned
    | Reported(exn: Raised)     // BlastError or MuscleError, caught and reported
    | Escaped(exception: string)  // any other exception: it leaves seq_functions
    | Hung                      // a status loop that never sees "FINISHED"

  /** Whether `seq_functions` goes on to the next record. */
  predicate Continues(o: Outcome)
  {
    o.Shown? || o.Reported?
  }

  datatype RecordRun = RecordRun(events: seq<Event>, outcome: Outcome)

  function SendingLine(seqId: string): string
  {
    "Sending " + seqId + " for BLAST"
  }

  function BlastFailureLine(seqId: string): string
  {
    "Error in performing BLAST for " + seqId
  }

  function AlignFailureLine(seqId: string): string
  {
    "Error in Aligning " + seqId
  }

  /** One of the two messages the `except` clauses print for `seqId`. */
  predicate IsFailureReport(e: Event, seqId: string)
  {
    e == Print(BlastFailureLine(seqId)) || e == Print(AlignFailureLine(seqId))
  }

  /**
    The `except` clauses of `seq_functions`: BlastError and MuscleError are
    reported with one line naming the record; any other exception escapes.
   */
  function Handle(seqId: string, events: seq<Event>, e: Raised): (run: RecordRun)
    ensures run.outcome.Reported? <==> !e.Foreign?
    ensures run.outcome.Reported? ==>
      && run.outcome.exn == e
      && |run.events| == |events| + 1 && run.events[..|events|] == events
      && IsFailureReport(run.events[|events|], seqId)
    ensures e.Foreign? ==> run.outcome == Escaped(e.name) && run.events == events
  {
    match e
    case BlastError => RecordRun(events + [Print(BlastFailureLine(seqId))], Reported(e))
    case MuscleError => RecordRun(events + [Print(AlignFailureLine(seqId))], Reported(e))
    case Foreign(name) => RecordRun(events, Escaped(name))
  }

  /** The body of the loop of `seq_functions` for one record `(seq_id, seq)`. */
  function RunRecord(r: Record, email: string, sv: Services): RecordRun
  {
    var id := r.description;
    var b := Blast(r.residues, id, email, sv.blast, sv.hitFile);
    var e0 := [Print(SendingLine(id))] + b.events;
    match b.flow
    case Raise(e) => Handle(id, e0, e)
    case Hang => RecordRun(e0, Hung)
    case Normal(fileText) => AfterBlast(fileText, id, email, sv, e0)
  }

  function AfterBlast(fileText: string, id: string, email: string, sv: Services, e0: seq<Event>): RecordRun
  {
    var a := Align(fileText, id, email, sv);
    var e1 := e0 + a.events;
    match a.flow
    case Raise(e) => Handle(id, e1, e)
    case Hang => RecordRun(e1, Hung)
    case Normal(aligned) => AfterAlign(aligned, id, email, sv, e1)
  }

  function AfterAlign(aligned: string, id: string, email: string, sv: Services, e1: seq<Event>): (run: RecordRun)
    ensures !run.outcome.Reported?
    ensures run.outcome.Shown? <==>
      sv.phyloRun.Returns? && FirstFinished(sv.phyloStatus).Some? && sv.phyloResult.Returns? && sv.viewer.None?
    ensures run.outcome.Shown? ==> run.outcome.tree == sv.phyloResult.value
    ensures |run.events| > |e1| + 1 && run.events[..|e1|] == e1
    ensures run.events[|e1| + 1] == Post(RunUrl(SimplePhylogeny), Form(email, aligned, id))
  {
    var p := Phylogeny(aligned, id, email, sv);
    var e2 := e1 + p.events;
    match p.flow
    case Raise(e) => Handle(id, e2, e)
    case Hang => RecordRun(e2, Hung)
    case Normal(tree) =>
      var e3 := e2 + [ViewTree(tree)];
      match sv.viewer
      case Some(name) => RecordRun(e3, Escaped(name))
      case None => RecordRun(e3, Shown(tree))
  }

  // ---------------------------------------------------------------- properties of one record

  /**
    Only the script's own exceptions are ever reported. An exception from
    BLAST, or from opening the hit file (an id that is no usable file name),
    escapes, and with it the batch ends.
   */
  lemma ForeignEscapes(r: Record, email: string, sv: Services)
    ensures RunRecord(r, email, sv).outcome.Reported? ==> !RunRecord(r, email, sv).outcome.exn.Foreign?
    ensures sv.blast.Raises? ==> RunRecord(r, email, sv).outcome == Escaped(sv.blast.exception)
    ensures sv.blast.Returns? && sv.hitFile.Some? ==> RunRecord(r, email, sv).outcome == Escaped(sv.hitFile.value)
  {
  }

  /**
    The empty-hit guard: a record is reported with BlastError exactly when
    BLAST answered, the hit file could be opened, and no HSP survived the
    title filter.
   */
  lemma EmptyHitGuard(r: Record, email: string, sv: Services)
    requires WellFormed(r)
    requires sv.blast.Returns? ==> WellFormedReport(sv.blast.value)
    ensures RunRecord(r, email, sv).outcome == Reported(BlastError) <==>
      sv.blast.Returns? && sv.hitFile.None? && KeptHspCount(sv.blast.value) == 0
  {
    if sv.blast.Returns? {
      HitFileReadBack(r.description, r.residues, sv.blast.value);
    }
  }

  /**
    A record is reported with MuscleError exactly when the hit file could be
    opened, some hit survived, and the MUSCLE submission answered with a
    status other than 200.
   */
  lemma MuscleErrorWhenRejected(r: Record, email: string, sv: Services)
    requires WellFormed(r)
    requires sv.blast.Returns? ==> WellFormedReport(sv.blast.value)
    ensures RunRecord(r, email, sv).outcome == Reported(MuscleError) <==>
      && sv.blast.Returns? && sv.hitFile.None? && KeptHspCount(sv.blast.value) > 0
      && sv.muscleRun.Returns? && sv.muscleRun.value.status != 200
  {
    if sv.blast.Returns? {
      HitFileReadBack(r.description, r.residues, sv.blast.value);
    }
  }

  /**
    The whole run of a record that BLAST leaves without hits: nothing is
    submitted to MUSCLE, and the one failure message comes last.
   */
  lemma EmptyHitTrace(r: Record, email: string, sv: Services)
    requires RunRecord(r, email, sv).outcome == Reported(BlastError)
    ensures sv.blast.Returns? && sv.hitFile.None?
    ensures RunRecord(r, email, sv).events ==
      [Print(SendingLine(r.description)),
       BlastQuery(BlastProgram, BlastDatabase, r.residues, BlastExpect, BlastHitlistSize, email),
       FileWritten(HitFileName(r.description), HitFileText(r.description, r.residues, sv.blast.value)),
       Print(AligningLine(r.description)),
       Print(BlastFailureLine(r.description))]
  {
  }

  /** The whole run of a record whose MUSCLE submission is rejected. */
  lemma RejectedTrace(r: Record, email: string, sv: Services)
    requires RunRecord(r, email, sv).outcome == Reported(MuscleError)
    ensures sv.blast.Returns? && sv.hitFile.None?
    ensures var text := HitFileText(r.description, r.residues, sv.blast.value);
      RunRecord(r, email, sv).events ==
      [Print(SendingLine(r.description)),
       BlastQuery(BlastProgram, BlastDatabase, r.residues, BlastExpect, BlastHitlistSize, email),
       FileWritten(HitFileName(r.description), text),
       Print(AligningLine(r.description)),
       Post(RunUrl(Muscle), Form(email, Serialize(Parse(text)), r.description)),
       Print("Response not 200"),
       Print(AlignFailureLine(r.description))]
  {
  }

  /**
    The shape of a reported record's events: exactly one failure message
    naming the record, as the last event, and nothing from a later stage: no
    status request, no result fetch, no sleep, no tree, no post but MUSCLE's.
   */
  predicate ReportedTrace(events: seq<Event>, id: string)
  {
    && |events| > 0
    && IsFailureReport(events[|events| - 1], id)
    && (forall i :: 0 <= i < |events| - 1 ==> !IsFailureReport(events[i], id))
    && (forall i :: 0 <= i < |events| ==> !events[i].Get? && !events[i].ViewTree? && !events[i].Sleep?)
    && (forall i :: 0 <= i < |events| && events[i].Post? ==> events[i].url == RunUrl(Muscle))
  }

  /** A reported record prints one failure message naming it, last, and no later stage runs. */
  lemma ReportedOnce(r: Record, email: string, sv: Services)
    requires RunRecord(r, email, sv).outcome.Reported?
    ensures ReportedTrace(RunRecord(r, email, sv).events, r.description)
  {
    if RunRecord(r, email, sv).outcome == Reported(BlastError) {
      ReportedOnceBlast(r, email, sv);
    } else {
      ReportedOnceMuscle(r, email, sv);
    }
  }

  lemma ReportedOnceBlast(r: Record, email: string, sv: Services)
    requires RunRecord(r, email, sv).outcome == Reported(BlastError)
    ensures ReportedTrace(RunRecord(r, email, sv).events, r.description)
  {
    EmptyHitTrace(r, email, sv);
    var events := RunRecord(r, email, sv).events;
    FailureTraceFacts(r.description, events[..4], events[4]);
    assert events == events[..4] + [events[4]];
  }

  lemma ReportedOnceMuscle(r: Record, email: string, sv: Services)
    requires RunRecord(r, email, sv).outcome == Reported(MuscleError)
    ensures ReportedTrace(RunRecord(r, email, sv).events, r.description)
  {
    RejectedTrace(r, email, sv);
    var events := RunRecord(r, email, sv).events;
    FailureTraceFacts(r.description, events[..6], events[6]);
    assert events == events[..6] + [events[6]];
  }

  /** The lines printed before a failure message are never failure messages. */
  lemma FailureTraceFacts(id: string, pre: seq<Event>, last: Event)
    requires IsFailureReport(last, id)
    requires forall i :: 0 <= i < |pre| && pre[i].Print? ==>
      pre[i].line in {SendingLine(id), AligningLine(id), "Response not 200"}
    requires forall i :: 0 <= i < |pre| ==> !pre[i].Get? && !pre[i].ViewTree? && !pre[i].Sleep?
    requires forall i :: 0 <= i < |pre| && pre[i].Post? ==> pre[i].url == RunUrl(Muscle)
    ensures ReportedTrace(pre + [last], id)
  {
    assert SendingLine(id)[0] == 'S' && AligningLine(id)[0] == 'A' && "Response not 200"[0] == 'R';
    assert BlastFailureLine(id)[0] == 'E' && AlignFailureLine(id)[0] == 'E';
  }

  /**
    Every call answers, the hit file opens, some hit survives the filter, MUSCLE accepts the
    submission, both status loops see "FINISHED" and the viewer returns.
   */
  predicate AllAnswer(sv: Services)
  {
    && sv.blast.Returns? && sv.hitFile.None? && KeptHspCount(sv.blast.value) > 0
    && sv.muscleRun.Returns? && sv.muscleRun.value.status == 200
    && FirstFinished(sv.muscleStatus).Some? && sv.muscleResult.Returns?
    && sv.phyloRun.Returns? && FirstFinished(sv.phyloStatus).Some? && sv.phyloResult.Returns?
    && sv.viewer.None?
  }

  /**
    A record reaches the tree viewer and returns exactly when every service
    answers, some hit survives the filter, MUSCLE accepts the submission and
    both status loops see "FINISHED"; the tree is simple_phylogeny's answer.
   */
  lemma ShownWhenAllAnswer(r: Record, email: string, sv: Services)
    requires WellFormed(r)
    requires sv.blast.Returns? ==> WellFormedReport(sv.blast.value)
    ensures RunRecord(r, email, sv).outcome.Shown? <==> AllAnswer(sv)
    ensures RunRecord(r, email, sv).outcome.Shown? ==>
      RunRecord(r, email, sv).outcome.tree == sv.phyloResult.value
  {
    if sv.blast.Returns? {
      HitFileReadBack(r.description, r.residues, sv.blast.value);
    }
  }

  /**
    What each stage hands on: MUSCLE receives exactly the hit file that was
    written, and simple_phylogeny receives exactly MUSCLE's alignment.
   */
  lemma HandOver(r: Record, email: string, sv: Services)
    requires WellFormed(r)
    requires sv.blast.Returns? && sv.hitFile.None? && WellFormedReport(sv.blast.value)
    requires KeptHspCount(sv.blast.value) > 0
    ensures Post(RunUrl(Muscle), Form(email, HitFileText(r.description, r.residues, sv.blast.value), r.description))
            in RunRecord(r, email, sv).events
    ensures sv.muscleRun.Returns? && sv.muscleRun.value.status == 200 &&
            FirstFinished(sv.muscleStatus).Some? && sv.muscleResult.Returns? ==>
            Post(RunUrl(SimplePhylogeny), Form(email, sv.muscleResult.value, r.description))
            in RunRecord(r, email, sv).events
  {
    HandOverMuscle(r, email, sv);
    if sv.muscleRun.Returns? && sv.muscleRun.value.status == 200 &&
       FirstFinished(sv.muscleStatus).Some? && sv.muscleResult.Returns? {
      HandOverPhylogeny(r, email, sv);
    }
  }

  lemma HandOverMuscle(r: Record, email: string, sv: Services)
    requires WellFormed(r)
    requires sv.blast.Returns? && sv.hitFile.None? && WellFormedReport(sv.blast.value)
    requires KeptHspCount(sv.blast.value) > 0
    ensures Post(RunUrl(Muscle), Form(email, HitFileText(r.description, r.residues, sv.blast.value), r.description))
            in RunRecord(r, email, sv).events
  {
    var id := r.description;
    var text := HitFileText(id, r.residues, sv.blast.value);
    HitFileReadBack(id, r.residues, sv.blast.value);
    var e0 := [Print(SendingLine(id))] + Blast(r.residues, id, email, sv.blast, sv.hitFile).events;
    var a := Align(text, id, email, sv);
    var run := RunRecord(r, email, sv);
    assert run == AfterBlast(text, id, email, sv, e0);
    AlignedPrefix(text, id, email, sv, e0);
    assert run.events[|e0| + 1] == (e0 + a.events)[|e0| + 1] == a.events[1];
  }

  /** Whatever follows alignment only adds events after those of `align`. */
  lemma AlignedPrefix(fileText: string, id: string, email: string, sv: Services, e0: seq<Event>)
    ensures var done := e0 + Align(fileText, id, email, sv).events;
      var run := AfterBlast(fileText, id, email, sv, e0);
      |done| <= |run.events| && run.events[..|done|] == done
  {
  }

  lemma HandOverPhylogeny(r: Record, email: string, sv: Services)
    requires WellFormed(r)
    requires sv.blast.Returns? && sv.hitFile.None? && WellFormedReport(sv.blast.value)
    requires KeptHspCount(sv.blast.value) > 0
    requires sv.muscleRun.Returns? && sv.muscleRun.value.status == 200
    requires FirstFinished(sv.muscleStatus).Some? && sv.muscleResult.Returns?
    ensures Post(RunUrl(SimplePhylogeny), Form(email, sv.muscleResult.value, r.description))
            in RunRecord(r, email, sv).events
  {
    var id := r.description;
    var text := HitFileText(id, r.residues, sv.blast.value);
    HitFileReadBack(id, r.residues, sv.blast.value);
    var e0 := [Print(SendingLine(id))] + Blast(r.residues, id, email, sv.blast, sv.hitFile).events;
    var a := Align(text, id, email, sv);
    assert a.flow == Normal(sv.muscleResult.value);
    var e1 := e0 + a.events;
    var run := RunRecord(r, email, sv);
    assert run == AfterAlign(sv.muscleResult.value, id, email, sv, e1);
    assert run.events[|e1| + 1] == Post(RunUrl(SimplePhylogeny), Form(email, sv.muscleResult.value, id));
  }
}
