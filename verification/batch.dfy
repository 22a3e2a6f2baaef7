/**
  `seq_functions` of AutophiGen.py: the records of the input file are run one
  after another, in file order. BlastError and MuscleError are caught and
  reported per record and the loop goes on; any other exception leaves the
  function and ends the batch, and a status loop that never stops holds it
  forever.
 */
module Batch {

  import opened Fasta
  import opened Hits
  import opened Effects
  import opened Stages

  /**
    The loop's control flow over the runs records would have on their own:
    it takes them in order and stops after the first whose outcome does not
    let it go on.
   */
  function Stop(alone: seq<RecordRun>): (runs: seq<RecordRun>)
    ensures |runs| <= |alone| && runs == alone[..|runs|]
    ensures forall i :: 0 <= i < |runs| - 1 ==> Continues(runs[i].outcome)
    ensures |runs| < |alone| ==> 0 < |runs| && !Continues(runs[|runs| - 1].outcome)
    ensures alone != [] ==> runs != []
  {
    if alone == [] then []
    else if Continues(alone[0].outcome) then [alone[0]] + Stop(alone[1..])
    else [alone[0]]
  }

  /** Each record's run on its own, in input order. */
  function Alone(records: seq<Record>, email: string, services: seq<Services>): (alone: seq<RecordRun>)
    requires |services| == |records|
    ensures |alone| == |records|
    ensures forall i :: 0 <= i < |records| ==> alone[i] == RunRecord(records[i], email, services[i])
  {
    seq(|records|, i requires 0 <= i < |records| => RunRecord(records[i], email, services[i]))
  }

  /** The runs of the records the loop reaches, in input order; `services[i]` answers for record `i`. */
  function RunBatch(records: seq<Record>, email: string, services: seq<Services>): (runs: seq<RecordRun>)
    requires |services| == |records|
    ensures |runs| <= |records|
    ensures forall i :: 0 <= i < |runs| ==> runs[i] == RunRecord(records[i], email, services[i])
    ensures forall i :: 0 <= i < |runs| - 1 ==> Continues(runs[i].outcome)
    ensures |runs| < |records| ==> 0 < |runs| && !Continues(runs[|runs| - 1].outcome)
  {
    Stop(Alone(records, email, services))
  }

  /** `seq_functions` on the text of the input file. */
  function SeqFunctions(inputText: string, email: string, services: seq<Services>): (runs: seq<RecordRun>)
    requires |services| == |Parse(inputText)|
    ensures |runs| <= |Parse(inputText)|
    ensures forall i :: 0 <= i < |runs| ==> runs[i] == RunRecord(Parse(inputText)[i], email, services[i])
    ensures forall i :: 0 <= i < |runs| - 1 ==> Continues(runs[i].outcome)
    ensures |runs| < |Parse(inputText)| ==> 0 < |runs| && !Continues(runs[|runs| - 1].outcome)
  {
    RunBatch(Parse(inputText), email, services)
  }

  /** Everything the batch does, record after record. */
  function Output(runs: seq<RecordRun>): seq<Event>
  {
    if runs == [] then [] else runs[0].events + Output(runs[1..])
  }

  /** The events of record `k` form one contiguous block of the output, after those of the records before it. */
  lemma {:induction false} OutputBlock(runs: seq<RecordRun>, k: int)
    requires 0 <= k < |runs|
    ensures Output(runs) == Output(runs[..k]) + runs[k].events + Output(runs[k + 1..])
    decreases k
  {
    if k > 0 {
      OutputBlock(runs[1..], k - 1);
      assert runs[1..][..k - 1] == runs[1..k];
      assert runs[1..][k - 1] == runs[k];
      assert runs[1..][k..] == runs[k + 1..];
      assert runs[..k][1..] == runs[1..k];
    } else {
      assert runs[..0] == [];
    }
  }

  /** Record `k` is processed exactly when every record before it ended in a way the loop goes on from. */
  lemma Reached(records: seq<Record>, email: string, services: seq<Services>, k: int)
    requires |services| == |records| && 0 <= k < |records|
    ensures k < |RunBatch(records, email, services)| <==>
      forall j :: 0 <= j < k ==> Continues(RunRecord(records[j], email, services[j]).outcome)
  {
    StopReaches(Alone(records, email, services), k);
  }

  lemma StopReaches(alone: seq<RecordRun>, k: int)
    requires 0 <= k < |alone|
    ensures k < |Stop(alone)| <==> forall j :: 0 <= j < k ==> Continues(alone[j].outcome)
  {
    var runs := Stop(alone);
    if k >= |runs| {
      assert alone[|runs| - 1] == runs[|runs| - 1];
    } else {
      forall j | 0 <= j < k
        ensures Continues(alone[j].outcome)
      {
        assert alone[j] == runs[j];
      }
    }
  }

  /**
    Per-record isolation: a record that raises BlastError or MuscleError
    prints one failure message naming it, runs no later stage, and the next
    record is still processed.
   */
  lemma ReportedRecordIsolated(records: seq<Record>, email: string, services: seq<Services>, k: int)
    requires |services| == |records| && 0 <= k < |records|
    requires forall j :: 0 <= j < k ==> Continues(RunRecord(records[j], email, services[j]).outcome)
    requires RunRecord(records[k], email, services[k]).outcome.Reported?
    ensures k < |RunBatch(records, email, services)|
    ensures ReportedTrace(RunBatch(records, email, services)[k].events, records[k].description)
    ensures k + 1 < |records| ==> k + 1 < |RunBatch(records, email, services)|
  {
    Reached(records, email, services, k);
    ReportedOnce(records[k], email, services[k]);
    if k + 1 < |records| {
      Reached(records, email, services, k + 1);
    }
  }

  /** A record whose exception escapes, or whose status loop never stops, is the last one processed. */
  lemma StopsAtEscape(records: seq<Record>, email: string, services: seq<Services>, k: int)
    requires |services| == |records|
    requires 0 <= k < |RunBatch(records, email, services)|
    requires !Continues(RunBatch(records, email, services)[k].outcome)
    ensures |RunBatch(records, email, services)| == k + 1
  {
  }

  /**
    For records read from the input file by the model's reader, the empty-hit
    guard needs no assumption on the query: record `k` is reported with BlastError
    exactly when BLAST answered, the hit file opened, and no HSP survived
    the title filter.
   */
  lemma BatchEmptyHitGuard(inputText: string, email: string, services: seq<Services>, k: int)
    requires '\r' !in inputText && |services| == |Parse(inputText)|
    requires 0 <= k < |SeqFunctions(inputText, email, services)|
    requires services[k].blast.Returns? ==> WellFormedReport(services[k].blast.value)
    ensures SeqFunctions(inputText, email, services)[k].outcome == Reported(BlastError) <==>
      services[k].blast.Returns? && services[k].hitFile.None? && KeptHspCount(services[k].blast.value) == 0
  {
    ParsedRecordsWellFormed(inputText);
    EmptyHitGuard(Parse(inputText)[k], email, services[k]);
  }

  /**
    Two records, the first answered in full and the second left without
    hits by the filter: both are processed, the first shows its tree and
    the second is reported with BlastError.
   */
  lemma MixedBatch(r1: Record, r2: Record, email: string, s1: Services, s2: Services)
    requires WellFormed(r1) && WellFormed(r2)
    requires AllAnswer(s1) && WellFormedReport(s1.blast.value)
    requires s2.blast.Returns? && s2.hitFile.None? && WellFormedReport(s2.blast.value)
    requires KeptHspCount(s2.blast.value) == 0
    ensures var runs := RunBatch([r1, r2], email, [s1, s2]);
      && |runs| == 2
      && runs[0].outcome == Shown(s1.phyloResult.value)
      && runs[1].outcome == Reported(BlastError)
  {
    ShownWhenAllAnswer(r1, email, s1);
    EmptyHitGuard(r2, email, s2);
    Reached([r1, r2], email, [s1, s2], 1);
  }
}
