/**
  `result_parse` of AutophiGen.py: the hit file `result_{seq_id}.fasta` holds
  the query record, then one record per HSP of every BLAST alignment whose
  title does not contain "complete", in report order.
 */
module Hits {

  import opened Text
  import opened Fasta

  /** One alignment of a parsed BLAST report: its title and the subject string of each HSP, in order. */
  datatype Alignment = Alignment(title: string, subjects: seq<string>)

  /** Alignments whose title contains this marker are left out of the hit file. */
  const CompleteMarker := "complete"

  predicate Kept(a: Alignment)
  {
    !Contains(a.title, CompleteMarker)
  }

  /** The records one alignment contributes when kept: its title with each HSP subject. */
  function AlignmentRecords(a: Alignment): (rs: seq<Record>)
    ensures |rs| == |a.subjects|
    ensures forall j :: 0 <= j < |rs| ==> rs[j] == Record(a.title, a.subjects[j])
  {
    seq(|a.subjects|, j requires 0 <= j < |a.subjects| => Record(a.title, a.subjects[j]))
  }

  /** The hit records of a report, after the title filter. */
  function HitRecords(report: seq<Alignment>): seq<Record>
  {
    if report == [] then []
    else KeptRecords(report[0]) + HitRecords(report[1..])
  }

  /** The records `result_parse` writes for one alignment. */
  function KeptRecords(a: Alignment): seq<Record>
  {
    if Kept(a) then AlignmentRecords(a) else []
  }

  /** The number of HSPs over the alignments that survive the title filter. */
  function KeptHspCount(report: seq<Alignment>): nat
  {
    if report == [] then 0
    else (if Kept(report[0]) then |report[0].subjects| else 0) + KeptHspCount(report[1..])
  }

  function HitFileName(seqId: string): string
  {
    "result_" + seqId + ".fasta"
  }

  /** The records of the hit file: the query first, then the hits. */
  function HitFileRecords(seqId: string, residues: string, report: seq<Alignment>): seq<Record>
  {
    [Record(seqId, residues)] + HitRecords(report)
  }

  /** The text of the hit file: the query record's text comes first. */
  function HitFileText(seqId: string, residues: string, report: seq<Alignment>): (text: string)
    ensures var head := Format(Record(seqId, residues)); |head| <= |text| && text[..|head|] == head
  {
    Serialize(HitFileRecords(seqId, residues, report))
  }

  // ---------------------------------------------------------------- structure of the hit records

  lemma {:induction false} HitRecordsAppend(a: seq<Alignment>, b: seq<Alignment>)
    ensures HitRecords(a + b) == HitRecords(a) + HitRecords(b)
    ensures KeptHspCount(a + b) == KeptHspCount(a) + KeptHspCount(b)
    decreases |a|
  {
    if a == [] {
      assert a + b == b;
    } else {
      assert (a + b)[0] == a[0];
      assert (a + b)[1..] == a[1..] + b;
      HitRecordsAppend(a[1..], b);
      var own := KeptRecords(a[0]);
      assert HitRecords(a + b) == own + (HitRecords(a[1..]) + HitRecords(b));
      assert own + (HitRecords(a[1..]) + HitRecords(b)) == (own + HitRecords(a[1..])) + HitRecords(b);
    }
  }

  /** The hit file holds one record per HSP of each kept alignment. */
  lemma {:induction false} HitCount(report: seq<Alignment>)
    ensures |HitRecords(report)| == KeptHspCount(report)
    decreases |report|
  {
    if report != [] {
      HitCount(report[1..]);
    }
  }

  /**
    Report order: HSP `j` of a kept alignment `i` is written at the position
    after all HSPs of the kept alignments before `i` and the HSPs before `j`.
   */
  lemma HitPosition(report: seq<Alignment>, i: int, j: int)
    requires 0 <= i < |report| && Kept(report[i])
    requires 0 <= j < |report[i].subjects|
    ensures KeptHspCount(report[..i]) + j < |HitRecords(report)|
    ensures HitRecords(report)[KeptHspCount(report[..i]) + j] == Record(report[i].title, report[i].subjects[j])
  {
    assert report == report[..i] + report[i..];
    HitRecordsAppend(report[..i], report[i..]);
    HitCount(report[..i]);
    var tail := report[i..];
    assert tail[0] == report[i];
    assert HitRecords(tail) == AlignmentRecords(report[i]) + HitRecords(tail[1..]);
  }

  /** Every written hit comes from some HSP of a kept alignment. */
  lemma {:induction false} HitOrigin(report: seq<Alignment>, k: int)
    requires 0 <= k < |HitRecords(report)|
    ensures exists i, j :: 0 <= i < |report| && Kept(report[i]) && 0 <= j < |report[i].subjects|
                           && HitRecords(report)[k] == Record(report[i].title, report[i].subjects[j])
    decreases |report|
  {
    var own := KeptRecords(report[0]);
    if k < |own| {
      assert HitRecords(report)[k] == Record(report[0].title, report[0].subjects[k]);
    } else {
      HitOrigin(report[1..], k - |own|);
      var i, j :| 0 <= i < |report[1..]| && Kept(report[1..][i]) && 0 <= j < |report[1..][i].subjects|
                  && HitRecords(report[1..])[k - |own|] == Record(report[1..][i].title, report[1..][i].subjects[j]);
      assert report[1..][i] == report[i + 1];
    }
  }

  /** No written hit has a title containing "complete". */
  lemma NoCompleteTitles(report: seq<Alignment>)
    ensures forall k :: 0 <= k < |HitRecords(report)| ==> !Contains(HitRecords(report)[k].description, CompleteMarker)
  {
    forall k | 0 <= k < |HitRecords(report)|
      ensures !Contains(HitRecords(report)[k].description, CompleteMarker)
    {
      HitOrigin(report, k);
    }
  }

  // ---------------------------------------------------------------- the hit file read back

  /** The report's strings can be carried by FASTA lines. */
  predicate WellFormedReport(report: seq<Alignment>)
  {
    forall i, j :: 0 <= i < |report| && 0 <= j < |report[i].subjects| ==>
      WellFormed(Record(report[i].title, report[i].subjects[j]))
  }

  lemma HitRecordsWellFormed(report: seq<Alignment>)
    requires WellFormedReport(report)
    ensures AllWellFormed(HitRecords(report))
  {
    forall k | 0 <= k < |HitRecords(report)|
      ensures WellFormed(HitRecords(report)[k])
    {
      HitOrigin(report, k);
    }
  }

  /**
    Reading the hit file back gives the query and the hits, so the record
    count `align` sees is one more than the number of kept HSPs, and the
    string it rebuilds is the text that was written.
   */
  lemma HitFileReadBack(seqId: string, residues: string, report: seq<Alignment>)
    requires WellFormed(Record(seqId, residues)) && WellFormedReport(report)
    ensures Parse(HitFileText(seqId, residues, report)) == HitFileRecords(seqId, residues, report)
    ensures |Parse(HitFileText(seqId, residues, report))| == 1 + KeptHspCount(report)
    ensures Serialize(Parse(HitFileText(seqId, residues, report))) == HitFileText(seqId, residues, report)
  {
    HitRecordsWellFormed(report);
    var rs := HitFileRecords(seqId, residues, report);
    assert AllWellFormed(rs) by {
      forall k | 0 <= k < |rs|
        ensures WellFormed(rs[k])
      {
        if k > 0 {
          assert rs[k] == HitRecords(report)[k - 1];
        }
      }
    }
    ParseSerialize(rs);
    HitCount(report);
  }

  // ---------------------------------------------------------------- the writing loop

  /**
    `result_parse` as written: the query record, then a loop over the
    alignments of the report, each handled by AppendHsps.
   */
  method ResultParse(seqId: string, residues: string, report: seq<Alignment>) returns (text: string)
    ensures text == HitFileText(seqId, residues, report)
  {
    var head := Format(Record(seqId, residues));
    text := head;
    var i := 0;
    while i < |report|
      invariant 0 <= i <= |report|
      invariant text == head + Serialize(HitRecords(report[..i]))
    {
      ResultStep(head, text, report, i);
      text := AppendHsps(text, report[i]);
      i := i + 1;
    }
    assert report[..i] == report;
    HitFileTextHead(seqId, residues, report);
  }

  /** The hit file text is the query record's text followed by the hits' text. */
  lemma HitFileTextHead(seqId: string, residues: string, report: seq<Alignment>)
    ensures HitFileText(seqId, residues, report) == Format(Record(seqId, residues)) + Serialize(HitRecords(report))
  {
    var rs := HitFileRecords(seqId, residues, report);
    assert rs[0] == Record(seqId, residues);
    assert rs[1..] == HitRecords(report);
  }

  /** One round of the outer loop extends the written text by the hits of alignment `i`. */
  lemma ResultStep(head: string, text: string, report: seq<Alignment>, i: int)
    requires 0 <= i < |report|
    requires text == head + Serialize(HitRecords(report[..i]))
    ensures text + Serialize(KeptRecords(report[i])) == head + Serialize(HitRecords(report[..i + 1]))
  {
    WrittenStep(report, i);
  }

  lemma WrittenStep(report: seq<Alignment>, i: int)
    requires 0 <= i < |report|
    ensures Serialize(HitRecords(report[..i + 1])) == Serialize(HitRecords(report[..i])) + Serialize(KeptRecords(report[i]))
  {
    var a := report[i];
    assert report[..i + 1] == report[..i] + [a];
    HitRecordsAppend(report[..i], [a]);
    assert [a][1..] == [];
    assert HitRecords([a]) == KeptRecords(a);
    SerializeAppend(HitRecords(report[..i]), KeptRecords(a));
  }

  /**
    The inner loop of `result_parse`: for each HSP of `a`, skip when the
    title contains "complete", otherwise append `>{title}\n{subject}\n`.
   */
  method AppendHsps(text: string, a: Alignment) returns (text': string)
    ensures text' == text + Serialize(KeptRecords(a))
  {
    text' := text;
    var j := 0;
    while j < |a.subjects|
      invariant 0 <= j <= |a.subjects|
      invariant text' == text + Serialize(KeptRecords(a)[..if Kept(a) then j else 0])
    {
      if Contains(a.title, CompleteMarker) {
        j := j + 1;
        continue;
      }
      var r := Record(a.title, a.subjects[j]);
      assert KeptRecords(a)[..j + 1] == KeptRecords(a)[..j] + [r];
      SerializeAppend(KeptRecords(a)[..j], [r]);
      text' := text' + Format(r);
      j := j + 1;
    }
    assert Kept(a) ==> KeptRecords(a)[..j] == KeptRecords(a);
  }
}
