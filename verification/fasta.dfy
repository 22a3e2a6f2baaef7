/**
  FASTA text as AutophiGen.py writes and reads it. Records are written as
  `>{description}\n{residues}\n` (by `result_parse` and `align`); reading splits the
  text into lines, starts a record at every line beginning with '>' and joins
  the lines up to the next header into the residue string.
 */
module Fasta {

  import opened Text

  datatype Record = Record(description: string, residues: string)

  /** One record in the layout of the script's f-strings. */
  function Format(r: Record): string
  {
    ">" + r.description + "\n" + r.residues + "\n"
  }

  /** Records written one after another. */
  function Serialize(rs: seq<Record>): string
  {
    if rs == [] then [] else Format(rs[0]) + Serialize(rs[1..])
  }

  lemma {:induction false} SerializeAppend(a: seq<Record>, b: seq<Record>)
    ensures Serialize(a + b) == Serialize(a) + Serialize(b)
    decreases |a|
  {
    if a == [] {
      assert a + b == b;
    } else {
      assert (a + b)[1..] == a[1..] + b;
      SerializeAppend(a[1..], b);
    }
  }

  // ---------------------------------------------------------------- lines

  /** The lines of a text, without their '\n'; a final '\n' does not open an empty line. */
  function Lines(text: string): (ls: seq<string>)
    ensures forall i :: 0 <= i < |ls| ==> '\n' !in ls[i]
    decreases |text|
  {
    if text == [] then []
    else
      var i := IndexOf(text, '\n');
      if i == |text| then [text]
      else [text[..i]] + Lines(text[i + 1..])
  }

  /** Each line followed by '\n'. */
  function JoinLines(ls: seq<string>): string
  {
    if ls == [] then [] else ls[0] + "\n" + JoinLines(ls[1..])
  }

  lemma {:induction false} LinesOfJoin(ls: seq<string>)
    requires forall i :: 0 <= i < |ls| ==> '\n' !in ls[i]
    ensures Lines(JoinLines(ls)) == ls
    decreases |ls|
  {
    if ls != [] {
      assert JoinLines(ls) == ls[0] + ("\n" + JoinLines(ls[1..]));
      LinesStep(ls[0], JoinLines(ls[1..]));
      LinesOfJoin(ls[1..]);
    }
  }

  /** A line without '\n' followed by '\n' is the first line of the text. */
  lemma LinesStep(l: string, rest: string)
    requires '\n' !in l
    ensures Lines(l + ("\n" + rest)) == [l] + Lines(rest)
  {
    var text := l + ("\n" + rest);
    assert text[|l|] == '\n';
    assert forall j :: 0 <= j < |l| ==> text[j] == l[j];
    assert IndexOf(text, '\n') == |l|;
    assert text[..|l|] == l;
    assert text[|l| + 1..] == rest;
  }

  // ---------------------------------------------------------------- parsing

  predicate IsHeader(line: string)
  {
    |line| > 0 && line[0] == '>'
  }

  /** How many lines at the front of `ls` belong to the record body (up to the next header). */
  function BodyLength(ls: seq<string>): (k: nat)
    ensures k <= |ls|
    ensures forall j :: 0 <= j < k ==> !IsHeader(ls[j])
    ensures k < |ls| ==> IsHeader(ls[k])
  {
    if ls == [] || IsHeader(ls[0]) then 0 else 1 + BodyLength(ls[1..])
  }

  /** Lines joined with nothing between them. */
  function Concat(ls: seq<string>): string
  {
    if ls == [] then [] else ls[0] + Concat(ls[1..])
  }

  /** Records from lines; lines before the first header belong to no record and are skipped. */
  function ParseLines(ls: seq<string>): seq<Record>
    decreases |ls|
  {
    if ls == [] then []
    else if !IsHeader(ls[0]) then ParseLines(ls[1..])
    else
      var k := BodyLength(ls[1..]);
      [Record(ls[0][1..], Concat(ls[1..k + 1]))] + ParseLines(ls[k + 1..])
  }

  /** The reader used for the input file and for the hit file. */
  function Parse(text: string): seq<Record>
  {
    ParseLines(Lines(text))
  }

  // ---------------------------------------------------------------- round trip

  /**
    No character that ends a line when Python reads a file in text mode:
    '\n', and '\r' (alone or before '\n'), which that reading turns into '\n'.
   */
  predicate Unbroken(s: string)
  {
    '\n' !in s && '\r' !in s
  }

  /**
    A record the text layout can carry: neither field holds a line break, and
    the residue line does not look like a header.
   */
  predicate WellFormed(r: Record)
  {
    Unbroken(r.description) && Unbroken(r.residues) && !IsHeader(r.residues)
  }

  predicate AllWellFormed(rs: seq<Record>)
  {
    forall i :: 0 <= i < |rs| ==> WellFormed(rs[i])
  }

  /** The two lines each record occupies. */
  function RecordLines(rs: seq<Record>): (ls: seq<string>)
    ensures |ls| == 2 * |rs|
  {
    if rs == [] then [] else [">" + rs[0].description, rs[0].residues] + RecordLines(rs[1..])
  }

  lemma {:induction false} SerializeIsJoinedLines(rs: seq<Record>)
    ensures Serialize(rs) == JoinLines(RecordLines(rs))
    decreases |rs|
  {
    if rs != [] {
      var ls := RecordLines(rs);
      assert ls[1..][1..] == RecordLines(rs[1..]);
      SerializeIsJoinedLines(rs[1..]);
    }
  }

  lemma {:induction false} ParseRecordLines(rs: seq<Record>)
    requires AllWellFormed(rs)
    ensures ParseLines(RecordLines(rs)) == rs
    decreases |rs|
  {
    if rs != [] {
      var ls := RecordLines(rs);
      var rest := RecordLines(rs[1..]);
      assert ls == [">" + rs[0].description, rs[0].residues] + rest;
      assert IsHeader(ls[0]);
      assert ls[1..] == [rs[0].residues] + rest;
      assert !IsHeader(ls[1]);
      if rest != [] {
        assert rest[0] == ">" + rs[1].description;
        assert IsHeader(ls[1..][1]);
      }
      assert BodyLength(ls[1..]) == 1;
      assert ls[1..2] == [rs[0].residues];
      assert Concat(ls[1..2]) == rs[0].residues;
      assert ls[0][1..] == rs[0].description;
      assert ls[2..] == rest;
      ParseRecordLines(rs[1..]);
    }
  }

  /** Reading back what was written gives the same records, in the same order. */
  lemma ParseSerialize(rs: seq<Record>)
    requires AllWellFormed(rs)
    ensures Parse(Serialize(rs)) == rs
  {
    SerializeIsJoinedLines(rs);
    var ls := RecordLines(rs);
    forall i | 0 <= i < |ls|
      ensures '\n' !in ls[i]
    {
      RecordLinesNoBreak(rs, i);
    }
    LinesOfJoin(ls);
    ParseRecordLines(rs);
  }

  lemma {:induction false} RecordLinesNoBreak(rs: seq<Record>, i: int)
    requires AllWellFormed(rs)
    requires 0 <= i < 2 * |rs|
    ensures '\n' !in RecordLines(rs)[i]
    decreases |rs|
  {
    if i >= 2 {
      RecordLinesNoBreak(rs[1..], i - 2);
    } else {
      assert WellFormed(rs[0]);
    }
  }

  /** Writing what was read back reproduces the written text. */
  lemma SerializeParseSerialize(rs: seq<Record>)
    requires AllWellFormed(rs)
    ensures Serialize(Parse(Serialize(rs))) == Serialize(rs)
    ensures |Parse(Serialize(rs))| == |rs|
  {
    ParseSerialize(rs);
  }

  // ---------------------------------------------------------------- parsed records

  lemma {:induction false} ConcatBody(ls: seq<string>)
    requires forall i :: 0 <= i < |ls| ==> Unbroken(ls[i]) && !IsHeader(ls[i])
    ensures Unbroken(Concat(ls)) && !IsHeader(Concat(ls))
    decreases |ls|
  {
    if ls != [] {
      ConcatBody(ls[1..]);
      var c := Concat(ls);
      assert c == ls[0] + Concat(ls[1..]);
      if ls[0] == [] {
        assert c == Concat(ls[1..]);
      } else {
        assert c[0] == ls[0][0];
      }
    }
  }

  lemma {:induction false} ParseLinesWellFormed(ls: seq<string>)
    requires forall i :: 0 <= i < |ls| ==> Unbroken(ls[i])
    ensures AllWellFormed(ParseLines(ls))
    decreases |ls|
  {
    if ls != [] {
      if !IsHeader(ls[0]) {
        ParseLinesWellFormed(ls[1..]);
      } else {
        var k := BodyLength(ls[1..]);
        var body := ls[1..k + 1];
        assert forall j :: 0 <= j < |body| ==> body[j] == ls[1..][j];
        ConcatBody(body);
        assert Unbroken(ls[0][1..]) by {
          forall j | 0 <= j < |ls[0][1..]|
            ensures ls[0][1..][j] != '\n' && ls[0][1..][j] != '\r'
          {
            assert ls[0][1..][j] == ls[0][j + 1];
          }
        }
        ParseLinesWellFormed(ls[k + 1..]);
      }
    }
  }

  /**
    Every record read from text as Python's text mode delivers it (no '\r'
    left) can be written back without loss.
   */
  lemma ParsedRecordsWellFormed(text: string)
    requires '\r' !in text
    ensures AllWellFormed(Parse(text))
  {
    LinesUnbroken(text);
    ParseLinesWellFormed(Lines(text));
  }

  lemma {:induction false} LinesUnbroken(text: string)
    requires '\r' !in text
    ensures forall i :: 0 <= i < |Lines(text)| ==> Unbroken(Lines(text)[i])
    decreases |text|
  {
    if text != [] {
      var i := IndexOf(text, '\n');
      if i < |text| {
        var rest := text[i + 1..];
        assert '\r' !in rest by {
          forall j | 0 <= j < |rest|
            ensures rest[j] != '\r'
          {
            assert rest[j] == text[i + 1 + j];
          }
        }
        LinesUnbroken(rest);
        assert '\r' !in text[..i] by {
          forall j | 0 <= j < i
            ensures text[..i][j] != '\r'
          {
            assert text[..i][j] == text[j];
          }
        }
        assert Lines(text) == [text[..i]] + Lines(rest);
      }
    }
  }
}
