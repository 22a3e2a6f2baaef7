/**
  The input-file gate `file_check` of AutophiGen.py: the extension that
  `os.path.splitext` reports must be one of six FASTA extensions, compared
  case-sensitively; any other name ends the program with "Not a fasta file".
 */
module FileFormat {
  import opened Text

  /** The extension whitelist of `file_check`, in its order. */
  const FastaExtensions: seq<string> := [".fasta", ".fna", ".ffn", ".faa", ".frn", ".fa"]

  /** Some index in `[lo, hi)` of `p` holds a character other than '.'. */
  predicate HasNonDot(p: string, lo: int, hi: int)
    requires 0 <= lo && hi <= |p|
  {
    exists k :: lo <= k < hi && p[k] != '.'
  }

  /**
    `os.path.splitext` on a POSIX path: the extension runs from the last '.'
    to the end, provided that dot lies in the last path component and is not
    one of the leading dots of that component (".bashrc" has no extension).
    A non-empty extension always comes after a named stem; SplitOfStem gives
    the converse, so the two contracts together determine the split.
   */
  function SplitExt(p: string): (parts: (string, string))
    ensures parts.0 + parts.1 == p
    ensures parts.1 == [] || (IsExtension(parts.1) && NamedStem(parts.0))
  {
    var sep := RFind(p, '/');
    var dot := RFind(p, '.');
    if dot > sep && HasNonDot(p, sep + 1, dot) then
      var q, e := p[..dot], p[dot..];
      assert p == q + e;
      RFindAppend(q, e, '/');
      var k :| sep + 1 <= k < dot && p[k] != '.';
      assert q[k] != '.';
      (q, e)
    else
      (p, [])
  }

  /** A string that can be an extension: one leading dot, then no dot and no separator. */
  predicate IsExtension(e: string)
  {
    |e| > 0 && e[0] == '.' && forall i :: 1 <= i < |e| ==> e[i] != '.' && e[i] != '/'
  }

  /** The last path component of `q` has a character other than '.'. */
  predicate NamedStem(q: string)
  {
    HasNonDot(q, RFind(q, '/') + 1, |q|)
  }

  /** A named stem followed by an extension is split exactly there. */
  lemma {:induction false} SplitOfStem(q: string, e: string)
    requires IsExtension(e) && NamedStem(q)
    ensures SplitExt(q + e) == (q, e)
  {
    var p := q + e;
    assert '/' !in e;
    RFindAppend(q, e, '/');
    assert e == [e[0]] + e[1..];
    assert '.' !in e[1..];
    RFindAppend(q, e, '.');
    RFindAppend([e[0]], e[1..], '.');
    assert RFind(p, '.') == |q|;
    var k :| RFind(q, '/') + 1 <= k < |q| && q[k] != '.';
    assert p[k] == q[k];
    assert HasNonDot(p, RFind(p, '/') + 1, RFind(p, '.'));
    assert p[..|q|] == q && p[|q|..] == e;
  }

  /** How `file_check` ends: it returns a message, or exits the program with one. */
  datatype Verdict = Returns(message: string) | Exits(message: string)

  /** `file_check`: accept exactly the names whose splitext extension is whitelisted. */
  function FileCheck(file: string): (v: Verdict)
    ensures v == Returns("valid format") || v == Exits("Not a fasta file")
    ensures v.Returns? <==> SplitExt(file).1 in FastaExtensions
  {
    if SplitExt(file).1 !in FastaExtensions then Exits("Not a fasta file")
    else Returns("valid format")
  }

  /** `file` is `e` preceded by a stem whose last path component is named. */
  predicate EndsWithAfterStem(file: string, e: string)
  {
    |e| <= |file| && file[|file| - |e|..] == e && NamedStem(file[..|file| - |e|])
  }

  /**
    An independent description of the accepted names: a name passes exactly
    when it ends in a whitelisted extension and the part before it has a last
    path component that is not made of dots only.
   */
  lemma FileCheckAccepts(file: string)
    ensures FileCheck(file).Returns? <==>
      exists e :: e in FastaExtensions && EndsWithAfterStem(file, e)
  {
    if FileCheck(file).Returns? {
      AcceptedEndsWell(file);
    }
    if e :| e in FastaExtensions && EndsWithAfterStem(file, e) {
      WellEndedAccepted(file, e);
    }
  }

  lemma AcceptedEndsWell(file: string)
    requires SplitExt(file).1 in FastaExtensions
    ensures EndsWithAfterStem(file, SplitExt(file).1)
  {
    var parts := SplitExt(file);
    var e := parts.1;
    assert file[|file| - |e|..] == e && file[..|file| - |e|] == parts.0;
  }

  lemma WellEndedAccepted(file: string, e: string)
    requires e in FastaExtensions && EndsWithAfterStem(file, e)
    ensures SplitExt(file).1 in FastaExtensions
  {
    var q := file[..|file| - |e|];
    assert file == q + e;
    assert IsExtension(e);
    SplitOfStem(q, e);
  }

  /** The comparison is case-sensitive: upper-case extensions are refused. */
  lemma UpperCaseRefused()
    ensures FileCheck("reads.fasta") == Returns("valid format")
    ensures FileCheck("reads.FASTA") == Exits("Not a fasta file")
  {
    RFindUnique("reads", '/', -1);
    assert NamedStem("reads");
    SplitOfStem("reads", ".fasta");
    assert "reads" + ".fasta" == "reads.fasta";
    SplitOfStem("reads", ".FASTA");
    assert "reads" + ".FASTA" == "reads.FASTA";
  }

  /** A hidden file named only by its extension has no extension in splitext's sense. */
  lemma HiddenFileRefused()
    ensures FileCheck(".fasta") == Exits("Not a fasta file")
  {
  }
}
