/**
  String helpers with the meaning Python gives them in AutophiGen.py:
  the substring test `sub in s`, and `str.rfind` / `str.find` for one character.
 */
module Text {

  /** `sub` occurs in `s` starting at index `i`. */
  predicate OccursAt(s: string, sub: string, i: int)
  {
    0 <= i && i + |sub| <= |s| && s[i..i + |sub|] == sub
  }

  /** Python's `sub in s` for two strings: a (case-sensitive) substring test. */
  predicate Contains(s: string, sub: string)
  {
    exists i :: 0 <= i <= |s| && OccursAt(s, sub, i)
  }

  /** A string shorter than `sub` cannot contain it. */
  lemma ShorterNeverContains(s: string, sub: string)
    requires |s| < |sub|
    ensures !Contains(s, sub)
  {
  }

  /** Python's `s.rfind(c)`: the last index holding `c`, or -1 when there is none. */
  function RFind(s: string, c: char): (r: int)
    ensures -1 <= r < |s|
    ensures 0 <= r ==> s[r] == c
    ensures forall j :: r < j < |s| ==> s[j] != c
  {
    if |s| == 0 then -1
    else if s[|s| - 1] == c then |s| - 1
    else RFind(s[..|s| - 1], c)
  }

  /** The three properties in RFind's contract single out its result. */
  lemma {:induction false} RFindUnique(s: string, c: char, r: int)
    requires -1 <= r < |s|
    requires 0 <= r ==> s[r] == c
    requires forall j :: r < j < |s| ==> s[j] != c
    ensures r == RFind(s, c)
    decreases |s|
  {
    if r < |s| - 1 {
      var t := s[..|s| - 1];
      forall j | r < j < |t|
        ensures t[j] != c
      {
        assert t[j] == s[j];
      }
      RFindUnique(t, c, r);
    }
  }

  /** The last `c` of `a + b` lies in `b` when `b` has one, and is the last `c` of `a` otherwise. */
  lemma RFindAppend(a: string, b: string, c: char)
    ensures c !in b ==> RFind(a + b, c) == RFind(a, c)
    ensures c in b ==> RFind(a + b, c) == |a| + RFind(b, c)
  {
    if c in b {
      RFindInSuffix(a, b, c);
    } else {
      RFindPastSuffix(a, b, c);
    }
  }

  lemma {:induction false} RFindInSuffix(a: string, b: string, c: char)
    requires c in b
    ensures RFind(a + b, c) == |a| + RFind(b, c)
    decreases |b|
  {
    var s := a + b;
    var n := |b| - 1;
    assert s[|s| - 1] == b[n];
    if b[n] != c {
      var t := b[..n];
      assert c in t by {
        var k :| 0 <= k < |b| && b[k] == c;
        assert k < n && t[k] == c;
      }
      assert s[..|s| - 1] == a + t;
      RFindInSuffix(a, t, c);
    }
  }

  lemma {:induction false} RFindPastSuffix(a: string, b: string, c: char)
    requires c !in b
    ensures RFind(a + b, c) == RFind(a, c)
    decreases |b|
  {
    if b == [] {
      assert a + b == a;
    } else {
      var s := a + b;
      var n := |b| - 1;
      assert s[|s| - 1] == b[n];
      var t := b[..n];
      assert c !in t by {
        forall k | 0 <= k < |t|
          ensures t[k] != c
        {
          assert t[k] == b[k];
        }
      }
      assert s[..|s| - 1] == a + t;
      RFindPastSuffix(a, t, c);
    }
  }

  /** Python's `s.find(c)`, except that a missing `c` gives `|s|` rather than -1. */
  function IndexOf(s: string, c: char): (i: nat)
    ensures i <= |s|
    ensures i < |s| ==> s[i] == c
    ensures forall j :: 0 <= j < i ==> s[j] != c
  {
    if |s| == 0 then 0
    else if s[0] == c then 0
    else 1 + IndexOf(s[1..], c)
  }
}
