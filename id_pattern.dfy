/**
 * The bracketed-ID pattern `\[([A-Z]{2,4}-\d{3,})\]` shared by the
 * fingerprint check (fingerprint_sync.py) and the ID integrity check
 * (id_integrity_check.py), written as a scanner over characters: `findall`
 * returns the captured IDs of the non-overlapping matches from left to right.
 * `\d` is taken as the ASCII digits.
 */
module IdPattern {
  import opened Wrappers
  import opened Text
  import Ordering

  predicate IsUpper(c: char) {
    'A' <= c <= 'Z'
  }

  predicate IsDigit(c: char) {
    '0' <= c <= '9'
  }

  /** x has k capitals, a hyphen, and three or more digits after it. */
  predicate IdShapeAt(x: string, k: nat) {
    && k + 4 <= |x|
    && (forall j :: 0 <= j < k ==> IsUpper(x[j]))
    && x[k] == '-'
    && (forall j :: k < j < |x| ==> IsDigit(x[j]))
  }

  /** The text the capturing group matches: `[A-Z]{2,4}-\d{3,}`. */
  predicate IdShape(x: string) {
    exists k :: 2 <= k <= 4 && IdShapeAt(x, k)
  }

  /** "[" + x + "]". */
  function Bracketed(x: string): string {
    "[" + x + "]"
  }

  /** The length of the run of capitals that starts s. */
  function UpperRun(s: string): (n: nat)
    ensures n <= |s|
  {
    if s != [] && IsUpper(s[0]) then 1 + UpperRun(s[1..]) else 0
  }

  /** The run is the longest prefix of capitals. */
  lemma {:induction false} UpperRunChars(s: string)
    ensures forall j :: 0 <= j < UpperRun(s) ==> IsUpper(s[j])
    ensures UpperRun(s) < |s| ==> !IsUpper(s[UpperRun(s)])
  {
    if s != [] && IsUpper(s[0]) {
      UpperRunChars(s[1..]);
      forall j | 0 < j < UpperRun(s) ensures IsUpper(s[j]) {
        assert s[j] == s[1..][j - 1];
      }
    }
  }

  /** The length of the run of digits that starts s. */
  function DigitRun(s: string): (n: nat)
    ensures n <= |s|
  {
    if s != [] && IsDigit(s[0]) then 1 + DigitRun(s[1..]) else 0
  }

  /** The run is the longest prefix of digits. */
  lemma {:induction false} DigitRunChars(s: string)
    ensures forall j :: 0 <= j < DigitRun(s) ==> IsDigit(s[j])
    ensures DigitRun(s) < |s| ==> !IsDigit(s[DigitRun(s)])
  {
    if s != [] && IsDigit(s[0]) {
      DigitRunChars(s[1..]);
      forall j | 0 < j < DigitRun(s) ensures IsDigit(s[j]) {
        assert s[j] == s[1..][j - 1];
      }
    }
  }

  lemma {:induction false} UpperRunExact(s: string, k: nat)
    requires k <= |s| && (forall j :: 0 <= j < k ==> IsUpper(s[j])) && (k < |s| ==> !IsUpper(s[k]))
    ensures UpperRun(s) == k
  {
    if k > 0 {
      UpperRunExact(s[1..], k - 1);
    }
  }

  lemma {:induction false} DigitRunExact(s: string, k: nat)
    requires k <= |s| && (forall j :: 0 <= j < k ==> IsDigit(s[j])) && (k < |s| ==> !IsDigit(s[k]))
    ensures DigitRun(s) == k
  {
    if k > 0 {
      DigitRunExact(s[1..], k - 1);
    }
  }

  /** The ID that starts t and is followed by ']': the capturing group and the closing bracket. */
  function IdThenClose(t: string): Option<string> {
    var k := UpperRun(t);
    if 2 <= k <= 4 && k < |t| && t[k] == '-' then
      var d := DigitRun(t[k + 1..]);
      var e := k + 1 + d;
      if d >= 3 && e < |t| && t[e] == ']' then Some(t[..e]) else None
    else None
  }

  /** The ID whose bracketed form starts at index i, if the pattern matches there. */
  function MatchAt(s: string, i: nat): Option<string> {
    if i < |s| && s[i] == '[' then IdThenClose(s[i + 1..]) else None
  }

  lemma IdThenCloseSound(t: string)
    requires IdThenClose(t).Some?
    ensures var x := IdThenClose(t).value; IdShape(x) && |x| < |t| && t[..|x|] == x && t[|x|] == ']'
  {
    var x := IdThenClose(t).value;
    var k := UpperRun(t);
    var tail := t[k + 1..];
    var d := DigitRun(tail);
    UpperRunChars(t);
    DigitRunChars(tail);
    assert x == t[..k + 1 + d];
    forall j | k < j < |x| ensures IsDigit(x[j]) {
      assert x[j] == tail[j - k - 1];
    }
    assert IdShapeAt(x, k);
  }

  lemma IdThenCloseComplete(t: string, x: string)
    requires IdShape(x) && |x| < |t| && t[..|x|] == x && t[|x|] == ']'
    ensures IdThenClose(t) == Some(x)
  {
    var k :| 2 <= k <= 4 && IdShapeAt(x, k);
    forall j | 0 <= j <= k ensures t[j] == x[j] {
      assert t[..|x|][j] == t[j];
    }
    UpperRunExact(t, k);
    var tail := t[k + 1..];
    var d := |x| - k - 1;
    forall j | 0 <= j < d ensures tail[j] == x[k + 1 + j] {
      assert t[..|x|][k + 1 + j] == t[k + 1 + j];
    }
    assert tail[d] == ']';
    DigitRunExact(tail, d);
  }

  /** A match is an ID in brackets at that index. */
  lemma MatchAtSound(s: string, i: nat)
    requires MatchAt(s, i).Some?
    ensures IdShape(MatchAt(s, i).value)
    ensures OccursAt(s, Bracketed(MatchAt(s, i).value), i)
  {
    var x := MatchAt(s, i).value;
    var t := s[i + 1..];
    IdThenCloseSound(t);
    var w := s[i..i + |x| + 2];
    forall j | 0 <= j < |w| ensures w[j] == Bracketed(x)[j] {
      if 0 < j <= |x| {
        assert w[j] == t[..|x|][j - 1];
      } else if j == |x| + 1 {
        assert w[j] == t[|x|];
      }
    }
    assert w == Bracketed(x);
  }

  /** The characters of the bracketed form. */
  lemma BracketedChars(x: string)
    ensures |Bracketed(x)| == |x| + 2 && Bracketed(x)[0] == '[' && Bracketed(x)[|x| + 1] == ']'
    ensures forall j :: 0 <= j < |x| ==> Bracketed(x)[j + 1] == x[j]
  {
  }

  lemma OccursAtChars(s: string, t: string, i: nat)
    requires OccursAt(s, t, i)
    ensures i + |t| <= |s| && forall j :: 0 <= j < |t| ==> s[i + j] == t[j]
  {
    forall j | 0 <= j < |t| ensures s[i + j] == t[j] {
      assert s[i..i + |t|][j] == t[j];
    }
  }

  /** Every bracketed ID in the text is matched at its opening bracket. */
  lemma MatchAtComplete(s: string, i: nat, x: string)
    requires IdShape(x) && OccursAt(s, Bracketed(x), i)
    ensures MatchAt(s, i) == Some(x)
  {
    var b := Bracketed(x);
    BracketedChars(x);
    OccursAtChars(s, b, i);
    var t := s[i + 1..];
    assert s[i] == '[' by { assert s[i + 0] == b[0]; }
    assert t[|x|] == ']' by { assert s[i + (|x| + 1)] == b[|x| + 1]; }
    assert t[..|x|] == x by {
      forall j | 0 <= j < |x| ensures t[..|x|][j] == x[j] {
        assert s[i + (j + 1)] == b[j + 1];
      }
    }
    IdThenCloseComplete(t, x);
  }

  /** No bracket occurs inside an ID. */
  lemma IdHasNoBrackets(x: string, j: nat)
    requires IdShape(x) && j < |x|
    ensures x[j] != '[' && x[j] != ']'
  {
  }

  /** `ID_PATTERN.findall(s[i..])`: the IDs of the non-overlapping matches from index i on. */
  function FindAll(s: string, i: nat): seq<string>
    decreases |s| - i
  {
    if i >= |s| then []
    else match MatchAt(s, i)
      case Some(x) => [x] + FindAll(s, i + |x| + 2)
      case None => FindAll(s, i + 1)
  }

  /** No bracketed ID starts strictly inside a match: its characters are never '['. */
  lemma NoStartInsideMatch(s: string, i: nat, j: nat, x: string)
    requires MatchAt(s, i).Some? && i < j < i + |MatchAt(s, i).value| + 2
    ensures !OccursAt(s, Bracketed(x), j)
  {
    var y := MatchAt(s, i).value;
    MatchAtSound(s, i);
    var t := Bracketed(y);
    assert s[i..i + |t|] == t;
    if j < i + |y| + 1 {
      assert s[j] == t[j - i] == y[j - i - 1];
      IdHasNoBrackets(y, j - i - 1);
    } else {
      assert s[j] == t[|t| - 1] == ']';
    }
    assert s[j] != '[';
    BracketedChars(x);
    OccursAtFirst(s, Bracketed(x), j);
  }

  lemma OccursAtFirst(s: string, t: string, j: nat)
    requires |t| > 0
    ensures OccursAt(s, t, j) ==> s[j] == t[0]
  {
    if OccursAt(s, t, j) {
      assert s[j..j + |t|][0] == t[0];
    }
  }

  /** The bracketed form of x occurs at index i or later. */
  ghost predicate OccursFrom(s: string, x: string, i: nat) {
    exists j :: i <= j && OccursAt(s, Bracketed(x), j)
  }

  /** Across a match, the IDs occurring from i are the match and those from after it. */
  lemma OccursFromMatch(s: string, i: nat, y: string, x: string)
    requires MatchAt(s, i) == Some(y)
    ensures IdShape(y)
    ensures IdShape(x) && OccursFrom(s, x, i) <==> x == y || (IdShape(x) && OccursFrom(s, x, i + |y| + 2))
  {
    MatchAtSound(s, i);
    var e := i + |y| + 2;
    if IdShape(x) && OccursFrom(s, x, i) {
      var j :| i <= j && OccursAt(s, Bracketed(x), j);
      if j == i {
        MatchAtComplete(s, i, x);
      } else if j < e {
        NoStartInsideMatch(s, i, j, x);
      }
    }
    if x == y {
      assert OccursAt(s, Bracketed(x), i);
    }
  }

  /** Where nothing matches, the IDs occurring from i are those occurring from i + 1. */
  lemma OccursFromNoMatch(s: string, i: nat, x: string)
    requires MatchAt(s, i).None?
    ensures IdShape(x) && OccursFrom(s, x, i) <==> IdShape(x) && OccursFrom(s, x, i + 1)
  {
    if IdShape(x) && OccursFrom(s, x, i) {
      var j :| i <= j && OccursAt(s, Bracketed(x), j);
      if j == i {
        MatchAtComplete(s, i, x);
      }
    }
  }

  /** Nothing starts at or after the end of the text. */
  lemma OccursFromEnd(s: string, i: nat, x: string)
    requires i >= |s|
    ensures !OccursFrom(s, x, i)
  {
    forall j | i <= j ensures !OccursAt(s, Bracketed(x), j) {
      BracketedChars(x);
    }
  }

  /** findall finds exactly the IDs whose bracketed form occurs from index i on. */
  lemma {:induction false} FindAllMembers(s: string, i: nat, x: string)
    ensures x in FindAll(s, i) <==> IdShape(x) && OccursFrom(s, x, i)
    decreases |s| - i
  {
    if i >= |s| {
      OccursFromEnd(s, i, x);
    } else {
      match MatchAt(s, i)
      case Some(y) =>
        FindAllMembers(s, i + |y| + 2, x);
        OccursFromMatch(s, i, y, x);
      case None =>
        FindAllMembers(s, i + 1, x);
        OccursFromNoMatch(s, i, x);
    }
  }

  /** `set(ID_PATTERN.findall(txt))`. */
  function FoundIds(txt: string): set<string> {
    set x | x in FindAll(txt, 0)
  }

  /** The scanned set is exactly the IDs that occur in brackets somewhere in the text. */
  lemma FoundIdsIff(txt: string, x: string)
    ensures x in FoundIds(txt) <==> IdShape(x) && Contains(txt, Bracketed(x))
  {
    FindAllMembers(txt, 0, x);
    if IdShape(x) && Contains(txt, Bracketed(x)) {
      var j :| 0 <= j <= |txt| - |Bracketed(x)| && OccursAt(txt, Bracketed(x), j);
    }
  }

  /** `sorted(set(ID_PATTERN.findall(txt)))`. */
  function ScanIds(txt: string): (r: seq<string>)
    ensures Ordering.SortedListOf(Ordering.CodePoint, r, FoundIds(txt))
  {
    Ordering.SortUnique(Ordering.CodePoint, FindAll(txt, 0))
  }
}
