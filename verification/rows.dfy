/**
 * One row of the rendered result table: the filter that decides whether the row is a
 * settled grade line, and the extraction of its course name and score.
 */
module Rows {
  import opened Wrappers
  import opened Text

  /** The three course-category markers (required, elective, general education). */
  const Required := "必修"
  const Elective := "選修"
  const GeneralEducation := "通識"
  /** The marker of a grade that has not been released yet. */
  const NotYetReleased := "成績未送達"

  /** The character class U+4E00..U+9FA5 of the course-name pattern. */
  predicate IsCjk(c: char) {
    '\U{4E00}' <= c <= '\U{9FA5}'
  }

  predicate AllCjk(s: string) {
    forall k :: 0 <= k < |s| ==> IsCjk(s[k])
  }

  /** The row filter: some category marker occurs and the not-yet-released marker does not. */
  predicate IsSettled(t: string) {
    (Contains(t, Required) || Contains(t, Elective) || Contains(t, GeneralEducation))
    && !Contains(t, NotYetReleased)
  }

  /** Length of the run of CJK characters at the start of s. */
  function CjkRunLen(s: string): (n: nat)
    ensures n <= |s| && AllCjk(s[..n]) && (n == |s| || !IsCjk(s[n]))
    decreases |s|
  {
    if s == [] || !IsCjk(s[0]) then 0
    else
      var n := 1 + CjkRunLen(s[1..]);
      assert s[..n] == [s[0]] + s[1..][..n - 1];
      n
  }

  /** Position of the first CJK character of t, if any. */
  function FirstCjkIndex(t: string): (r: Option<nat>)
    ensures r.Some? ==> r.value < |t| && IsCjk(t[r.value]) && forall k :: 0 <= k < r.value ==> !IsCjk(t[k])
    ensures r.None? ==> forall k :: 0 <= k < |t| ==> !IsCjk(t[k])
    decreases |t|
  {
    if t == [] then None
    else if IsCjk(t[0]) then Some(0)
    else match FirstCjkIndex(t[1..])
      case None => None
      case Some(i) => Some(i + 1)
  }

  /** w is the leftmost maximal run of CJK characters in t, and it starts at position i. */
  predicate IsFirstCjkRun(t: string, i: int, w: string) {
    && 0 <= i && i + |w| <= |t| && t[i..i + |w|] == w
    && w != [] && AllCjk(w)
    && (i + |w| == |t| || !IsCjk(t[i + |w|]))
    && forall k :: 0 <= k < i ==> !IsCjk(t[k])
  }

  /** The first match of the course-name pattern (one or more characters of the class);
      None where the search finds no match and `.group()` would fail. */
  function CourseName(t: string): (r: Option<string>)
    ensures r.None? <==> forall k :: 0 <= k < |t| ==> !IsCjk(t[k])
    ensures r.Some? ==> exists i :: IsFirstCjkRun(t, i, r.value)
  {
    match FirstCjkIndex(t)
    case None => None
    case Some(i) =>
      var n := CjkRunLen(t[i..]);
      var w := t[i..i + n];
      assert t[i..][0] == t[i];
      assert t[i..][..n] == w;
      assert IsFirstCjkRun(t, i, w);
      Some(w)
  }

  /** A maximal CJK prefix of s has the length CjkRunLen measures. */
  lemma {:induction false} CjkRunLenOfPrefix(s: string, w: string)
    requires w <= s && AllCjk(w) && (|w| == |s| || !IsCjk(s[|w|]))
    ensures CjkRunLen(s) == |w|
    decreases |w|
  {
    if w != [] {
      assert s[0] == w[0];
      assert s[1..][|w| - 1..] == s[|w|..];
      CjkRunLenOfPrefix(s[1..], w[1..]);
    }
  }

  /** The leftmost maximal run is determined by t: CourseName's contract has one solution. */
  lemma FirstCjkRunUnique(t: string, i: int, w: string, j: int, v: string)
    requires IsFirstCjkRun(t, i, w) && IsFirstCjkRun(t, j, v)
    ensures i == j && w == v
  {
    assert t[i] == w[0] && t[j] == v[0];
    assert i == j;
    assert t[i..][..|w|] == w && t[i..][..|v|] == v;
    CjkRunLenOfPrefix(t[i..], w);
    CjkRunLenOfPrefix(t[i..], v);
  }

  /** tokens[k] == w is a digit string and no later token is one. */
  predicate IsLastDigitToken(tokens: seq<string>, k: int, w: string) {
    && 0 <= k < |tokens| && tokens[k] == w && IsDigitString(w)
    && forall j :: k < j < |tokens| ==> !IsDigitString(tokens[j])
  }

  /** Position of the last digit string among tokens, if any. */
  function LastDigitIndex(tokens: seq<string>): (r: Option<nat>)
    ensures r.Some? ==> r.value < |tokens| && IsLastDigitToken(tokens, r.value, tokens[r.value])
    ensures r.None? ==> forall j :: 0 <= j < |tokens| ==> !IsDigitString(tokens[j])
    decreases |tokens|
  {
    if tokens == [] then None
    else if IsDigitString(tokens[|tokens| - 1]) then Some(|tokens| - 1)
    else LastDigitIndex(tokens[..|tokens| - 1])
  }

  /** The last whitespace-separated token of t made only of digits; None where the list of
      such tokens is empty and indexing it with -1 would fail. */
  function Score(t: string): (r: Option<string>)
    ensures r.None? <==> forall j :: 0 <= j < |Split(t)| ==> !IsDigitString(Split(t)[j])
    ensures r.Some? ==> exists k :: IsLastDigitToken(Split(t), k, r.value)
  {
    var tokens := Split(t);
    match LastDigitIndex(tokens)
    case None => None
    case Some(k) => Some(tokens[k])
  }

  /** Why extraction from a kept row failed: the name search found nothing, or no token is a number. */
  datatype ExtractError = NoCourseName | NoScore

  /** What one row contributes: nothing, a (name, score) entry, or an abort of the whole run. */
  datatype RowParse = Skipped | Kept(name: string, score: string) | Aborted(error: ExtractError)

  /** The body of the row loop on the stripped row: filter, then extract the name before the score. */
  function ParseStripped(t: string): (r: RowParse)
    ensures r.Skipped? <==> !IsSettled(t)
  {
    if !IsSettled(t) then Skipped
    else match CourseName(t)
      case None => Aborted(NoCourseName)
      case Some(name) =>
        match Score(t)
        case None => Aborted(NoScore)
        case Some(score) => Kept(name, score)
  }

  /** The body of the row loop: strip the row's text, then filter and extract. */
  function ParseRow(row: string): (r: RowParse)
    ensures r.Skipped? <==> !IsSettled(Strip(row))
  {
    ParseStripped(Strip(row))
  }

  /** What the parse of a stripped row means: a kept row's name is the first maximal CJK run
      and its score the last all-digit token; an abort means the name search or the score
      search found nothing. */
  lemma ParseStrippedMeaning(t: string)
    ensures ParseStripped(t).Kept? ==> exists i :: IsFirstCjkRun(t, i, ParseStripped(t).name)
    ensures ParseStripped(t).Kept? ==> exists k :: IsLastDigitToken(Split(t), k, ParseStripped(t).score)
    ensures ParseStripped(t) == Aborted(NoCourseName) ==>
              IsSettled(t) && forall k :: 0 <= k < |t| ==> !IsCjk(t[k])
    ensures ParseStripped(t) == Aborted(NoScore) ==>
              IsSettled(t) && forall j :: 0 <= j < |Split(t)| ==> !IsDigitString(Split(t)[j])
  {
    if IsSettled(t) {
      var name := CourseName(t);
      var score := Score(t);
      if name.Some? && score.Some? {
        assert ParseStripped(t) == Kept(name.value, score.value);
      }
    }
  }

  /** A kept row has a non-empty name of CJK characters and a score that is a digit string. */
  lemma KeptRowWellFormed(row: string)
    requires ParseRow(row).Kept?
    ensures ParseRow(row).name != [] && AllCjk(ParseRow(row).name)
    ensures IsDigitString(ParseRow(row).score)
  {
    var t := Strip(row);
    assert ParseRow(row) == ParseStripped(t);
    ParseStrippedMeaning(t);
    var i :| IsFirstCjkRun(t, i, ParseStripped(t).name);
    var k :| IsLastDigitToken(Split(t), k, ParseStripped(t).score);
  }

  /** The category markers are words of the course-name class. */
  lemma MarkersAreCjk()
    ensures Required != [] && AllCjk(Required)
    ensures Elective != [] && AllCjk(Elective)
    ensures GeneralEducation != [] && AllCjk(GeneralEducation)
  {
  }

  /** A string in which a category marker occurs contains a CJK character. */
  lemma MarkerGivesCjk(t: string, marker: string)
    requires marker == Required || marker == Elective || marker == GeneralEducation
    requires Contains(t, marker)
    ensures exists k :: 0 <= k < |t| && IsCjk(t[k])
  {
    ContainsIff(t, marker);
    var i :| OccursAt(t, marker, i);
    assert t[i] == t[i..i + |marker|][0];
    assert IsCjk(marker[0]);
  }

  /** Every marker is itself made of CJK characters, so a settled row always contains a CJK
      character and its name search finds a match. */
  lemma SettledHasName(t: string)
    requires IsSettled(t)
    ensures CourseName(t).Some?
  {
    if Contains(t, Required) {
      MarkerGivesCjk(t, Required);
    } else if Contains(t, Elective) {
      MarkerGivesCjk(t, Elective);
    } else {
      MarkerGivesCjk(t, GeneralEducation);
    }
  }

  /** The name search never fails on a kept row: only a missing score aborts. */
  lemma NameSearchNeverFails(row: string)
    ensures ParseRow(row) != Aborted(NoCourseName)
  {
    var t := Strip(row);
    assert ParseRow(row) == ParseStripped(t);
    if IsSettled(t) {
      SettledHasName(t);
    }
  }

  /** A leading run of n CJK characters that ends the row or is followed by another
      character is the course name. */
  lemma CourseNameOfLeadingRun(t: string, n: nat)
    requires 0 < n <= |t| && AllCjk(t[..n]) && (n == |t| || !IsCjk(t[n]))
    ensures CourseName(t) == Some(t[..n])
  {
    assert t[..n][0] == t[0];
    var w := CourseName(t).value;
    var i :| IsFirstCjkRun(t, i, w);
    assert IsFirstCjkRun(t, 0, t[..n]);
    FirstCjkRunUnique(t, i, w, 0, t[..n]);
  }

  /** A non-empty CJK word at the head of a stripped row, ending the row or followed by a
      character outside the class, is the name of a kept row. */
  lemma LeadingRunIsName(t: string, w: string)
    requires w != [] && AllCjk(w) && w <= t && (|t| == |w| || !IsCjk(t[|w|]))
    ensures ParseStripped(t).Kept? ==> ParseStripped(t).name == w
  {
    assert t[..|w|] == w;
    CourseNameOfLeadingRun(t, |w|);
  }

  /** When the stripped row starts with a category marker followed by a character outside the
      class (as in "必修 資料結構 3 90"), the marker, not the course title, becomes the key. */
  lemma LeadingMarkerBecomesKey(row: string, marker: string)
    requires marker == Required || marker == Elective || marker == GeneralEducation
    requires marker <= Strip(row) && (|Strip(row)| == |marker| || !IsCjk(Strip(row)[|marker|]))
    requires ParseRow(row).Kept?
    ensures ParseRow(row).name == marker
  {
    MarkersAreCjk();
    LeadingRunIsName(Strip(row), marker);
  }

  /** A settled row in which no token is a number aborts extraction with NoScore. */
  lemma SettledRowWithoutNumberAborts(row: string)
    requires IsSettled(Strip(row))
    requires forall j :: 0 <= j < |Split(Strip(row))| ==> !IsDigitString(Split(Strip(row))[j])
    ensures ParseRow(row) == Aborted(NoScore)
  {
    assert ParseRow(row) == ParseStripped(Strip(row));
    NameSearchNeverFails(row);
  }
}
