/**
 * The row loop of GradeMonitor.run: every row of the result table is parsed in order and
 * the kept rows are collected into the `results` dict, which is the grade snapshot.
 */
module Snapshots {
  import opened Wrappers
  import opened Text
  import opened Rows

  /** The `results` dict: course name to score, with the names in first-insertion order,
      which is the order in which a Python dict yields its items. */
  datatype Snapshot = Snapshot(order: seq<string>, scores: map<string, string>) {
    predicate Valid() {
      && (forall i, j :: 0 <= i < j < |order| ==> order[i] != order[j])
      && scores.Keys == (set name | name in order)
    }
  }

  const Empty := Snapshot([], map[])

  /** `results[name] = score`: a new name goes to the end of the order, an existing one keeps
      its place and gets the new score. */
  function Put(snap: Snapshot, name: string, score: string): (r: Snapshot)
    requires snap.Valid()
    ensures r.Valid()
    ensures r.scores == snap.scores[name := score]
    ensures name in snap.scores ==> r.order == snap.order
    ensures name !in snap.scores ==> r.order == snap.order + [name]
  {
    if name in snap.scores then Snapshot(snap.order, snap.scores[name := score])
    else Snapshot(snap.order + [name], snap.scores[name := score])
  }

  lemma {:induction false} DistinctCard(s: seq<string>)
    requires forall i, j :: 0 <= i < j < |s| ==> s[i] != s[j]
    ensures |set x | x in s| == |s|
    decreases |s|
  {
    if s != [] {
      var init := s[..|s| - 1];
      DistinctCard(init);
      assert (set x | x in s) == (set x | x in init) + {s[|s| - 1]};
      assert s[|s| - 1] !in init;
    }
  }

  /** The snapshot's size (len(results)) is the number of names in its order. */
  lemma SizeIsOrderLength(snap: Snapshot)
    requires snap.Valid()
    ensures |snap.scores| == |snap.order|
  {
    assert snap.scores.Keys == set x | x in snap.order;
    DistinctCard(snap.order);
  }

  /** One iteration of the row loop on the outcome so far: an aborted row ends the run with
      its error, a kept row is put into the dict, a skipped row changes nothing. */
  function Step(acc: Result<Snapshot, ExtractError>, p: RowParse): (r: Result<Snapshot, ExtractError>)
    requires acc.Ok? ==> acc.value.Valid()
    ensures r.Ok? ==> r.value.Valid()
  {
    match acc
    case Err(e) => Err(e)
    case Ok(snap) =>
      match p
      case Skipped => Ok(snap)
      case Kept(name, score) => Ok(Put(snap, name, score))
      case Aborted(e) => Err(e)
  }

  /** The outcome of the row loop from the rows' parses, taken left to right. */
  function Collect(parsed: seq<RowParse>): (r: Result<Snapshot, ExtractError>)
    ensures r.Ok? ==> r.value.Valid()
    decreases |parsed|
  {
    if parsed == [] then Ok(Empty) else Step(Collect(parsed[..|parsed| - 1]), parsed[|parsed| - 1])
  }

  /** Every row parsed on its own. */
  function ParseAll(rows: seq<string>): (r: seq<RowParse>) {
    seq(|rows|, i requires 0 <= i < |rows| => ParseRow(rows[i]))
  }

  /** The snapshot the row loop builds from the table's rows, or the error that aborts it. */
  function Extract(rows: seq<string>): (r: Result<Snapshot, ExtractError>) {
    Collect(ParseAll(rows))
  }

  lemma ParseAllPrefix(rows: seq<string>, k: nat)
    requires k <= |rows|
    ensures ParseAll(rows[..k]) == ParseAll(rows)[..k]
  {
  }

  /** Once a prefix of the parses has failed, the whole fold fails with the same error. */
  lemma {:induction false} ErrorPersists(parsed: seq<RowParse>, k: nat)
    requires k <= |parsed| && Collect(parsed[..k]).Err?
    ensures Collect(parsed) == Collect(parsed[..k])
    decreases |parsed|
  {
    if k == |parsed| {
      assert parsed[..k] == parsed;
    } else {
      var init := parsed[..|parsed| - 1];
      assert init[..k] == parsed[..k];
      ErrorPersists(init, k);
    }
  }

  /** Taking one more parse into the fold. */
  lemma CollectNext(parsed: seq<RowParse>, i: nat)
    requires i < |parsed|
    ensures Collect(parsed[..i + 1]) == Step(Collect(parsed[..i]), parsed[i])
  {
    assert parsed[..i + 1][..i] == parsed[..i];
  }

  /** Taking one more row into the row loop. */
  lemma ExtractNext(rows: seq<string>, i: nat)
    requires i < |rows|
    ensures Extract(rows[..i + 1]) == Step(Extract(rows[..i]), ParseRow(rows[i]))
  {
    var parsed := ParseAll(rows);
    ParseAllPrefix(rows, i);
    ParseAllPrefix(rows, i + 1);
    CollectNext(parsed, i);
  }

  /** An abort after the first k rows is the outcome of the whole loop. */
  lemma ExtractErrorPersists(rows: seq<string>, k: nat)
    requires k <= |rows| && Extract(rows[..k]).Err?
    ensures Extract(rows) == Extract(rows[..k])
  {
    ParseAllPrefix(rows, k);
    ErrorPersists(ParseAll(rows), k);
  }

  /** The row loop, building the dict in place. */
  method BuildSnapshot(rows: seq<string>) returns (r: Result<Snapshot, ExtractError>)
    ensures r == Extract(rows)
  {
    var order: seq<string> := [];
    var scores: map<string, string> := map[];
    var i := 0;
    while i < |rows|
      invariant 0 <= i <= |rows|
      invariant Extract(rows[..i]) == Ok(Snapshot(order, scores))
    {
      ExtractNext(rows, i);
      match ParseRow(rows[i]) {
        case Skipped =>
        case Kept(name, score) =>
          if name !in scores {
            order := order + [name];
          }
          scores := scores[name := score];
        case Aborted(e) =>
          ExtractErrorPersists(rows, i + 1);
          return Err(e);
      }
      i := i + 1;
    }
    assert rows[..i] == rows;
    return Ok(Snapshot(order, scores));
  }

  /** The fold fails exactly when some parse is an abort, and then with the first abort's error. */
  lemma {:induction false} CollectFailsIff(parsed: seq<RowParse>)
    ensures Collect(parsed).Err? <==> exists i :: 0 <= i < |parsed| && parsed[i].Aborted?
    ensures Collect(parsed).Err? ==>
      (exists i :: && 0 <= i < |parsed|
                   && parsed[i] == Aborted(Collect(parsed).error)
                   && forall j :: 0 <= j < i ==> !parsed[j].Aborted?)
    decreases |parsed|
  {
    if parsed != [] {
      var init := parsed[..|parsed| - 1];
      CollectFailsIff(init);
      assert forall i :: 0 <= i < |init| ==> init[i] == parsed[i];
    }
  }

  /** Extraction fails exactly when some row aborts, and then with the first such row's error. */
  lemma ExtractFailsIff(rows: seq<string>)
    ensures Extract(rows).Err? <==> exists i :: 0 <= i < |rows| && ParseRow(rows[i]).Aborted?
    ensures Extract(rows).Err? ==>
      (exists i :: && 0 <= i < |rows|
                   && ParseRow(rows[i]) == Aborted(Extract(rows).error)
                   && forall j :: 0 <= j < i ==> !ParseRow(rows[j]).Aborted?)
  {
    var parsed := ParseAll(rows);
    assert |parsed| == |rows| && forall i :: 0 <= i < |rows| ==> parsed[i] == ParseRow(rows[i]);
    CollectFailsIff(parsed);
  }

  /** The names of the kept parses. */
  function KeptNames(parsed: seq<RowParse>): (r: set<string>) {
    set i | 0 <= i < |parsed| && parsed[i].Kept? :: parsed[i].name
  }

  /** Parse i is the last kept one for name, and it carries score. */
  predicate IsLastEntryFor(parsed: seq<RowParse>, i: int, name: string, score: string) {
    && 0 <= i < |parsed| && parsed[i] == Kept(name, score)
    && forall j :: i < j < |parsed| ==> !(parsed[j].Kept? && parsed[j].name == name)
  }

  /** The kept names of a sequence of parses, one parse at a time. */
  lemma KeptNamesSnoc(parsed: seq<RowParse>)
    requires parsed != []
    ensures var last := parsed[|parsed| - 1];
      KeptNames(parsed) == KeptNames(parsed[..|parsed| - 1]) + (if last.Kept? then {last.name} else {})
  {
    var init := parsed[..|parsed| - 1];
    assert forall i :: 0 <= i < |init| ==> init[i] == parsed[i];
  }

  /** One step of the fold, for a fold that succeeded. */
  lemma CollectStep(parsed: seq<RowParse>)
    requires parsed != [] && Collect(parsed).Ok?
    ensures Collect(parsed[..|parsed| - 1]).Ok? && !parsed[|parsed| - 1].Aborted?
    ensures parsed[|parsed| - 1].Skipped? ==> Collect(parsed).value == Collect(parsed[..|parsed| - 1]).value
    ensures parsed[|parsed| - 1].Kept? ==>
      Collect(parsed).value.scores == Collect(parsed[..|parsed| - 1]).value.scores[parsed[|parsed| - 1].name := parsed[|parsed| - 1].score]
  {
  }

  /** The dict's keys are exactly the names of the kept rows. */
  lemma {:induction false} CollectKeys(parsed: seq<RowParse>)
    requires Collect(parsed).Ok?
    ensures Collect(parsed).value.scores.Keys == KeptNames(parsed)
    decreases |parsed|
  {
    if parsed != [] {
      CollectStep(parsed);
      CollectKeys(parsed[..|parsed| - 1]);
      KeptNamesSnoc(parsed);
    }
  }

  /** A last entry for a name stays the last when a parse that does not keep that name follows. */
  lemma LastEntryExtends(parsed: seq<RowParse>, i: int, name: string, score: string)
    requires parsed != [] && IsLastEntryFor(parsed[..|parsed| - 1], i, name, score)
    requires !(parsed[|parsed| - 1].Kept? && parsed[|parsed| - 1].name == name)
    ensures IsLastEntryFor(parsed, i, name, score)
  {
    var init := parsed[..|parsed| - 1];
    assert forall j :: 0 <= j < |init| ==> init[j] == parsed[j];
  }

  /** Each name in the dict carries the score of the last kept row with that name. */
  lemma {:induction false} CollectLastWins(parsed: seq<RowParse>, name: string)
    requires Collect(parsed).Ok? && name in Collect(parsed).value.scores
    ensures exists i :: IsLastEntryFor(parsed, i, name, Collect(parsed).value.scores[name])
    decreases |parsed|
  {
    if parsed != [] {
      var last := |parsed| - 1;
      var score := Collect(parsed).value.scores[name];
      CollectStep(parsed);
      if parsed[last].Kept? && parsed[last].name == name {
        assert IsLastEntryFor(parsed, last, name, score);
      } else {
        CollectLastWins(parsed[..last], name);
        var i :| IsLastEntryFor(parsed[..last], i, name, score);
        LastEntryExtends(parsed, i, name, score);
      }
    }
  }

  /** The snapshot holds one entry per distinct name among the kept rows, so its size is the
      number of those names; each name carries the score of the last kept row with that name,
      and every entry is a non-empty CJK name with a digit-string score. */
  lemma ExtractContents(rows: seq<string>)
    requires Extract(rows).Ok?
    ensures Extract(rows).value.scores.Keys == KeptNames(ParseAll(rows))
    ensures |Extract(rows).value.scores| == |KeptNames(ParseAll(rows))|
    ensures forall name :: name in Extract(rows).value.scores ==>
      exists i :: IsLastEntryFor(ParseAll(rows), i, name, Extract(rows).value.scores[name])
    ensures forall name :: name in Extract(rows).value.scores ==>
      name != [] && AllCjk(name) && IsDigitString(Extract(rows).value.scores[name])
  {
    var parsed := ParseAll(rows);
    CollectKeys(parsed);
    var snap := Extract(rows).value;
    forall name | name in snap.scores
      ensures exists i :: IsLastEntryFor(parsed, i, name, snap.scores[name])
      ensures name != [] && AllCjk(name) && IsDigitString(snap.scores[name])
    {
      CollectLastWins(parsed, name);
      var i :| IsLastEntryFor(parsed, i, name, snap.scores[name]);
      KeptRowWellFormed(rows[i]);
    }
  }

  /** The rows that pass the category filter: some marker present, the pending marker absent. */
  function SettledRows(rows: seq<string>): (r: seq<string>)
    decreases |rows|
  {
    if rows == [] then []
    else if IsSettled(Strip(rows[|rows| - 1])) then SettledRows(rows[..|rows| - 1]) + [rows[|rows| - 1]]
    else SettledRows(rows[..|rows| - 1])
  }

  /** Extraction from rows is the loop step on the last row after extraction from the others. */
  lemma ExtractSnoc(rows: seq<string>)
    requires rows != []
    ensures Extract(rows) == Step(Extract(rows[..|rows| - 1]), ParseRow(rows[|rows| - 1]))
  {
    ParseAllPrefix(rows, |rows| - 1);
  }

  /** Rows that fail the filter never affect the outcome: extracting from the settled rows
      alone gives the same snapshot, or the same error. */
  lemma {:induction false} ExtractIgnoresUnsettled(rows: seq<string>)
    ensures Extract(SettledRows(rows)) == Extract(rows)
    decreases |rows|
  {
    if rows != [] {
      var init := rows[..|rows| - 1];
      var row := rows[|rows| - 1];
      ExtractIgnoresUnsettled(init);
      ExtractSnoc(rows);
      if IsSettled(Strip(row)) {
        var s := SettledRows(rows);
        assert s == SettledRows(init) + [row];
        assert s[..|s| - 1] == SettledRows(init);
        ExtractSnoc(s);
      } else {
        assert SettledRows(rows) == SettledRows(init);
        assert ParseRow(row).Skipped?;
      }
    }
  }
}
