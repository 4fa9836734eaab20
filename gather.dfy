/** The loops of `gather_data` (main.py:27-83) after the fetch, each proved to
    compute the specification in module Standings. The standings arrive as
    data: the contest's problem indices in order and its rows. */
module GatherData {
  import opened Py
  import opened Tokenizer
  import opened Standings

  /** main.py:47-53: one False per contest problem whose index is selected,
      and the list of all contest indices. */
  method BuildTemplate(contest: seq<string>, problems: seq<string>) returns (stdInfo: seq<bool>, indexes: seq<string>)
    ensures stdInfo == Falses(TargetedCount(contest, problems))
    ensures indexes == contest
  {
    stdInfo, indexes := [], [];
    for i := 0 to |contest|
      invariant stdInfo == Falses(TargetedCount(contest[..i], problems))
      invariant indexes == contest[..i]
    {
      assert contest[..i + 1][..i] == contest[..i];
      if contest[i] in problems {
        stdInfo := stdInfo + [false];
      }
      indexes := indexes + [contest[i]];
    }
    assert contest[..|contest|] == contest;
  }

  lemma MarkErrPersists(vec: seq<bool>, row: Row, contest: seq<string>, targets: seq<string>, k: nat, m: nat)
    requires k <= m <= |row.points| <= |contest|
    requires Mark(vec, row, contest, targets, k).Err?
    ensures Mark(vec, row, contest, targets, m) == Mark(vec, row, contest, targets, k)
    decreases m - k
  {
    if k < m {
      MarkErrPersists(vec, row, contest, targets, k + 1, m);
    }
  }

  lemma ApplyRowsErrPersists(rows: seq<Row>, contest: seq<string>, targets: seq<string>, template: seq<bool>, k: nat, m: nat)
    requires k <= m <= |rows|
    requires forall j :: 0 <= j < |rows| ==> WellShaped(rows[j], contest)
    requires ApplyRows(rows, contest, targets, template, k).Err?
    ensures ApplyRows(rows, contest, targets, template, m) == ApplyRows(rows, contest, targets, template, k)
    decreases m - k
  {
    if k < m {
      ApplyRowsErrPersists(rows, contest, targets, template, k + 1, m);
    }
  }

  /** The row loop of main.py:59-71: team rows are skipped, a single member's
      record is copied from the template on first sighting, and each scored,
      selected result sets the slot at its contest position; a slot past the
      end of the record raises IndexError. */
  method ProcessRows(rows: seq<Row>, indexes: seq<string>, problems: seq<string>, stdInfo: seq<bool>)
    returns (r: Result<map<string, seq<bool>>>)
    requires forall j :: 0 <= j < |rows| ==> WellShaped(rows[j], indexes)
    ensures r == ApplyRows(rows, indexes, problems, stdInfo, |rows|)
  {
    var data: map<string, seq<bool>> := map[];
    for k := 0 to |rows|
      invariant ApplyRows(rows, indexes, problems, stdInfo, k) == Ok(data)
    {
      var row := rows[k];
      ghost var before := data;
      if |row.members| > 1 {
        continue;
      }
      var handle := Lower(row.members[0]);
      if handle !in data {
        data := data[handle := stdInfo];
      }
      ghost var start := data[handle];
      var record := data[handle];
      for id := 0 to |row.points|
        invariant Mark(start, row, indexes, problems, id) == Ok(record)
      {
        if row.points[id] == 0.0 {
          continue;
        }
        if indexes[id] in problems {
          if id >= |record| {
            MarkErrPersists(start, row, indexes, problems, id + 1, |row.points|);
            ApplyRowsErrPersists(rows, indexes, problems, stdInfo, k + 1, |rows|);
            return Err(IndexError);
          }
          record := record[id := true];
        }
      }
      data := data[handle := record];
      assert data == before[handle := record];
      assert ApplyRow(before, row, indexes, problems, stdInfo) == Ok(data);
    }
    return Ok(data);
  }

  /** main.py:73-75: each requested user absent from the dictionary gets the template. */
  method AddUsers(data: map<string, seq<bool>>, users: seq<string>, stdInfo: seq<bool>)
    returns (out: map<string, seq<bool>>)
    ensures out == AddMissing(data, users, stdInfo)
  {
    out := data;
    for i := 0 to |users|
      invariant out == data + map u | u in users[..i] && u !in data :: stdInfo
    {
      assert users[..i + 1] == users[..i] + [users[i]];
      if users[i] !in out {
        out := out[users[i] := stdInfo];
      }
    }
    assert users[..|users|] == users;
  }

  /** main.py:77-81: the solve count of every record, by an accumulator loop. */
  method CountSolved(data: map<string, seq<bool>>) returns (out: map<string, Record>)
    ensures out == Finalize(data)
  {
    out := map[];
    var keys := data.Keys;
    while keys != {}
      invariant keys <= data.Keys
      invariant out == map h | h in data.Keys - keys :: Record(data[h], CountTrue(data[h]))
      decreases |keys|
    {
      var handle :| handle in keys;
      var statuses := data[handle];
      var solved := 0;
      for j := 0 to |statuses|
        invariant solved == CountTrue(statuses[..j])
      {
        assert statuses[..j + 1][..j] == statuses[..j];
        solved := solved + if statuses[j] then 1 else 0;
      }
      assert statuses[..|statuses|] == statuses;
      out := out[handle := Record(statuses, solved)];
      keys := keys - {handle};
    }
  }

  /** `gather_data` with the standings passed in: the contest's indices in
      order, its rows, and the requested users. */
  method Gather(contest: seq<string>, raw: string, rows: seq<Row>, users: seq<string>)
    returns (r: Result<map<string, Record>>)
    requires forall j :: 0 <= j < |rows| ==> WellShaped(rows[j], contest)
    ensures r == Standings.Gather(contest, raw, rows, users)
  {
    var problems := ParseProblems(raw);
    var stdInfo, indexes := BuildTemplate(contest, problems);
    if raw == "AK" {
      problems := indexes;
      stdInfo := seq(|indexes|, _ => false);
      assert stdInfo == Falses(|contest|);
    }
    var rowsDone := ProcessRows(rows, indexes, problems, stdInfo);
    if rowsDone.Err? {
      return Err(rowsDone.error);
    }
    var data := AddUsers(rowsDone.value, users, stdInfo);
    var out := CountSolved(data);
    return Ok(out);
  }
}
