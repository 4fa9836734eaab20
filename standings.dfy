/** What `gather_data` computes once the standings are fetched (main.py:47-83),
    stated as functions over plain data, with the lemmas that characterise it. */
module Standings {
  import opened Py
  import opened Tokenizer

  /** One standings row: the handles of its party and the points scored at
      each contest position. A zero stands for a falsy `points` (0 or absent). */
  datatype Row = Row(members: seq<string>, points: seq<real>)

  /** The per-handle dictionary of main.py:65 and 81. */
  datatype Record = Record(problems: seq<bool>, solved: nat)

  /** `str.lower()` on ASCII letters. */
  function LowerChar(c: char): char {
    if 'A' <= c <= 'Z' then (c as int + 32) as char else c
  }

  function Lower(s: string): string {
    seq(|s|, i requires 0 <= i < |s| => LowerChar(s[i]))
  }

  // ---------------------------------------------------------------------------
  // The template of main.py:47-57

  /** How many contest positions carry an index that is among the targets. */
  function TargetedCount(contest: seq<string>, targets: seq<string>): nat {
    if contest == [] then 0
    else TargetedCount(contest[..|contest| - 1], targets) + (if contest[|contest| - 1] in targets then 1 else 0)
  }

  function Falses(n: nat): (r: seq<bool>)
    ensures |r| == n && forall i :: 0 <= i < n ==> !r[i]
  {
    seq(n, _ => false)
  }

  /** The counted positions are never more than the contest has; all of them
      count exactly when every index is a target, none exactly when no index is. */
  lemma {:induction false} TargetedCountBounds(contest: seq<string>, targets: seq<string>)
    ensures TargetedCount(contest, targets) <= |contest|
    ensures TargetedCount(contest, targets) == |contest| <==> forall i :: 0 <= i < |contest| ==> contest[i] in targets
    ensures TargetedCount(contest, targets) == 0 <==> forall i :: 0 <= i < |contest| ==> contest[i] !in targets
  {
    if contest != [] {
      var init := contest[..|contest| - 1];
      TargetedCountBounds(init, targets);
      assert forall i :: 0 <= i < |init| ==> init[i] == contest[i];
    }
  }

  /** The problem set the rows are checked against: the tokens, or under the
      "AK" sentinel every contest index (main.py:55-56). */
  function Targets(contest: seq<string>, raw: string): seq<string> {
    if raw == "AK" then contest else Parse(raw)
  }

  /** The `std_info` template: one False per targeted contest position, or per
      contest position under "AK" (main.py:50-57). */
  function Template(contest: seq<string>, raw: string): seq<bool> {
    if raw == "AK" then Falses(|contest|) else Falses(TargetedCount(contest, Parse(raw)))
  }

  /** The template always has one slot per position whose index is targeted:
      the "AK" override builds what the generic rule would build for targets
      equal to the whole contest. */
  lemma TemplateSize(contest: seq<string>, raw: string)
    ensures Template(contest, raw) == Falses(TargetedCount(contest, Targets(contest, raw)))
    ensures |Template(contest, raw)| <= |contest|
    ensures raw == "AK" ==> |Template(contest, raw)| == |contest|
  {
    TargetedCountBounds(contest, Targets(contest, raw));
  }

  // ---------------------------------------------------------------------------
  // One row (main.py:59-71)

  predicate Solo(row: Row) {
    |row.members| == 1
  }

  /** The dictionary key of a single-member row (main.py:63). */
  function Key(row: Row): string
    requires row.members != []
  {
    Lower(row.members[0])
  }

  /** What the source needs of a row: a party with a member, and for a
      single-member party no more results than contest problems. */
  predicate WellShaped(row: Row, contest: seq<string>) {
    row.members != [] && (Solo(row) ==> |row.points| <= |contest|)
  }

  /** The row scored at position `i` and the index there is targeted: the two
      tests of main.py:68-70. */
  predicate Hit(row: Row, i: int, contest: seq<string>, targets: seq<string>) {
    0 <= i < |row.points| && i < |contest| && row.points[i] != 0.0 && contest[i] in targets
  }

  /** The inner loop of main.py:67-71 over the first `k` results: every hit
      sets the slot at its contest position, and a hit past the end of the
      record raises IndexError. */
  function Mark(vec: seq<bool>, row: Row, contest: seq<string>, targets: seq<string>, k: nat): Result<seq<bool>>
    requires k <= |row.points| <= |contest|
  {
    if k == 0 then Ok(vec)
    else match Mark(vec, row, contest, targets, k - 1)
      case Err(e) => Err(e)
      case Ok(v) =>
        if row.points[k - 1] == 0.0 || contest[k - 1] !in targets then Ok(v)
        else if k - 1 < |v| then Ok(v[k - 1 := true])
        else Err(IndexError)
  }

  /** Marking fails exactly when some hit lies past the record, and then with
      IndexError; otherwise the record keeps its length, no slot reverts to
      False, and a slot becomes True only at a hit. */
  lemma {:induction false} MarkSpec(vec: seq<bool>, row: Row, contest: seq<string>, targets: seq<string>, k: nat)
    requires k <= |row.points| <= |contest|
    ensures Mark(vec, row, contest, targets, k).Ok? <==>
      forall i :: 0 <= i < k && Hit(row, i, contest, targets) ==> i < |vec|
    ensures Mark(vec, row, contest, targets, k).Err? ==> Mark(vec, row, contest, targets, k).error == IndexError
    ensures Mark(vec, row, contest, targets, k).Ok? ==>
      var v := Mark(vec, row, contest, targets, k).value;
      |v| == |vec| && forall i :: 0 <= i < |vec| ==> (v[i] <==> vec[i] || (i < k && Hit(row, i, contest, targets)))
  {
    if k > 0 {
      MarkSpec(vec, row, contest, targets, k - 1);
      if Mark(vec, row, contest, targets, k - 1).Ok? && Hit(row, k - 1, contest, targets) && k - 1 >= |vec| {
        assert Mark(vec, row, contest, targets, k).Err?;
      }
    }
  }

  /** One pass of the row loop's body (main.py:60-71): team rows are skipped;
      a single member's record is taken from the dictionary, or copied from the
      template on first sighting, and marked. */
  function ApplyRow(data: map<string, seq<bool>>, row: Row, contest: seq<string>, targets: seq<string>, template: seq<bool>): Result<map<string, seq<bool>>>
    requires WellShaped(row, contest)
  {
    if !Solo(row) then Ok(data)
    else
      var handle := Key(row);
      var vec := if handle in data then data[handle] else template;
      match Mark(vec, row, contest, targets, |row.points|)
      case Err(e) => Err(e)
      case Ok(v) => Ok(data[handle := v])
  }

  /** The row loop of main.py:59-71 over the first `k` rows, from an empty dictionary. */
  function ApplyRows(rows: seq<Row>, contest: seq<string>, targets: seq<string>, template: seq<bool>, k: nat): Result<map<string, seq<bool>>>
    requires k <= |rows|
    requires forall j :: 0 <= j < |rows| ==> WellShaped(rows[j], contest)
  {
    if k == 0 then Ok(map[])
    else match ApplyRows(rows, contest, targets, template, k - 1)
      case Err(e) => Err(e)
      case Ok(data) => ApplyRow(data, rows[k - 1], contest, targets, template)
  }

  // ---------------------------------------------------------------------------
  // The characterisation of the row loop

  /** Row `row` is a single-member row for `handle` with a hit at `i`. */
  predicate SoloHit(row: Row, handle: string, i: int, contest: seq<string>, targets: seq<string>) {
    row.members != [] && Solo(row) && Key(row) == handle && Hit(row, i, contest, targets)
  }

  /** Some row among the first `k` credits `handle` with position `i`. */
  predicate Credited(rows: seq<Row>, k: nat, handle: string, i: int, contest: seq<string>, targets: seq<string>) {
    exists j :: 0 <= j < k && j < |rows| && SoloHit(rows[j], handle, i, contest, targets)
  }

  /** A single-member row with a hit at or beyond position `n`. */
  predicate Overflows(row: Row, n: nat, contest: seq<string>, targets: seq<string>) {
    Solo(row) && exists i :: n <= i < |row.points| && Hit(row, i, contest, targets)
  }

  /** The handles of the single-member rows among the first `k`. */
  function RowKeys(rows: seq<Row>, k: nat): set<string> {
    set j | 0 <= j < k && j < |rows| && rows[j].members != [] && Solo(rows[j]) :: Key(rows[j])
  }

  lemma CreditedStep(rows: seq<Row>, k: nat, handle: string, i: int, contest: seq<string>, targets: seq<string>)
    requires k < |rows|
    ensures Credited(rows, k + 1, handle, i, contest, targets) <==>
      Credited(rows, k, handle, i, contest, targets) || SoloHit(rows[k], handle, i, contest, targets)
  {
    if SoloHit(rows[k], handle, i, contest, targets) {
      assert 0 <= k < k + 1 && SoloHit(rows[k], handle, i, contest, targets);
    }
  }

  lemma RowKeysStep(rows: seq<Row>, k: nat)
    requires k < |rows|
    ensures RowKeys(rows, k + 1) ==
      RowKeys(rows, k) + (if rows[k].members != [] && Solo(rows[k]) then {Key(rows[k])} else {})
  {
    if rows[k].members != [] && Solo(rows[k]) {
      assert Key(rows[k]) in RowKeys(rows, k + 1);
    }
  }

  /** The dictionary after the first `k` rows over a template of `n` False
      slots: exactly the handles of the single-member rows among them, each
      record of the template's length with slot `i` True exactly when some
      row of that handle hit position `i`. */
  predicate Characterised(data: map<string, seq<bool>>, rows: seq<Row>, k: nat, n: nat, contest: seq<string>, targets: seq<string>) {
    && data.Keys == RowKeys(rows, k)
    && forall h :: h in data ==>
         && |data[h]| == n
         && forall i :: 0 <= i < n ==> (data[h][i] <==> Credited(rows, k, h, i, contest, targets))
  }

  /** A team row leaves the dictionary as it is, and the characterisation
      carries over to one more row. */
  lemma TeamRowStep(data: map<string, seq<bool>>, rows: seq<Row>, k: nat, n: nat, contest: seq<string>, targets: seq<string>)
    requires k < |rows| && WellShaped(rows[k], contest) && !Solo(rows[k])
    requires Characterised(data, rows, k, n, contest, targets)
    ensures ApplyRow(data, rows[k], contest, targets, Falses(n)) == Ok(data)
    ensures Characterised(data, rows, k + 1, n, contest, targets)
  {
    RowKeysStep(rows, k);
    forall h, i | h in data && 0 <= i < n
      ensures data[h][i] <==> Credited(rows, k + 1, h, i, contest, targets)
    {
      CreditedStep(rows, k, h, i, contest, targets);
    }
  }

  /** A single-member row raises IndexError exactly when it overflows the
      template; otherwise the characterisation carries over to one more row. */
  lemma SoloRowStep(data: map<string, seq<bool>>, rows: seq<Row>, k: nat, n: nat, contest: seq<string>, targets: seq<string>)
    requires k < |rows| && WellShaped(rows[k], contest) && Solo(rows[k])
    requires Characterised(data, rows, k, n, contest, targets)
    ensures ApplyRow(data, rows[k], contest, targets, Falses(n)).Ok? <==> !Overflows(rows[k], n, contest, targets)
    ensures ApplyRow(data, rows[k], contest, targets, Falses(n)).Err? ==>
      ApplyRow(data, rows[k], contest, targets, Falses(n)).error == IndexError
    ensures ApplyRow(data, rows[k], contest, targets, Falses(n)).Ok? ==>
      Characterised(ApplyRow(data, rows[k], contest, targets, Falses(n)).value, rows, k + 1, n, contest, targets)
  {
    var row := rows[k];
    var handle := Key(row);
    var vec := if handle in data then data[handle] else Falses(n);
    MarkSpec(vec, row, contest, targets, |row.points|);
    if Overflows(row, n, contest, targets) {
      var i :| n <= i < |row.points| && Hit(row, i, contest, targets);
      assert !(i < |vec|);
    } else {
      var v := Mark(vec, row, contest, targets, |row.points|).value;
      var next := data[handle := v];
      RowKeysStep(rows, k);
      forall h, i | h in next && 0 <= i < n
        ensures next[h][i] <==> Credited(rows, k + 1, h, i, contest, targets)
      {
        CreditedStep(rows, k, h, i, contest, targets);
        assert SoloHit(row, h, i, contest, targets) <==> h == handle && Hit(row, i, contest, targets);
      }
    }
  }

  /** The row loop over a template of `n` False slots fails exactly when some
      single-member row overflows the template, and then with IndexError.
      Otherwise the dictionary holds exactly the handles of the single-member
      rows (team rows create nothing), every record has the template's length,
      and a slot is True exactly when some row of that handle hit it. */
  lemma {:induction false} ApplyRowsSpec(rows: seq<Row>, contest: seq<string>, targets: seq<string>, n: nat, k: nat)
    requires k <= |rows|
    requires forall j :: 0 <= j < |rows| ==> WellShaped(rows[j], contest)
    ensures ApplyRows(rows, contest, targets, Falses(n), k).Ok? <==>
      forall j :: 0 <= j < k ==> !Overflows(rows[j], n, contest, targets)
    ensures ApplyRows(rows, contest, targets, Falses(n), k).Err? ==>
      ApplyRows(rows, contest, targets, Falses(n), k).error == IndexError
    ensures ApplyRows(rows, contest, targets, Falses(n), k).Ok? ==>
      Characterised(ApplyRows(rows, contest, targets, Falses(n), k).value, rows, k, n, contest, targets)
  {
    if k > 0 {
      ApplyRowsSpec(rows, contest, targets, n, k - 1);
      var prev := ApplyRows(rows, contest, targets, Falses(n), k - 1);
      if prev.Ok? {
        if Solo(rows[k - 1]) {
          SoloRowStep(prev.value, rows, k - 1, n, contest, targets);
        } else {
          TeamRowStep(prev.value, rows, k - 1, n, contest, targets);
        }
      }
    }
  }

  // ---------------------------------------------------------------------------
  // Requested users and solve counts (main.py:73-81)

  /** main.py:73-75: every requested user missing from the dictionary gets the template. */
  function AddMissing(data: map<string, seq<bool>>, users: seq<string>, template: seq<bool>): map<string, seq<bool>> {
    data + map u | u in users && u !in data :: template
  }

  /** The number of True slots. */
  function CountTrue(vec: seq<bool>): nat {
    if vec == [] then 0 else CountTrue(vec[..|vec| - 1]) + (if vec[|vec| - 1] then 1 else 0)
  }

  /** The count lies between 0 and the length, is 0 exactly when no slot is
      True, and equals the length exactly when every slot is True. */
  lemma {:induction false} CountTrueBounds(vec: seq<bool>)
    ensures CountTrue(vec) <= |vec|
    ensures CountTrue(vec) == 0 <==> forall i :: 0 <= i < |vec| ==> !vec[i]
    ensures CountTrue(vec) == |vec| <==> forall i :: 0 <= i < |vec| ==> vec[i]
  {
    if vec != [] {
      var init := vec[..|vec| - 1];
      CountTrueBounds(init);
      assert forall i :: 0 <= i < |init| ==> init[i] == vec[i];
    }
  }

  /** main.py:77-81: every record gets its count of True slots. */
  function Finalize(data: map<string, seq<bool>>): map<string, Record> {
    map h | h in data :: Record(data[h], CountTrue(data[h]))
  }

  /** The steps of main.py:59-81 for a given problem set and template. */
  function Aggregate(contest: seq<string>, targets: seq<string>, template: seq<bool>, rows: seq<Row>, users: seq<string>): Result<map<string, Record>>
    requires forall j :: 0 <= j < |rows| ==> WellShaped(rows[j], contest)
  {
    match ApplyRows(rows, contest, targets, template, |rows|)
    case Err(e) => Err(e)
    case Ok(data) => Ok(Finalize(AddMissing(data, users, template)))
  }

  /** The whole of `gather_data` after the fetch (main.py:28-37 and 47-83). */
  function Gather(contest: seq<string>, raw: string, rows: seq<Row>, users: seq<string>): Result<map<string, Record>>
    requires forall j :: 0 <= j < |rows| ==> WellShaped(rows[j], contest)
  {
    Aggregate(contest, Targets(contest, raw), Template(contest, raw), rows, users)
  }

  /** Aggregation over an all-False template of `n` slots: it raises
      IndexError exactly when a single-member row scores a targeted problem at
      a position `n` or beyond. Otherwise the result has an entry for every
      requested user and for every single-member row's handle and for nothing
      else; every record has `n` slots; slot `i` is True exactly when a
      single-member row of that handle scored the targeted problem at contest
      position `i`; `solved` is the number of True slots; and a requested user
      no row mentions gets the all-False template with nothing solved. */
  lemma AggregateSpec(contest: seq<string>, targets: seq<string>, n: nat, rows: seq<Row>, users: seq<string>)
    requires forall j :: 0 <= j < |rows| ==> WellShaped(rows[j], contest)
    ensures Aggregate(contest, targets, Falses(n), rows, users).Ok? <==>
      forall j :: 0 <= j < |rows| ==> !Overflows(rows[j], n, contest, targets)
    ensures Aggregate(contest, targets, Falses(n), rows, users).Err? ==>
      Aggregate(contest, targets, Falses(n), rows, users).error == IndexError
    ensures Aggregate(contest, targets, Falses(n), rows, users).Ok? ==>
      var out := Aggregate(contest, targets, Falses(n), rows, users).value;
      && out.Keys == RowKeys(rows, |rows|) + (set u | u in users)
      && (forall h :: h in out ==> |out[h].problems| == n)
      && (forall h, i :: h in out && 0 <= i < n ==>
            (out[h].problems[i] <==> Credited(rows, |rows|, h, i, contest, targets)))
      && (forall h :: h in out ==> out[h].solved == CountTrue(out[h].problems) <= n)
      && (forall u :: u in users && u !in RowKeys(rows, |rows|) ==> out[u] == Record(Falses(n), 0))
  {
    var template := Falses(n);
    ApplyRowsSpec(rows, contest, targets, n, |rows|);
    var res := ApplyRows(rows, contest, targets, template, |rows|);
    if res.Ok? {
      var full := AddMissing(res.value, users, template);
      forall h | h in full
        ensures |full[h]| == n && CountTrue(full[h]) <= n
      {
        CountTrueBounds(full[h]);
      }
      forall u | u in users && u !in RowKeys(rows, |rows|)
        ensures CountTrue(full[u]) == 0
      {
        CountTrueBounds(full[u]);
      }
    }
  }

  /** What `gather_data` promises, with `n` the length of the selection's
      template and the targets those of the selection (see AggregateSpec). */
  lemma GatherSpec(contest: seq<string>, raw: string, rows: seq<Row>, users: seq<string>)
    requires forall j :: 0 <= j < |rows| ==> WellShaped(rows[j], contest)
    ensures var n := |Template(contest, raw)|;
      Gather(contest, raw, rows, users).Ok? <==>
        forall j :: 0 <= j < |rows| ==> !Overflows(rows[j], n, contest, Targets(contest, raw))
    ensures Gather(contest, raw, rows, users).Err? ==> Gather(contest, raw, rows, users).error == IndexError
    ensures Gather(contest, raw, rows, users).Ok? ==>
      var out := Gather(contest, raw, rows, users).value;
      var n := |Template(contest, raw)|;
      && out.Keys == RowKeys(rows, |rows|) + (set u | u in users)
      && (forall h :: h in out ==> |out[h].problems| == n)
      && (forall h, i :: h in out && 0 <= i < n ==>
            (out[h].problems[i] <==> Credited(rows, |rows|, h, i, contest, Targets(contest, raw))))
      && (forall h :: h in out ==> out[h].solved == CountTrue(out[h].problems) <= n)
      && (forall u :: u in users && u !in RowKeys(rows, |rows|) ==> out[u] == Record(Falses(n), 0))
  {
    var n := |Template(contest, raw)|;
    assert Template(contest, raw) == Falses(n);
    AggregateSpec(contest, Targets(contest, raw), n, rows, users);
  }

  // ---------------------------------------------------------------------------
  // The template the record layout calls for

  /** `gather_data` with the template its writes assume. main.py:70-71 looks
      up `indexes[id]` and sets slot `id`, both by contest position, so a
      record is meant to be aligned with the contest: one slot per contest
      problem, those outside the selection left False for good. */
  function GatherIntended(contest: seq<string>, raw: string, rows: seq<Row>, users: seq<string>): Result<map<string, Record>>
    requires forall j :: 0 <= j < |rows| ==> WellShaped(rows[j], contest)
  {
    Aggregate(contest, Targets(contest, raw), Falses(|contest|), rows, users)
  }

  /** True slots lying only at targeted positions are no more than the
      targeted positions. */
  lemma {:induction false} CountTrueTargeted(vec: seq<bool>, contest: seq<string>, targets: seq<string>)
    requires |vec| == |contest|
    requires forall i :: 0 <= i < |vec| && vec[i] ==> contest[i] in targets
    ensures CountTrue(vec) <= TargetedCount(contest, targets)
  {
    if vec != [] {
      var k := |vec| - 1;
      assert forall i :: 0 <= i < k ==> vec[..k][i] == vec[i] && contest[..k][i] == contest[i];
      CountTrueTargeted(vec[..k], contest[..k], targets);
    }
  }

  /** With one slot per contest problem no write can fall outside a record, so
      the aggregation never raises; each record is aligned with the contest,
      a slot outside the selection is always False, and `solved` counts the
      solved targeted problems, so it never exceeds their number. */
  lemma GatherIntendedSpec(contest: seq<string>, raw: string, rows: seq<Row>, users: seq<string>)
    requires forall j :: 0 <= j < |rows| ==> WellShaped(rows[j], contest)
    ensures GatherIntended(contest, raw, rows, users).Ok?
    ensures var out := GatherIntended(contest, raw, rows, users).value;
      var targets := Targets(contest, raw);
      && out.Keys == RowKeys(rows, |rows|) + (set u | u in users)
      && (forall h :: h in out ==> |out[h].problems| == |contest|)
      && (forall h, i :: h in out && 0 <= i < |contest| ==>
            (out[h].problems[i] <==> Credited(rows, |rows|, h, i, contest, targets)))
      && (forall h, i :: h in out && 0 <= i < |contest| && contest[i] !in targets ==> !out[h].problems[i])
      && (forall h :: h in out ==> out[h].solved == CountTrue(out[h].problems) <= TargetedCount(contest, targets))
      && (forall u :: u in users && u !in RowKeys(rows, |rows|) ==> out[u] == Record(Falses(|contest|), 0))
  {
    var targets := Targets(contest, raw);
    var n := |contest|;
    AggregateSpec(contest, targets, n, rows, users);
    forall j | 0 <= j < |rows|
      ensures !Overflows(rows[j], n, contest, targets)
    {
    }
    var out := GatherIntended(contest, raw, rows, users).value;
    forall h | h in out
      ensures out[h].solved <= TargetedCount(contest, targets)
    {
      forall i | 0 <= i < n && out[h].problems[i]
        ensures contest[i] in targets
      {
        assert Credited(rows, |rows|, h, i, contest, targets);
      }
      CountTrueTargeted(out[h].problems, contest, targets);
    }
  }

  /** The facts the examples below rest on: selection "AC" over contest A, B, C
      targets A and C, so the template has two slots, and the handle "alice" is
      already lower-case. */
  lemma ExampleTargets()
    ensures Targets(["A", "B", "C"], "AC") == ["A", "C"]
    ensures |Template(["A", "B", "C"], "AC")| == 2
    ensures Lower("alice") == "alice"
  {
    ParseExamples();
    var t := ["A", "C"];
    assert ["A"][..0] == [];
    assert TargetedCount(["A"], t) == 1;
    assert ["A", "B"][..1] == ["A"];
    assert TargetedCount(["A", "B"], t) == 1;
    assert ["A", "B", "C"][..2] == ["A", "B"];
  }

  /** A selection that skips a contest problem: contest A, B, C, selection "AC",
      one individual row for alice scoring on A and C. As written the template
      has two slots, so the write for C at contest position 2 raises IndexError. */
  lemma SubsetExampleRaises()
    ensures Gather(["A", "B", "C"], "AC", [Row(["alice"], [3.0, 0.0, 5.0])], ["alice"]) == Err(IndexError)
  {
    var contest := ["A", "B", "C"];
    var row := Row(["alice"], [3.0, 0.0, 5.0]);
    ExampleTargets();
    GatherSpec(contest, "AC", [row], ["alice"]);
    assert Hit(row, 2, contest, ["A", "C"]);
  }

  /** The same example with one slot per contest problem: alice is credited
      with A and C, two problems solved. */
  lemma SubsetExampleIntended()
    ensures GatherIntended(["A", "B", "C"], "AC", [Row(["alice"], [3.0, 0.0, 5.0])], ["alice"])
      == Ok(map["alice" := Record([true, false, true], 2)])
  {
    var contest := ["A", "B", "C"];
    var targets := ["A", "C"];
    var rows := [Row(["alice"], [3.0, 0.0, 5.0])];
    ExampleTargets();
    GatherIntendedSpec(contest, "AC", rows, ["alice"]);
    var out := GatherIntended(contest, "AC", rows, ["alice"]).value;
    assert RowKeys(rows, 1) == {"alice"} by {
      assert Key(rows[0]) == "alice";
    }
    assert (set u | u in ["alice"]) == {"alice"};
    var p := out["alice"].problems;
    assert SoloHit(rows[0], "alice", 0, contest, targets);
    assert SoloHit(rows[0], "alice", 2, contest, targets);
    assert p == [true, false, true];
    assert CountTrue(p) == 2 by {
      assert [true][..0] == [];
      assert CountTrue([true]) == 1;
      assert [true, false][..1] == [true];
      assert CountTrue([true, false]) == 1;
      assert p[..2] == [true, false];
    }
    assert out == map["alice" := Record([true, false, true], 2)];
  }

  /** The row loop only ever sees the template through the records it copies,
      so the AK override at main.py:55-57 is the generic rule applied to the
      whole contest. */
  lemma AkIsEveryProblem(contest: seq<string>)
    ensures Targets(contest, "AK") == contest
    ensures Template(contest, "AK") == Falses(TargetedCount(contest, contest))
  {
    TargetedCountBounds(contest, contest);
  }
}
