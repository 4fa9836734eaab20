/** The one computation of `main` that feeds a record into the colour map:
    the completion fraction `solved / len(problems)` of main.py:144. */
module Report {
  import opened Py
  import opened ColorMap
  import opened Standings

  /** `solved / len(problems)`, or the ZeroDivisionError Python raises for an
      empty record. */
  function Fraction(rec: Record): Result<real> {
    if |rec.problems| == 0 then Err(ZeroDivisionError)
    else Ok(rec.solved as real / |rec.problems| as real)
  }

  /** For a record whose `solved` counts its True slots, the fraction fails
      exactly on an empty record; otherwise it lies in [0, 1], so the range
      check of main.py:12-13 never fires and the colour is defined. */
  lemma FractionInRange(rec: Record)
    requires rec.solved == CountTrue(rec.problems)
    ensures Fraction(rec).Err? <==> |rec.problems| == 0
    ensures Fraction(rec).Err? ==> Fraction(rec).error == ZeroDivisionError
    ensures Fraction(rec).Ok? ==> 0.0 <= Fraction(rec).value <= 1.0
    ensures Fraction(rec).Ok? ==> Interpolate(PENDING, DONE, Fraction(rec).value).Ok?
  {
    CountTrueBounds(rec.problems);
    if |rec.problems| > 0 {
      var s := rec.solved as real;
      var n := |rec.problems| as real;
      assert s / n <= 1.0 by {
        assert s <= n;
        assert s / n * n == s;
      }
    }
  }

  /** Over everything `gather_data` returns: the colour of every record is
      defined unless the selection matches no contest problem, in which case
      every record is empty and main.py:144 divides by zero. */
  lemma GatherColors(contest: seq<string>, raw: string, rows: seq<Row>, users: seq<string>, h: string)
    requires forall j :: 0 <= j < |rows| ==> WellShaped(rows[j], contest)
    requires Gather(contest, raw, rows, users).Ok?
    requires h in Gather(contest, raw, rows, users).value
    ensures var rec := Gather(contest, raw, rows, users).value[h];
      && (Fraction(rec).Err? <==>
            forall i :: 0 <= i < |contest| ==> contest[i] !in Targets(contest, raw))
      && (Fraction(rec).Ok? ==> Interpolate(PENDING, DONE, Fraction(rec).value).Ok?)
  {
    GatherSpec(contest, raw, rows, users);
    TemplateSize(contest, raw);
    TargetedCountBounds(contest, Targets(contest, raw));
    FractionInRange(Gather(contest, raw, rows, users).value[h]);
  }

  /** With one slot per contest problem the division of main.py:144 fails
      only for a contest without problems, whatever the selection, for every
      requested user. */
  lemma GatherIntendedColors(contest: seq<string>, raw: string, rows: seq<Row>, users: seq<string>, h: string)
    requires forall j :: 0 <= j < |rows| ==> WellShaped(rows[j], contest)
    requires h in users
    ensures GatherIntended(contest, raw, rows, users).Ok? && h in GatherIntended(contest, raw, rows, users).value
    ensures var rec := GatherIntended(contest, raw, rows, users).value[h];
      && (Fraction(rec).Err? <==> contest == [])
      && (Fraction(rec).Ok? ==> Interpolate(PENDING, DONE, Fraction(rec).value).Ok?)
  {
    GatherIntendedSpec(contest, raw, rows, users);
    FractionInRange(GatherIntended(contest, raw, rows, users).value[h]);
  }
}
