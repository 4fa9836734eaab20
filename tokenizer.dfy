/** The problem-selection tokenizer at the top of `gather_data` (main.py:28-37):
    a backward scan that glues each digit to the character before it. */
module Tokenizer {
  import opened Py

  /** Membership in Python's `string.digits`. */
  predicate IsDigit(c: char) {
    '0' <= c <= '9'
  }

  /** The tokens the backward scan emits for the first `n` characters of `raw`,
      in left-to-right order. The whole of `raw` is a parameter because a digit
      at index 0 is sliced as `raw[-1:1]`, which depends on the full length:
      it is `raw` itself when `raw` has one character and empty otherwise. */
  function Scan(raw: string, n: nat): seq<string>
    requires n <= |raw|
    decreases n
  {
    if n == 0 then []
    else if !IsDigit(raw[n - 1]) then Scan(raw, n - 1) + [[raw[n - 1]]]
    else if n >= 2 then Scan(raw, n - 2) + [raw[n - 2..n]]
    else [if |raw| == 1 then raw else ""]
  }

  /** The problem set a raw selection string denotes. */
  function Parse(raw: string): seq<string> {
    Scan(raw, |raw|)
  }

  /** The loop of main.py:28-37: `x` moves from the end towards the start,
      tokens are collected last-first, and the list is reversed at the end. */
  method ParseProblems(raw: string) returns (problems: seq<string>)
    ensures problems == Parse(raw)
  {
    problems := [];
    var x := |raw| - 1;
    ghost var n: nat := |raw|;
    while x >= 0
      invariant -2 <= x < |raw|
      invariant n == if x < 0 then 0 else x + 1
      invariant Scan(raw, n) + Reversed(problems) == Parse(raw)
      decreases x + 2
    {
      ScanStep(raw, x);
      ghost var before := problems;
      if IsDigit(raw[x]) {
        x := x - 1;
        problems := problems + [Slice(raw, x, x + 2)];
      } else {
        problems := problems + [[raw[x]]];
      }
      x := x - 1;
      ghost var m: nat := if x < 0 then 0 else x + 1;
      MoveToken(Scan(raw, n), Scan(raw, m), before, problems[|problems| - 1]);
      n := m;
    }
    problems := Reversed(problems);
  }

  /** One step of the scan at index `x`: the token it emits there, sliced the
      way main.py:33 slices it, is the last token of the first `x + 1` characters. */
  lemma ScanStep(raw: string, x: nat)
    requires x < |raw|
    ensures IsDigit(raw[x]) && x >= 1 ==> Scan(raw, x + 1) == Scan(raw, x - 1) + [Slice(raw, x - 1, x + 1)]
    ensures IsDigit(raw[x]) && x == 0 ==> Scan(raw, x + 1) == Scan(raw, 0) + [Slice(raw, x - 1, x + 1)]
    ensures !IsDigit(raw[x]) ==> Scan(raw, x + 1) == Scan(raw, x) + [[raw[x]]]
  {
    if IsDigit(raw[x]) && x == 0 {
      if |raw| == 1 {
        assert raw[0..1] == raw;
      }
    }
  }

  /** Moving the last pending token onto the collected list keeps the total. */
  lemma MoveToken(pending: seq<string>, rest: seq<string>, collected: seq<string>, t: string)
    requires pending == rest + [t]
    ensures pending + Reversed(collected) == rest + Reversed(collected + [t])
  {
    ReversedSnoc(collected, t);
  }

  /** A token is one non-digit, or any character followed by one digit. */
  predicate WellFormedToken(t: string) {
    (|t| == 1 && !IsDigit(t[0])) || (|t| == 2 && IsDigit(t[1]))
  }

  /** The tokens written back to back. */
  function Concat(ts: seq<string>): string {
    if ts == [] then [] else Concat(ts[..|ts| - 1]) + ts[|ts| - 1]
  }

  /** Where the scan of the first `n` characters emits its last token: one
      back for a non-digit, two back for a digit glued to the character before it. */
  function Back(raw: string, n: nat): (k: nat)
    requires 1 <= n <= |raw|
    ensures k < n && (k == n - 1 || k == n - 2)
  {
    if IsDigit(raw[n - 1]) && n >= 2 then n - 2 else n - 1
  }

  /** Every step of the scan but a lone leading digit emits the slice from
      `Back(raw, n)` to `n`. */
  lemma ScanBack(raw: string, n: nat)
    requires 1 <= n <= |raw|
    requires n >= 2 || !IsDigit(raw[0])
    ensures Scan(raw, n) == Scan(raw, Back(raw, n)) + [raw[Back(raw, n)..n]]
  {
    if IsDigit(raw[n - 1]) && n >= 2 {
      assert Scan(raw, n) == Scan(raw, n - 2) + [raw[n - 2..n]];
    } else {
      assert !IsDigit(raw[n - 1]);
      assert [raw[n - 1]] == raw[n - 1..n];
      assert Scan(raw, n) == Scan(raw, n - 1) + [[raw[n - 1]]];
    }
  }

  lemma SliceJoin(raw: string, i: nat, k: nat, n: nat)
    requires i <= k <= n <= |raw|
    ensures raw[i..n] == raw[i..k] + raw[k..n]
  {
  }

  lemma ConcatSnoc(ts: seq<string>, t: string)
    ensures Concat(ts + [t]) == Concat(ts) + t
  {
    assert (ts + [t])[..|ts|] == ts;
  }

  lemma {:induction false} ScanSplits(raw: string, n: nat)
    requires n <= |raw|
    requires raw != [] ==> !IsDigit(raw[0])
    ensures Concat(Scan(raw, n)) == raw[0..n]
    ensures forall t :: t in Scan(raw, n) ==> WellFormedToken(t)
    decreases n
  {
    if n > 0 {
      var k := Back(raw, n);
      ScanBack(raw, n);
      ScanSplits(raw, k);
      ConcatSnoc(Scan(raw, k), raw[k..n]);
      SliceJoin(raw, 0, k, n);
    }
  }

  /** For a selection that does not start with a digit, the tokens partition it:
      written back to back they give the input, and each one is well formed. */
  lemma ParsePartitions(raw: string)
    requires raw != [] ==> !IsDigit(raw[0])
    ensures Concat(Parse(raw)) == raw
    ensures forall t :: t in Parse(raw) ==> WellFormedToken(t)
  {
    ScanSplits(raw, |raw|);
    assert raw[0..|raw|] == raw;
  }

  /** Whether the scan of the first `n` characters reaches index 0 as a step
      of its own, rather than as the first half of a digit pair. */
  predicate LandsOnFirst(raw: string, n: nat)
    requires n <= |raw|
    decreases n
  {
    if n == 0 then false
    else if n == 1 then true
    else if IsDigit(raw[n - 1]) then LandsOnFirst(raw, n - 2)
    else LandsOnFirst(raw, n - 1)
  }

  /** In a selection of two or more characters, a leading digit the scan
      reaches on its own is sliced as `raw[-1:1]`: an empty token that drops
      the digit. */
  lemma {:induction false} ScanLands(raw: string, n: nat)
    requires 1 <= n <= |raw| && 2 <= |raw| && IsDigit(raw[0]) && LandsOnFirst(raw, n)
    ensures |Scan(raw, n)| >= 1
    ensures Scan(raw, n)[0] == ""
    ensures Concat(Scan(raw, n)) == raw[1..n]
    decreases n
  {
    if n == 1 {
      assert Scan(raw, 1) == [""];
      assert Concat([""]) == Concat([]) + "";
    } else {
      var k := Back(raw, n);
      ScanBack(raw, n);
      ScanLands(raw, k);
      ConcatSnoc(Scan(raw, k), raw[k..n]);
      SliceJoin(raw, 1, k, n);
    }
  }

  /** A leading digit the scan reaches as the first half of a pair is glued to
      the digit after it like any other character, and nothing is lost. */
  lemma {:induction false} ScanPaired(raw: string, n: nat)
    requires 2 <= n <= |raw| && !LandsOnFirst(raw, n)
    ensures |Scan(raw, n)| >= 1
    ensures Scan(raw, n)[0] == raw[0..2]
    ensures Concat(Scan(raw, n)) == raw[0..n]
    decreases n
  {
    var k := Back(raw, n);
    ScanBack(raw, n);
    ConcatSnoc(Scan(raw, k), raw[k..n]);
    if k == 0 {
      assert Concat([]) == [];
    } else {
      ScanPaired(raw, k);
      SliceJoin(raw, 0, k, n);
    }
  }

  /** A selection starting with a digit: when the scan reaches that digit on
      its own, a one-character selection comes back whole and a longer one
      yields an empty first token and loses the digit; when the digit is the
      first half of a pair, the pair is the first token and nothing is lost. */
  lemma ParseLeadingDigit(raw: string)
    requires |raw| >= 1 && IsDigit(raw[0])
    ensures LandsOnFirst(raw, |raw|) ==>
      && Parse(raw)[0] == (if |raw| == 1 then raw else "")
      && Concat(Parse(raw)) == (if |raw| == 1 then raw else raw[1..])
    ensures !LandsOnFirst(raw, |raw|) ==>
      && Parse(raw)[0] == raw[..2]
      && Concat(Parse(raw)) == raw
  {
    if |raw| == 1 {
      assert Parse(raw) == [raw];
      assert Concat([raw]) == Concat([]) + raw;
    } else if LandsOnFirst(raw, |raw|) {
      ScanLands(raw, |raw|);
    } else {
      ScanPaired(raw, |raw|);
      assert raw[0..|raw|] == raw;
    }
  }

  /** The worked examples: "AB10" splits as A, B, 10; "B12" glues the 1 to the
      2, leaving B on its own; "AK" tokenizes as A, K and "AC" as A, C; "1A" loses its leading digit;
      "12A" glues it to the next digit, while "112" glues "12" and then loses the first "1". */
  lemma ParseExamples()
    ensures Parse("AB10") == ["A", "B", "10"]
    ensures Parse("B12") == ["B", "12"]
    ensures Parse("AK") == ["A", "K"]
    ensures Parse("AC") == ["A", "C"]
    ensures Parse("5") == ["5"]
    ensures Parse("1A") == ["", "A"]
    ensures Parse("12A") == ["12", "A"]
    ensures Parse("112") == ["", "12"]
  {
    assert Scan("AB10", 1) == ["A"];
    assert Scan("AB10", 2) == ["A", "B"];
    assert "AB10"[2..4] == "10";
    assert Scan("B12", 1) == ["B"];
    assert "B12"[1..3] == "12";
    assert Scan("1A", 1) == [""];
    assert Scan("AK", 1) == ["A"];
    assert Scan("AC", 1) == ["A"];
    assert "12A"[0..2] == "12";
    assert Scan("12A", 2) == ["12"];
    assert Scan("112", 1) == [""];
    assert "112"[1..3] == "12";
  }
}
