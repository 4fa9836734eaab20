/** Reading a contest id and a problem selection out of a spreadsheet cell
    formula (main.py:112-114), e.g.
    `=HYPERLINK("https://codeforces.com/contest/1234","ABC")` gives ("1234", "ABC"). */
module ContestCells {
  import opened Py

  /** `s.replace(" ", "")`. */
  function RemoveSpaces(s: string): (r: string)
    ensures ' ' !in r
    ensures |r| <= |s|
  {
    if s == [] then []
    else RemoveSpaces(s[..|s| - 1]) + (if s[|s| - 1] == ' ' then [] else [s[|s| - 1]])
  }

  /** The index of the first `c` in `s`, or `|s|` when there is none. */
  function FirstIndex(s: string, c: char): (i: nat)
    ensures i <= |s|
    ensures c !in s[..i]
    ensures i < |s| ==> s[i] == c
  {
    if s == [] || s[0] == c then 0
    else
      var i := 1 + FirstIndex(s[1..], c);
      assert s[..i] == [s[0]] + s[1..][..i - 1];
      i
  }

  /** `s.split(c)` for a one-character separator: the pieces between the separators. */
  function Split(s: string, c: char): (parts: seq<string>)
    ensures |parts| >= 1
    decreases |s|
  {
    var i := FirstIndex(s, c);
    if i == |s| then [s] else [s[..i]] + Split(s[i + 1..], c)
  }

  /** `s.rsplit(c, 1)[-1]`: what follows the last `c`, or all of `s`. */
  function AfterLast(s: string, c: char): string {
    if s == [] then []
    else if s[|s| - 1] == c then []
    else AfterLast(s[..|s| - 1], c) + [s[|s| - 1]]
  }

  /** main.py:113-114 for one cell; a cell with no comma has no second part
      and raises IndexError. */
  function ParseCell(cell: string): Result<(string, string)> {
    var parts := Split(RemoveSpaces(cell), ',');
    if |parts| < 2 then Err(IndexError)
    else Ok((AfterLast(Slice(parts[0], 12, -1), '/'), Slice(parts[1], 1, -2)))
  }

  /** The loop of main.py:112-114, which replaces every cell of the list by
      its pair; here the pairs form a new list. */
  method ParseCells(cells: seq<string>) returns (r: Result<seq<(string, string)>>)
    ensures r.Ok? <==> forall i :: 0 <= i < |cells| ==> ParseCell(cells[i]).Ok?
    ensures r.Err? ==> r.error == IndexError
    ensures r.Ok? ==> |r.value| == |cells| && forall i :: 0 <= i < |cells| ==> r.value[i] == ParseCell(cells[i]).value
  {
    var contests: seq<(string, string)> := [];
    for idx := 0 to |cells|
      invariant |contests| == idx
      invariant forall i :: 0 <= i < idx ==> ParseCell(cells[i]).Ok? && contests[i] == ParseCell(cells[i]).value
    {
      var contest := Split(RemoveSpaces(cells[idx]), ',');
      if |contest| < 2 {
        return Err(IndexError);
      }
      contests := contests + [(AfterLast(Slice(contest[0], 12, -1), '/'), Slice(contest[1], 1, -2))];
    }
    return Ok(contests);
  }

  lemma {:induction false} RemoveSpacesKeeps(s: string)
    requires ' ' !in s
    ensures RemoveSpaces(s) == s
  {
    if s != [] {
      RemoveSpacesKeeps(s[..|s| - 1]);
      assert s == s[..|s| - 1] + [s[|s| - 1]];
    }
  }

  /** One more character is dropped if it is a space and kept otherwise. */
  lemma RemoveSpacesSnoc(s: string, c: char)
    ensures RemoveSpaces(s + [c]) == RemoveSpaces(s) + (if c == ' ' then [] else [c])
  {
    assert (s + [c])[..|s|] == s;
  }

  /** Removing spaces works piece by piece, so the kept characters stay in
      their order. */
  lemma {:induction false} RemoveSpacesAppend(a: string, b: string)
    ensures RemoveSpaces(a + b) == RemoveSpaces(a) + RemoveSpaces(b)
    decreases |b|
  {
    if b == [] {
      assert a + b == a;
    } else {
      var init := b[..|b| - 1];
      var last := b[|b| - 1];
      var kept: string := if last == ' ' then [] else [last];
      assert b == init + [last];
      assert a + b == (a + init) + [last];
      calc {
        RemoveSpaces(a + b);
        { RemoveSpacesSnoc(a + init, last); }
        RemoveSpaces(a + init) + kept;
        { RemoveSpacesAppend(a, init); }
        RemoveSpaces(a) + RemoveSpaces(init) + kept;
        { RemoveSpacesSnoc(init, last); }
        RemoveSpaces(a) + RemoveSpaces(b);
      }
    }
  }

  /** Removing spaces keeps exactly the characters that are not spaces. */
  lemma {:induction false} RemoveSpacesChars(s: string)
    ensures forall c :: c in RemoveSpaces(s) <==> c in s && c != ' '
  {
    if s != [] {
      var init := s[..|s| - 1];
      RemoveSpacesChars(init);
      assert s == init + [s[|s| - 1]];
    }
  }

  /** A space alone vanishes, as does a string of spaces. */
  lemma {:induction false} RemoveSpacesOnly(s: string)
    requires forall i :: 0 <= i < |s| ==> s[i] == ' '
    ensures RemoveSpaces(s) == ""
  {
    if s != [] {
      RemoveSpacesOnly(s[..|s| - 1]);
    }
  }

  /** Splitting at a first separator peels off the piece before it. */
  lemma SplitFirst(a: string, b: string, c: char)
    requires c !in a
    ensures Split(a + [c] + b, c) == [a] + Split(b, c)
  {
    var s := a + [c] + b;
    assert s[|a|] == c;
    assert forall k :: 0 <= k < |a| ==> s[k] == a[k];
    assert FirstIndex(s, c) == |a|;
    assert s[..|a|] == a && s[|a| + 1..] == b;
  }

  /** `Split` yields more than one piece exactly when the separator occurs. */
  lemma SplitCount(s: string, c: char)
    ensures |Split(s, c)| >= 2 <==> c in s
  {
    var i := FirstIndex(s, c);
    if i == |s| {
      assert s[..i] == s;
    }
  }

  lemma {:induction false} AfterLastOf(a: string, b: string, c: char)
    requires c !in b
    ensures AfterLast(a + [c] + b, c) == b
    decreases |b|
  {
    if b == [] {
    } else {
      var s := a + [c] + b;
      var init := b[..|b| - 1];
      AfterLastOf(a, init, c);
      assert s[..|s| - 1] == a + [c] + init;
      assert b == init + [b[|b| - 1]];
    }
  }

  /** The formula a contest cell holds. */
  function HyperlinkCell(url: string, name: string): string {
    "=HYPERLINK(\"" + url + "\",\"" + name + "\")"
  }

  /** A cell parses exactly when it holds a comma once its spaces are gone. */
  lemma ParseCellFails(cell: string)
    ensures ParseCell(cell).Err? <==> ',' !in RemoveSpaces(cell)
    ensures ParseCell(cell).Err? ==> ParseCell(cell).error == IndexError
  {
    SplitCount(RemoveSpaces(cell), ',');
  }

  /** The part of a contest cell before its comma. */
  function LinkPart(url: string): string {
    "=HYPERLINK(\"" + url + "\""
  }

  /** The part of a contest cell after its comma. */
  function NamePart(name: string): string {
    "\"" + name + "\")"
  }

  lemma CellParts(url: string, name: string)
    requires ' ' !in url && ' ' !in name
    requires ',' !in url && ',' !in name
    ensures HyperlinkCell(url, name) == LinkPart(url) + [','] + NamePart(name)
    ensures ' ' !in HyperlinkCell(url, name)
    ensures ',' !in LinkPart(url) && ',' !in NamePart(name)
    ensures Slice(LinkPart(url), 12, -1) == url
    ensures Slice(NamePart(name), 1, -2) == name
  {
    assert LinkPart(url)[12..|LinkPart(url)| - 1] == url;
    assert NamePart(name)[1..|NamePart(name)| - 2] == name;
  }

  /** A cell that reads `=HYPERLINK("<base>/<id>","<name>")` once its spaces
      are removed gives back the contest id (what follows the last slash) and
      the selection, provided no part holds a comma and the id holds no slash. */
  lemma ParseHyperlink(cell: string, base: string, id: string, name: string)
    requires RemoveSpaces(cell) == HyperlinkCell(base + "/" + id, name)
    requires ',' !in base && ',' !in id && ',' !in name
    requires '/' !in id
    ensures ParseCell(cell) == Ok((id, name))
  {
    var url := base + "/" + id;
    var clean := HyperlinkCell(url, name);
    assert ' ' !in clean;
    assert url == base + ['/'] + id;
    assert ' ' !in base && ' ' !in id && ' ' !in name by {
      forall k | 0 <= k < |url|
        ensures url[k] != ' '
      {
        assert clean[12 + k] == url[k];
      }
      forall k | 0 <= k < |base|
        ensures base[k] != ' '
      {
        assert url[k] == base[k];
      }
      forall k | 0 <= k < |id|
        ensures id[k] != ' '
      {
        assert url[|base| + 1 + k] == id[k];
      }
      forall k | 0 <= k < |name|
        ensures name[k] != ' '
      {
        assert clean[12 + |url| + 3 + k] == name[k];
      }
    }
    CellParts(url, name);
    SplitFirst(LinkPart(url), NamePart(name), ',');
    SplitCount(NamePart(name), ',');
    AfterLastOf(base, id, '/');
  }

  /** The form the sheet usually holds, with a space after the comma:
      `=HYPERLINK("<base>/<id>", "<name>")` parses like the one without. */
  lemma ParseSpacedHyperlink(base: string, id: string, name: string)
    requires ' ' !in base && ' ' !in id && ' ' !in name
    requires ',' !in base && ',' !in id && ',' !in name
    requires '/' !in id
    ensures ParseCell(LinkPart(base + "/" + id) + ", " + NamePart(name)) == Ok((id, name))
  {
    var url := base + "/" + id;
    CellParts(url, name);
    RemoveSpacesKeeps(LinkPart(url));
    RemoveSpacesKeeps(NamePart(name));
    RemoveSpacesKeeps(",");
    RemoveSpacesOnly(" ");
    RemoveSpacesAppend(LinkPart(url), ", ");
    RemoveSpacesAppend(",", " ");
    assert RemoveSpaces(", ") == ",";
    RemoveSpacesAppend(LinkPart(url) + ", ", NamePart(name));
    ParseHyperlink(LinkPart(url) + ", " + NamePart(name), base, id, name);
  }
}
