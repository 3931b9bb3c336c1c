/** `make_filestring`: the text of a CSV report, built row by row and field
    by field. Each field is written as its text (the `str` of the value)
    followed by a comma; at the end of a row the last character is cut off
    and a newline is added. Nothing is quoted or escaped. */
module Csv {

  /** `s[:-1]`: the text without its last character; empty text stays empty. */
  function DropLast(s: string): string
  {
    if s == [] then [] else s[..|s| - 1]
  }

  /** What the inner loop adds for one row: every field followed by a comma. */
  function Terminated(fields: seq<string>): string
    decreases |fields|
  {
    if fields == [] then "" else Terminated(fields[..|fields| - 1]) + fields[|fields| - 1] + ","
  }

  /** The text `make_filestring` returns, row after row as its loops build it. */
  function FileString(data: seq<seq<string>>): string
    decreases |data|
  {
    if data == [] then ""
    else DropLast(FileString(data[..|data| - 1]) + Terminated(data[|data| - 1])) + "\n"
  }

  lemma TerminatedStep(row: seq<string>, j: nat)
    requires j < |row|
    ensures Terminated(row[..j + 1]) == Terminated(row[..j]) + (row[j] + ",")
  {
    assert row[..j + 1][..j] == row[..j];
  }

  lemma FileStringStep(data: seq<seq<string>>, i: nat)
    requires i < |data|
    ensures FileString(data[..i + 1]) == DropLast(FileString(data[..i]) + Terminated(data[i])) + "\n"
  {
    assert data[..i + 1][..i] == data[..i];
  }

  /** `make_filestring`, with each field given as its text. */
  method MakeFilestring(data: seq<seq<string>>) returns (s: string)
    ensures s == FileString(data)
  {
    s := "";
    for i := 0 to |data|
      invariant s == FileString(data[..i])
    {
      var row := data[i];
      ghost var before := s;
      for j := 0 to |row|
        invariant s == before + Terminated(row[..j])
      {
        ghost var prev := s;
        s := s + row[j];
        s := s + ",";
        TerminatedStep(row, j);
        assert s == prev + (row[j] + ",");
        assert s == before + (Terminated(row[..j]) + (row[j] + ","));
      }
      assert row[..|row|] == row;
      s := DropLast(s);
      s := s + "\n";
      FileStringStep(data, i);
    }
    assert data[..|data|] == data;
  }

  /** Reference reading of a row: its fields joined by single commas. */
  function Join(fields: seq<string>): string
    requires fields != []
    decreases |fields|
  {
    if |fields| == 1 then fields[0] else Join(fields[..|fields| - 1]) + "," + fields[|fields| - 1]
  }

  /** Reference reading of a report: every row joined by commas and ended by one newline. */
  function Lines(data: seq<seq<string>>): string
    requires forall k :: 0 <= k < |data| ==> data[k] != []
    decreases |data|
  {
    if data == [] then "" else Lines(data[..|data| - 1]) + Join(data[|data| - 1]) + "\n"
  }

  /** The comma-per-field text of a non-empty row is its joined text plus one comma. */
  lemma {:induction false} TerminatedIsJoin(fields: seq<string>)
    requires fields != []
    ensures Terminated(fields) == Join(fields) + ","
    decreases |fields|
  {
    var init := fields[..|fields| - 1];
    if |fields| == 1 {
      assert init == [];
    } else {
      TerminatedIsJoin(init);
    }
  }

  /** On rows that all have a field, `make_filestring` writes each row's
      fields joined by single commas, one row per line, in order. */
  lemma {:induction false} FileStringIsLines(data: seq<seq<string>>)
    requires forall k :: 0 <= k < |data| ==> data[k] != []
    ensures FileString(data) == Lines(data)
    decreases |data|
  {
    if data != [] {
      var init, last := data[..|data| - 1], data[|data| - 1];
      FileStringIsLines(init);
      TerminatedIsJoin(last);
      assert Lines(init) + Terminated(last) == (Lines(init) + Join(last)) + ",";
    }
  }

  /** An empty row cuts the newline that ended the row before it, so the two
      rows share one line. */
  lemma EmptyRowJoinsLines()
    ensures FileString([["a"], []]) == "a\n"
  {
    var first: seq<seq<string>> := [["a"]];
    assert FileString(first) == "a\n" by {
      assert first[..0] == [];
      assert Terminated(["a"]) == "a," by { assert ["a"][..0] == []; }
    }
    assert [["a"], []][..1] == first;
  }

  /** Without quoting, a field holding a comma cannot be told from two fields. */
  lemma CommaInFieldIsAmbiguous()
    ensures FileString([["a,b"]]) == FileString([["a", "b"]])
  {
    assert Terminated(["a,b"]) == "a,b," by { assert ["a,b"][..0] == []; }
    assert Terminated(["a", "b"]) == "a,b," by {
      assert ["a", "b"][..1] == ["a"];
      assert ["a"][..0] == [];
    }
    assert [["a,b"]][..0] == [] && [["a", "b"]][..0] == [];
  }

  /** The pieces of a text between the separators, in order (Python's `s.split(sep)`). */
  function Split(s: string, sep: char): (pieces: seq<string>)
    ensures |pieces| > 0
    decreases |s|
  {
    if s == [] then [""]
    else
      var init := Split(s[..|s| - 1], sep);
      if s[|s| - 1] == sep then init + [""]
      else init[..|init| - 1] + [init[|init| - 1] + [s[|s| - 1]]]
  }

  /** A separator at the end starts a new, empty piece. */
  lemma SplitSeparator(p: string, sep: char)
    ensures Split(p + [sep], sep) == Split(p, sep) + [""]
  {
    assert (p + [sep])[..|p|] == p;
  }

  /** Any other character extends the last piece. */
  lemma SplitOther(p: string, ch: char, sep: char)
    requires ch != sep
    ensures var ps := Split(p, sep);
      Split(p + [ch], sep) == ps[..|ps| - 1] + [ps[|ps| - 1] + [ch]]
  {
    assert (p + [ch])[..|p|] == p;
  }

  /** Growing the last piece twice is growing it once by both texts. */
  lemma ExtendLast(ps: seq<string>, qs: seq<string>, rs: seq<string>, g: string, ch: char)
    requires |ps| > 0
    requires qs == ps[..|ps| - 1] + [ps[|ps| - 1] + g]
    requires rs == qs[..|qs| - 1] + [qs[|qs| - 1] + [ch]]
    ensures rs == ps[..|ps| - 1] + [ps[|ps| - 1] + (g + [ch])]
  {
    assert qs[..|qs| - 1] == ps[..|ps| - 1];
    assert (ps[|ps| - 1] + g) + [ch] == ps[|ps| - 1] + (g + [ch]);
  }

  /** Text without the separator extends the last piece. */
  lemma {:induction false} SplitExtend(p: string, f: string, sep: char)
    requires sep !in f
    ensures var ps := Split(p, sep);
      Split(p + f, sep) == ps[..|ps| - 1] + [ps[|ps| - 1] + f]
    decreases |f|
  {
    if f == [] {
      var ps := Split(p, sep);
      assert p + f == p && ps[|ps| - 1] + f == ps[|ps| - 1];
      assert ps[..|ps| - 1] + [ps[|ps| - 1]] == ps;
    } else {
      var g, ch := f[..|f| - 1], f[|f| - 1];
      assert f == g + [ch];
      SplitExtend(p, g, sep);
      SplitOther(p + g, ch, sep);
      assert (p + g) + [ch] == p + f;
      ExtendLast(Split(p, sep), Split(p + g, sep), Split(p + f, sep), g, ch);
    }
  }

  /** A separator followed by text without it adds that text as one more piece. */
  lemma SplitAfterSeparator(p: string, f: string, sep: char)
    requires sep !in f
    ensures Split(p + [sep] + f, sep) == Split(p, sep) + [f]
  {
    var ps := Split(p, sep);
    SplitSeparator(p, sep);
    var qs := Split(p + [sep], sep);
    assert qs == ps + [""];
    SplitExtend(p + [sep], f, sep);
    assert qs[..|qs| - 1] == ps && qs[|qs| - 1] + f == f;
  }

  /** Text without the separator, then the separator, after text whose last
      piece is empty, adds that text as one more piece and a new empty piece. */
  lemma SplitAppendPiece(p: string, f: string, sep: char, pieces: seq<string>)
    requires sep !in f
    requires Split(p, sep) == pieces + [""]
    ensures Split(p + f + [sep], sep) == pieces + [f] + [""]
  {
    var ps := Split(p, sep);
    SplitExtend(p, f, sep);
    assert ps[..|ps| - 1] == pieces && ps[|ps| - 1] + f == f;
    SplitSeparator(p + f, sep);
  }

  /** Splitting a joined row at commas gives back its fields, when no field holds a comma. */
  lemma {:induction false} SplitJoin(fields: seq<string>)
    requires fields != []
    requires forall k :: 0 <= k < |fields| ==> ',' !in fields[k]
    ensures Split(Join(fields), ',') == fields
    decreases |fields|
  {
    var init, last := fields[..|fields| - 1], fields[|fields| - 1];
    if |fields| == 1 {
      SplitExtend("", last, ',');
      assert "" + last == last && Split("", ',') == [""];
      assert fields == [last];
    } else {
      SplitJoin(init);
      SplitAfterSeparator(Join(init), last, ',');
      assert init + [last] == fields;
    }
  }

  /** Splitting the lines of a report at newlines gives every row's joined
      text, then the empty piece after the last newline, when no field holds
      a newline. */
  lemma {:induction false} SplitLines(data: seq<seq<string>>)
    requires forall k :: 0 <= k < |data| ==> data[k] != []
    requires forall k, m :: 0 <= k < |data| && 0 <= m < |data[k]| ==> '\n' !in data[k][m]
    ensures Split(Lines(data), '\n') == seq(|data|, k requires 0 <= k < |data| => Join(data[k])) + [""]
    decreases |data|
  {
    if data != [] {
      var init, last := data[..|data| - 1], data[|data| - 1];
      SplitLines(init);
      var joined := seq(|init|, k requires 0 <= k < |init| => Join(init[k]));
      JoinKeepsOut(last, '\n');
      SplitAppendPiece(Lines(init), Join(last), '\n', joined);
      assert joined + [Join(last)] == seq(|data|, k requires 0 <= k < |data| => Join(data[k]));
    }
  }

  /** A character that no field holds is not in the joined row, unless it is the comma. */
  lemma {:induction false} JoinKeepsOut(fields: seq<string>, ch: char)
    requires fields != [] && ch != ','
    requires forall m :: 0 <= m < |fields| ==> ch !in fields[m]
    ensures ch !in Join(fields)
    decreases |fields|
  {
    if |fields| > 1 {
      JoinKeepsOut(fields[..|fields| - 1], ch);
    }
  }

  /** Reading a report back: its lines, each split at commas. */
  function Parse(text: string): seq<seq<string>> {
    var lines := Split(text, '\n');
    seq(|lines| - 1, k requires 0 <= k < |lines| - 1 => Split(lines[k], ','))
  }

  /** The report round-trips: reading back what `make_filestring` wrote gives
      the rows, when every row has a field and no field holds a comma or a
      newline. */
  lemma ParseFileString(data: seq<seq<string>>)
    requires forall k :: 0 <= k < |data| ==> data[k] != []
    requires forall k, m :: 0 <= k < |data| && 0 <= m < |data[k]| ==> ',' !in data[k][m] && '\n' !in data[k][m]
    ensures Parse(FileString(data)) == data
  {
    FileStringIsLines(data);
    SplitLines(data);
    forall k | 0 <= k < |data|
      ensures Split(Join(data[k]), ',') == data[k]
    {
      SplitJoin(data[k]);
    }
  }
}
