/**
 The name source: free text or an already-parsed CSV table is normalised
 into the ordered list of trimmed, non-empty names that both engines read.
 */
module NameInput {
  import opened Seqs
  import opened Text

  /** Number of line feeds in `s`. */
  function NewlineCount(s: string): nat {
    if |s| == 0 then 0 else (if s[0] == '\n' then 1 else 0) + NewlineCount(s[1..])
  }

  /** Array.prototype.join with the separator "\n". */
  function Join(xs: seq<string>): string {
    if |xs| == 0 then ""
    else if |xs| == 1 then xs[0]
    else xs[0] + "\n" + Join(xs[1..])
  }

  /** The line feeds held by all the pieces together. */
  function NewlineTotal(xs: seq<string>): nat {
    if |xs| == 0 then 0 else NewlineCount(xs[0]) + NewlineTotal(xs[1..])
  }

  lemma {:induction false} NewlineCountConcat(a: string, b: string)
    ensures NewlineCount(a + b) == NewlineCount(a) + NewlineCount(b)
  {
    if |a| == 0 {
      assert a + b == b;
    } else {
      assert (a + b)[1..] == a[1..] + b;
      NewlineCountConcat(a[1..], b);
    }
  }

  /** Joining puts one line feed between each two neighbours and adds no
      other: the text holds the pieces' own line feeds plus one fewer than
      there are pieces, and an empty list gives "". */
  lemma {:induction false} JoinNewlines(xs: seq<string>)
    ensures |xs| >= 1 ==> NewlineCount(Join(xs)) == |xs| - 1 + NewlineTotal(xs)
    ensures |xs| == 0 ==> Join(xs) == ""
  {
    if |xs| >= 2 {
      var rest := Join(xs[1..]);
      JoinNewlines(xs[1..]);
      NewlineCountConcat(xs[0], "\n" + rest);
      NewlineCountConcat("\n", rest);
      assert xs[0] + "\n" + rest == xs[0] + ("\n" + rest);
      assert NewlineTotal(xs[1..]) == NewlineCount(xs[1]) + NewlineTotal(xs[2..]) by {
        assert xs[1..][1..] == xs[2..];
      }
    } else if |xs| == 1 {
      assert NewlineTotal(xs[1..]) == 0;
    }
  }

  /** Pieces free of line feeds are joined into text with exactly one line
      feed fewer than there are pieces. */
  lemma {:induction false} JoinPlainNewlines(xs: seq<string>)
    requires |xs| >= 1
    requires forall i :: 0 <= i < |xs| ==> '\n' !in xs[i]
    ensures NewlineCount(Join(xs)) == |xs| - 1
  {
    JoinNewlines(xs);
    NoNewlinesTotal(xs);
  }

  lemma {:induction false} NoNewlinesTotal(xs: seq<string>)
    requires forall i :: 0 <= i < |xs| ==> '\n' !in xs[i]
    ensures NewlineTotal(xs) == 0
  {
    if |xs| > 0 {
      NoNewlines(xs[0]);
      NoNewlinesTotal(xs[1..]);
    }
  }

  lemma {:induction false} NoNewlines(s: string)
    requires '\n' !in s
    ensures NewlineCount(s) == 0
  {
    if |s| > 0 {
      NoNewlines(s[1..]);
    }
  }

  /** String.prototype.split("\n"): always at least one piece, one more
      than there are line feeds, none containing a line feed, and joining
      the pieces gives back the text. */
  function Split(s: string): (lines: seq<string>)
    ensures |lines| == NewlineCount(s) + 1
    ensures forall i :: 0 <= i < |lines| ==> '\n' !in lines[i]
    ensures Join(lines) == s
  {
    if |s| == 0 then [""]
    else
      var rest := Split(s[1..]);
      assert s == [s[0]] + s[1..];
      if s[0] == '\n' then
        [""] + rest
      else
        var lines := [[s[0]] + rest[0]] + rest[1..];
        assert |rest| > 1 ==> Join(rest) == rest[0] + "\n" + Join(rest[1..]);
        assert |lines| > 1 ==> lines[1..] == rest[1..];
        lines
  }

  /** Splitting text that starts with a line-feed-free piece `a`. */
  lemma {:induction false} SplitAfterPiece(a: string, t: string)
    requires '\n' !in a
    ensures Split(a + t) == [a + Split(t)[0]] + Split(t)[1..]
  {
    if |a| == 0 {
      assert a + t == t;
      assert a + Split(t)[0] == Split(t)[0];
      assert Split(t) == [Split(t)[0]] + Split(t)[1..];
    } else {
      var s := a + t;
      assert s[0] == a[0] && s[0] != '\n';
      assert s[1..] == a[1..] + t;
      SplitAfterPiece(a[1..], t);
      var rest := Split(s[1..]);
      assert rest[0] == a[1..] + Split(t)[0];
      assert rest[1..] == Split(t)[1..];
      assert Split(s) == [[s[0]] + rest[0]] + rest[1..];
      assert [a[0]] + (a[1..] + Split(t)[0]) == a + Split(t)[0];
    }
  }

  /** Split inverts Join on pieces free of line feeds. */
  lemma {:induction false} SplitJoin(xs: seq<string>)
    requires |xs| >= 1
    requires forall i :: 0 <= i < |xs| ==> '\n' !in xs[i]
    ensures Split(Join(xs)) == xs
  {
    if |xs| == 1 {
      SplitAfterPiece(xs[0], "");
      assert xs[0] + "" == xs[0];
    } else {
      var u := Join(xs[1..]);
      SplitJoin(xs[1..]);
      assert xs[0] + "\n" + u == xs[0] + ("\n" + u);
      SplitAfterPiece(xs[0], "\n" + u);
      assert ("\n" + u)[1..] == u;
      assert xs[0] + "" == xs[0];
    }
  }

  /** `.map(n => n.trim())`. */
  function TrimEach(xs: seq<string>): (r: seq<string>)
    ensures |r| == |xs| && forall i :: 0 <= i < |xs| ==> r[i] == Trim(xs[i])
  {
    seq(|xs|, i requires 0 <= i < |xs| => Trim(xs[i]))
  }

  predicate NonEmpty(s: string) {
    s != ""
  }

  /** The tail both input paths share, `.map(trim).filter(n => n !== '')`:
      every name is non-empty and trimmed, the names keep the order of their
      pieces, there are no more names than pieces, and only blanks are
      dropped: each non-empty value occurs as often among the names as among
      the trimmed pieces. */
  function Normalise(pieces: seq<string>): (names: seq<string>)
    ensures forall i :: 0 <= i < |names| ==> names[i] != "" && Trimmed(names[i])
    ensures IsSubsequence(names, TrimEach(pieces))
    ensures |names| <= |pieces|
    ensures forall x :: multiset(names)[x] == if x == "" then 0 else multiset(TrimEach(pieces))[x]
  {
    var trimmed := TrimEach(pieces);
    var names := Filter(NonEmpty, trimmed);
    KeepNonBlank(trimmed);
    names
  }

  /** Dropping the blanks from trimmed strings keeps them trimmed and keeps
      every copy of each non-empty value. */
  lemma KeepNonBlank(trimmed: seq<string>)
    requires forall j :: 0 <= j < |trimmed| ==> Trimmed(trimmed[j])
    ensures forall i :: 0 <= i < |Filter(NonEmpty, trimmed)| ==>
              Filter(NonEmpty, trimmed)[i] != "" && Trimmed(Filter(NonEmpty, trimmed)[i])
    ensures forall x :: multiset(Filter(NonEmpty, trimmed))[x] == if x == "" then 0 else multiset(trimmed)[x]
  {
    var names := Filter(NonEmpty, trimmed);
    forall x ensures multiset(names)[x] == if x == "" then 0 else multiset(trimmed)[x] {
      FilterCount(NonEmpty, trimmed, x);
    }
    forall i | 0 <= i < |names| ensures names[i] != "" && Trimmed(names[i]) {
      assert NonEmpty(names[i]);
      FilterMembers(NonEmpty, trimmed, names[i]);
    }
  }

  /** A value is a name exactly when it is the non-empty trim of a piece. */
  lemma NormaliseMembers(pieces: seq<string>, x: string)
    ensures x in Normalise(pieces) <==> x != "" && exists j :: 0 <= j < |pieces| && Trim(pieces[j]) == x
  {
    FilterMembers(NonEmpty, TrimEach(pieces), x);
    if exists j :: 0 <= j < |pieces| && Trim(pieces[j]) == x {
      var j :| 0 <= j < |pieces| && Trim(pieces[j]) == x;
      assert TrimEach(pieces)[j] == x;
    }
  }

  /** The text area handler: split on line feeds, trim every line, drop the
      empty ones. The names are non-empty and trimmed, keep the order of
      their lines, are no more than the lines, and each non-empty value
      occurs as often as among the trimmed lines. */
  function ParseText(text: string): (names: seq<string>)
    ensures forall i :: 0 <= i < |names| ==> names[i] != "" && Trimmed(names[i])
    ensures IsSubsequence(names, TrimEach(Split(text)))
    ensures |names| <= NewlineCount(text) + 1
    ensures forall x :: multiset(names)[x] == if x == "" then 0 else multiset(TrimEach(Split(text)))[x]
  {
    Normalise(Split(text))
  }

  /** A value is a parsed name exactly when it is the non-empty trim of one
      of the text's lines. */
  lemma ParseTextMembers(text: string, x: string)
    ensures x in ParseText(text) <==>
              x != "" && exists j :: 0 <= j < |Split(text)| && Trim(Split(text)[j]) == x
  {
    var lines := Split(text);
    assert ParseText(text) == Normalise(lines);
    NormaliseMembers(lines, x);
    if x in ParseText(text) {
      var j :| 0 <= j < |lines| && Trim(lines[j]) == x;
      assert 0 <= j < |Split(text)| && Trim(Split(text)[j]) == x;
    }
  }

  /** The CSV upload handler, from the parsed table on: flatten the rows in
      row-major order, trim every cell, drop the empty ones. The names are
      non-empty and trimmed, keep the order of their cells, are no more
      than the cells, and each non-empty value occurs as often as among the
      trimmed cells. */
  function ParseCells(rows: seq<seq<string>>): (names: seq<string>)
    ensures forall i :: 0 <= i < |names| ==> names[i] != "" && Trimmed(names[i])
    ensures IsSubsequence(names, TrimEach(Flatten(rows)))
    ensures |names| <= |Flatten(rows)|
    ensures forall x :: multiset(names)[x] == if x == "" then 0 else multiset(TrimEach(Flatten(rows)))[x]
  {
    Normalise(Flatten(rows))
  }

  /** A value is an uploaded name exactly when it is the non-empty trim of
      some cell of the table. */
  lemma ParseCellsMembers(rows: seq<seq<string>>, x: string)
    ensures x in ParseCells(rows) <==>
              x != "" && exists i, j :: 0 <= i < |rows| && 0 <= j < |rows[i]| && Trim(rows[i][j]) == x
  {
    if x in ParseCells(rows) {
      var i, j := CellOfName(rows, x);
    }
    if x != "" && exists i, j :: 0 <= i < |rows| && 0 <= j < |rows[i]| && Trim(rows[i][j]) == x {
      var i, j :| 0 <= i < |rows| && 0 <= j < |rows[i]| && Trim(rows[i][j]) == x;
      NameOfCell(rows, i, j);
    }
  }

  /** Every parsed name comes from some cell. */
  lemma CellOfName(rows: seq<seq<string>>, x: string) returns (i: nat, j: nat)
    requires x in ParseCells(rows)
    ensures x != "" && i < |rows| && j < |rows[i]| && Trim(rows[i][j]) == x
  {
    var cells := Flatten(rows);
    assert ParseCells(rows) == Normalise(cells);
    NormaliseMembers(cells, x);
    var k :| 0 <= k < |cells| && Trim(cells[k]) == x;
    FlattenMembers(rows, cells[k]);
    i :| 0 <= i < |rows| && cells[k] in rows[i];
    j :| 0 <= j < |rows[i]| && rows[i][j] == cells[k];
  }

  /** Every cell that is not blank gives a parsed name. */
  lemma NameOfCell(rows: seq<seq<string>>, i: nat, j: nat)
    requires i < |rows| && j < |rows[i]| && Trim(rows[i][j]) != ""
    ensures Trim(rows[i][j]) in ParseCells(rows)
  {
    var cells := Flatten(rows);
    assert ParseCells(rows) == Normalise(cells);
    FlattenMembers(rows, rows[i][j]);
    var k :| 0 <= k < |cells| && cells[k] == rows[i][j];
    NormaliseMembers(cells, Trim(rows[i][j]));
  }

  /** Pieces that are already non-empty and trimmed pass through unchanged. */
  lemma NormaliseKeeps(pieces: seq<string>)
    requires forall i :: 0 <= i < |pieces| ==> pieces[i] != "" && Trimmed(pieces[i])
    ensures Normalise(pieces) == pieces
  {
    forall i | 0 <= i < |pieces| ensures Trim(pieces[i]) == pieces[i] {
      assert pieces[i] == [] + pieces[i] + [];
      TrimPadding([], pieces[i], []);
    }
    assert TrimEach(pieces) == pieces;
    FilterKeepsAll(NonEmpty, pieces);
  }

  /** After an upload the text area shows the names joined by line feeds;
      re-parsing that text gives the same names back, provided no name holds
      a line feed of its own. */
  lemma ReparseJoined(names: seq<string>)
    requires forall i :: 0 <= i < |names| ==> names[i] != "" && Trimmed(names[i]) && '\n' !in names[i]
    ensures ParseText(Join(names)) == names
  {
    if |names| == 0 {
      EmptyTextHasNoNames();
    } else {
      SplitJoin(names);
      assert ParseText(Join(names)) == Normalise(names);
      NormaliseKeeps(names);
    }
  }

  /** An empty text area gives no names. */
  lemma EmptyTextHasNoNames()
    ensures ParseText("") == []
  {
    var lines := Split("");
    assert lines == [""];
    assert Trim("") == "";
    var trimmed := TrimEach(lines);
    assert trimmed == [""];
    assert Filter(NonEmpty, trimmed) == [];
    assert ParseText("") == Normalise(lines);
  }

  /** The upload path and the text path agree on the uploaded names when no
      cell holds a line feed. */
  lemma UploadTextRoundTrip(rows: seq<seq<string>>)
    requires forall i, j :: 0 <= i < |rows| && 0 <= j < |rows[i]| ==> '\n' !in rows[i][j]
    ensures ParseText(Join(ParseCells(rows))) == ParseCells(rows)
  {
    var names := ParseCells(rows);
    forall k | 0 <= k < |names| ensures '\n' !in names[k] {
      assert names[k] in names;
      ParseCellsMembers(rows, names[k]);
      var i, j :| 0 <= i < |rows| && 0 <= j < |rows[i]| && Trim(rows[i][j]) == names[k];
      TrimSlices(rows[i][j]);
      var p :| PaddedBy(rows[i][j], names[k], p);
      assert names[k] == rows[i][j][p..p + |names[k]|];
    }
    ReparseJoined(names);
  }

  /** A quoted CSV cell made of two non-blank lines stays one name after
      the upload, but the text shown for it parses as those two lines. */
  lemma MultilineCellReparsesAsTwoNames(a: string, b: string)
    requires a != "" && b != "" && Trimmed(a) && Trimmed(b)
    requires '\n' !in a && '\n' !in b
    ensures ParseCells([[a + "\n" + b]]) == [a + "\n" + b]
    ensures ParseText(Join(ParseCells([[a + "\n" + b]]))) == [a, b]
  {
    var cell := a + "\n" + b;
    MultilineCellIsOneName(a, b, cell);
    assert Join([cell]) == cell;
    MultilineTextIsTwoNames(a, b, cell);
  }

  lemma MultilineCellIsOneName(a: string, b: string, cell: string)
    requires a != "" && b != "" && Trimmed(a) && Trimmed(b)
    requires cell == a + "\n" + b
    ensures ParseCells([[cell]]) == [cell]
  {
    assert cell[0] == a[0] && cell[|cell| - 1] == b[|b| - 1];
    assert Flatten([[cell]]) == [cell];
    assert ParseCells([[cell]]) == Normalise([cell]);
    NormaliseKeeps([cell]);
  }

  lemma MultilineTextIsTwoNames(a: string, b: string, cell: string)
    requires a != "" && b != "" && Trimmed(a) && Trimmed(b)
    requires '\n' !in a && '\n' !in b
    requires cell == a + "\n" + b
    ensures ParseText(cell) == [a, b]
  {
    SplitTwoLines(a, b, cell);
    assert ParseText(cell) == Normalise([a, b]);
    NormaliseKeeps([a, b]);
  }

  lemma SplitTwoLines(a: string, b: string, cell: string)
    requires '\n' !in a && '\n' !in b
    requires cell == a + "\n" + b
    ensures Split(cell) == [a, b]
  {
    var xs := [a, b];
    assert '\n' !in xs[0] && '\n' !in xs[1];
    SplitJoin(xs);
    assert Join(xs[1..]) == b;
    assert Join(xs) == cell;
  }
}
