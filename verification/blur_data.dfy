/**
 * BlurMageddon's CSV loading: a file is a sequence of lines, the first of
 * which is a header; every later line splits on commas and becomes a row when
 * it has exactly three fields whose first two parse as features. Feature
 * parsing is a parameter `parse`, a partial function from text to a feature
 * value of type `F`.
 */
module BlurData {
  import opened Wrappers

  /** One accepted row: two features and the label text. */
  datatype DataRow<F> = DataRow(feature1: F, feature2: F, rowLabel: string)

  /** `s.Split(',')`: the comma-separated fields, empty fields included. */
  function Split(s: string): (r: seq<string>)
    ensures |r| >= 1
    decreases |s|
  {
    if |s| == 0 then [""]
    else
      var rest := Split(s[1..]);
      if s[0] == ',' then [""] + rest
      else [[s[0]] + rest[0]] + rest[1..]
  }

  /** The fields joined back with commas between them. */
  function Join(fields: seq<string>): (s: string)
    requires |fields| >= 1
  {
    if |fields| == 1 then fields[0] else fields[0] + "," + Join(fields[1..])
  }

  /** A line with `k` commas has `k + 1` fields, none of which holds a comma. */
  lemma {:induction false} SplitFields(s: string)
    ensures |Split(s)| == multiset(s)[','] + 1
    ensures forall i :: 0 <= i < |Split(s)| ==> ',' !in Split(s)[i]
    decreases |s|
  {
    if |s| > 0 {
      SplitFields(s[1..]);
      assert s == [s[0]] + s[1..];
      var rest := Split(s[1..]);
      if s[0] != ',' {
        assert forall i :: 1 <= i < |Split(s)| ==> Split(s)[i] == rest[i];
      }
    }
  }

  /** Joining the fields of a line gives back the line. */
  lemma {:induction false} JoinSplit(s: string)
    ensures Join(Split(s)) == s
    decreases |s|
  {
    if |s| > 0 {
      JoinSplit(s[1..]);
      var rest := Split(s[1..]);
      if s[0] != ',' && |rest| > 1 {
        assert [s[0]] + rest[0] + "," + Join(rest[1..]) == [s[0]] + (rest[0] + "," + Join(rest[1..]));
      }
    }
  }

  /** Splitting text one character longer: a comma starts a new field, any other character extends the first. */
  lemma SplitCons(c: char, t: string)
    ensures Split([c] + t) == if c == ',' then [""] + Split(t) else [[c] + Split(t)[0]] + Split(t)[1..]
  {
    assert ([c] + t)[0] == c && ([c] + t)[1..] == t;
  }

  /** Splitting text that starts with a comma-free piece `a` extends its first field by `a`. */
  lemma {:induction false} SplitAfterPiece(a: string, s: string)
    requires ',' !in a
    ensures Split(a + s) == [a + Split(s)[0]] + Split(s)[1..]
  {
    if |a| > 0 {
      var t := a[1..] + s;
      SplitAfterPiece(a[1..], s);
      var st, ss := Split(t), Split(s);
      assert st == [a[1..] + ss[0]] + ss[1..];
      assert a + s == [a[0]] + t;
      SplitCons(a[0], t);
      assert Split(a + s) == [[a[0]] + st[0]] + st[1..];
      assert st[0] == a[1..] + ss[0] && st[1..] == ss[1..];
      assert [a[0]] + (a[1..] + ss[0]) == a + ss[0];
    } else {
      assert a + s == s && a + Split(s)[0] == Split(s)[0];
    }
  }

  /** Splitting comma-free fields joined with commas gives back the fields. */
  lemma {:induction false} SplitJoin(fields: seq<string>)
    requires |fields| >= 1 && forall i :: 0 <= i < |fields| ==> ',' !in fields[i]
    ensures Split(Join(fields)) == fields
  {
    if |fields| == 1 {
      SplitAfterPiece(fields[0], "");
      assert fields[0] + "" == fields[0];
    } else {
      var tail := Join(fields[1..]);
      SplitJoin(fields[1..]);
      assert fields[0] + "," + tail == fields[0] + ("," + tail);
      SplitAfterPiece(fields[0], "," + tail);
      assert "," + tail == [','] + tail;
      SplitCons(',', tail);
      assert fields[0] + "" == fields[0];
      assert fields == [fields[0]] + fields[1..];
    }
  }

  /** The row a data line gives, if any. */
  function Accept<F(==)>(line: string, parse: string -> Option<F>): Option<DataRow<F>>
  {
    var cols := Split(line);
    if |cols| == 3 && parse(cols[0]).Some? && parse(cols[1]).Some? then
      Some(DataRow(parse(cols[0]).value, parse(cols[1]).value, cols[2]))
    else None
  }

  /**
   * A data line gives a row exactly when it holds two commas and the first
   * two fields parse; the row's features are those parses and its label is
   * the third field as is, so the line reads back as the two feature texts
   * and the label joined by commas.
   */
  lemma AcceptSpec<F>(line: string, parse: string -> Option<F>)
    ensures |Split(line)| == 3 <==> multiset(line)[','] == 2
    ensures Accept(line, parse).Some? <==>
      |Split(line)| == 3 && parse(Split(line)[0]).Some? && parse(Split(line)[1]).Some?
    ensures Accept(line, parse).Some? ==>
      var cols, row := Split(line), Accept(line, parse).value;
      && line == cols[0] + "," + cols[1] + "," + row.rowLabel
      && parse(cols[0]) == Some(row.feature1)
      && parse(cols[1]) == Some(row.feature2)
      && ',' !in row.rowLabel
  {
    var cols := Split(line);
    SplitFields(line);
    if |cols| == 3 {
      JoinSplit(line);
      assert cols[1..][1..] == [cols[2]];
      assert Join(cols[1..]) == cols[1] + "," + cols[2];
      assert line == cols[0] + "," + (cols[1] + "," + cols[2]);
      assert cols[0] + "," + (cols[1] + "," + cols[2]) == cols[0] + "," + cols[1] + "," + cols[2];
    }
  }

  /** The rows of the accepted lines, in line order. */
  function AcceptAll<F(==)>(lines: seq<string>, parse: string -> Option<F>): (rows: seq<DataRow<F>>)
    ensures |rows| <= |lines|
  {
    if |lines| == 0 then []
    else
      var init := AcceptAll(lines[..|lines| - 1], parse);
      match Accept(lines[|lines| - 1], parse)
      case Some(row) => init + [row]
      case None => init
  }

  /** One more line adds its row, if it has one, at the end. */
  lemma AcceptAllSnoc<F>(lines: seq<string>, line: string, parse: string -> Option<F>)
    ensures AcceptAll(lines + [line], parse) ==
      if Accept(line, parse).Some? then AcceptAll(lines, parse) + [Accept(line, parse).value] else AcceptAll(lines, parse)
  {
    assert (lines + [line])[..|lines|] == lines;
  }

  /** The rows of a file: those of every line after the header. */
  function LoadedRows<F(==)>(lines: seq<string>, parse: string -> Option<F>): (rows: seq<DataRow<F>>)
    ensures |lines| > 0 ==> |rows| <= |lines| - 1
    ensures |lines| <= 1 ==> rows == []
  {
    if |lines| == 0 then [] else AcceptAll(lines[1..], parse)
  }

  /** Accepting lines is a filter: the rows of two runs of lines are those of each run, in order. */
  lemma {:induction false} AcceptAllAppend<F>(xs: seq<string>, ys: seq<string>, parse: string -> Option<F>)
    ensures AcceptAll(xs + ys, parse) == AcceptAll(xs, parse) + AcceptAll(ys, parse)
    decreases |ys|
  {
    if |ys| == 0 {
      assert xs + ys == xs;
    } else {
      var ys' := ys[..|ys| - 1];
      assert (xs + ys)[..|xs + ys| - 1] == xs + ys';
      assert (xs + ys)[|xs + ys| - 1] == ys[|ys| - 1];
      AcceptAllAppend(xs, ys', parse);
    }
  }

  /** A single line gives its row when it is accepted and nothing otherwise. */
  lemma AcceptOne<F>(line: string, parse: string -> Option<F>)
    ensures AcceptAll([line], parse) == if Accept(line, parse).Some? then [Accept(line, parse).value] else []
  {
    assert [line][..0] == [];
  }

  /** The header line never becomes a row, whatever it holds. */
  lemma HeaderIgnored<F>(h1: string, h2: string, body: seq<string>, parse: string -> Option<F>)
    ensures LoadedRows([h1] + body, parse) == LoadedRows([h2] + body, parse) == AcceptAll(body, parse)
  {
    assert ([h1] + body)[1..] == body == ([h2] + body)[1..];
  }

  /**
   * DataLoader.LoadData over a file given as its lines: a missing file is
   * reported (FileNotFoundException) before any line is read; otherwise the
   * loop skips the header and keeps the rows of the accepted lines.
   */
  method LoadData<F(==)>(fileExists: bool, lines: seq<string>, parse: string -> Option<F>)
    returns (r: Option<seq<DataRow<F>>>)
    ensures r.Some? <==> fileExists
    ensures r.Some? ==> r.value == LoadedRows(lines, parse)
  {
    if !fileExists {
      return None;
    }
    var data: seq<DataRow<F>> := [];
    var isHeader := true;
    var i := 0;
    while i < |lines|
      invariant 0 <= i <= |lines|
      invariant isHeader <==> i == 0
      invariant i > 0 ==> data == AcceptAll(lines[1..i], parse)
      invariant i == 0 ==> data == []
    {
      var line := lines[i];
      if isHeader {
        isHeader := false;
      } else {
        AcceptAllSnoc(lines[1..i], line, parse);
        assert lines[1..i] + [line] == lines[1..i + 1];
        var row := Accept(line, parse);
        if row.Some? {
          data := data + [row.value];
        }
      }
      i := i + 1;
    }
    if |lines| > 0 {
      assert lines[1..|lines|] == lines[1..];
    }
    return Some(data);
  }
}
