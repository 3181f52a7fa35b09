/**
 * The three bundled catalogs the pose data source reads lazily: the colour
 * palette (`color_palette.json`, read as text), the cluster centroids
 * (`centroids.csv`) and the ranked poses of each cluster (`pose_ranks.csv`).
 * The CSV files arrive as rows of fields; `toInt`, `toDouble` and the
 * drawable lookup are parameters.
 */
module Catalog {
  import opened Wrappers
  import opened KotlinNum
  import opened KotlinText

  const NumberFormat := "NumberFormatException"
  const ArrayIndexOutOfBounds := "ArrayIndexOutOfBoundsException"
  const StringIndexOutOfBounds := "StringIndexOutOfBoundsException"

  /**
   * `map { it.toInt() }` / `map { it.toDouble() }`: every token converted, or
   * the exception of the first token that does not parse.
   */
  function ParseAll<T>(tokens: seq<string>, conv: string -> Option<T>): (r: Result<seq<T>, string>)
    ensures r.Success? <==> forall k :: 0 <= k < |tokens| ==> conv(tokens[k]).Some?
    ensures r.Success? ==> |r.value| == |tokens| && forall k :: 0 <= k < |tokens| ==> conv(tokens[k]) == Some(r.value[k])
    ensures r.Failure? ==> r.error == NumberFormat
  {
    if |tokens| == 0 then Success([])
    else match conv(tokens[0])
      case None => Failure(NumberFormat)
      case Some(v) =>
        match ParseAll(tokens[1..], conv)
        case Failure(e) => Failure(e)
        case Success(vs) =>
          assert forall k :: 1 <= k < |tokens| ==> tokens[k] == tokens[1..][k - 1];
          Success([v] + vs)
  }

  // ---------------------------------------------------------------------
  // The palette
  // ---------------------------------------------------------------------

  type Palette = seq<seq<int>>

  /** One `[r,g,b]` group after the brackets were cleaned: its comma-separated numbers, if they all parse. */
  function PaletteRow(group: string, toInt: string -> Option<int>): Option<seq<int>>
  {
    var r := ParseAll(Split(RemoveSurrounding(group, "[", "]"), ','), toInt);
    if r.Success? then Some(r.value) else None
  }

  /** `PaletteRow` as the conversion `ParseAll` applies to every group. */
  function RowReader(toInt: string -> Option<int>): string -> Option<seq<int>>
  {
    group => PaletteRow(group, toInt)
  }

  /** The bracket rewriting that turns `[[a],[b]]` into `[a]@[b]`. */
  function CleanBrackets(input: string): string
  {
    Replace(Replace(Replace(input, "[[", "["), "],[", "]@["), "]]", "]")
  }

  /** The palette parsed from the text of `color_palette.json`. */
  function PaletteOf(text: string, toInt: string -> Option<int>): Result<Palette, string>
  {
    ParseAll(Split(CleanBrackets(Replace(text, " ", "")), '@'), RowReader(toInt))
  }

  /** The lazy `palette`: the file's lines are joined, then parsed. */
  function ParsePalette(lines: seq<string>, toInt: string -> Option<int>): Result<Palette, string>
  {
    PaletteOf(Concat(lines), toInt)
  }

  /** A space anywhere in the text changes nothing. */
  lemma PaletteIgnoresSpace(a: string, b: string, toInt: string -> Option<int>)
    ensures PaletteOf(a + " " + b, toInt) == PaletteOf(a + b, toInt)
  {
    ReplaceCharConcat(a + " ", b, " ", "");
    ReplaceCharConcat(a, " ", " ", "");
    ReplaceCharConcat(a, b, " ", "");
    assert Replace(" ", " ", "") == "";
    assert Replace(a + " " + b, " ", "") == Replace(a + b, " ", "");
  }

  // The text form `[[a,b,c],[d,e,f]]` of a palette, from the numbers as written.

  /** Characters a written number never holds. */
  predicate Plain(t: string)
  {
    '[' !in t && ']' !in t && ',' !in t && '@' !in t && ' ' !in t
  }

  /** The numbers of each palette row as they are written in the file. */
  type Written = seq<seq<string>>

  predicate IsWritten(w: Written)
  {
    |w| > 0 &&
    (forall i :: 0 <= i < |w| ==> |w[i]| > 0) &&
    forall i, j :: 0 <= i < |w| && 0 <= j < |w[i]| ==> Plain(w[i][j])
  }

  /** `toInt` reads the written numbers as the palette `p`. */
  predicate Reads(w: Written, p: Palette, toInt: string -> Option<int>)
  {
    |w| == |p| &&
    (forall i :: 0 <= i < |w| ==> |w[i]| == |p[i]|) &&
    forall i, j :: 0 <= i < |w| && 0 <= j < |w[i]| ==> toInt(w[i][j]) == Some(p[i][j])
  }

  function RowText(row: seq<string>): string
    requires |row| > 0
  {
    "[" + Join(row, ',') + "]"
  }

  /** The row texts with `sep` between neighbours. */
  function RowsText(w: Written, sep: char): string
    requires IsWritten(w)
    decreases |w|
  {
    RowText(w[0]) + (if |w| == 1 then "" else [sep] + RowsText(w[1..], sep))
  }

  function Render(w: Written): string
    requires IsWritten(w)
  {
    "[" + RowsText(w, ',') + "]"
  }

  lemma {:induction false} NotInJoin(parts: seq<string>, d: char, c: char)
    requires |parts| > 0 && c != d && forall k :: 0 <= k < |parts| ==> c !in parts[k]
    ensures c !in Join(parts, d)
    decreases |parts|
  {
    if |parts| > 1 {
      NotInJoin(parts[1..], d, c);
    }
  }

  /** The numbers of a row, joined, hold none of the characters the parser treats specially but the comma. */
  lemma JoinedPlain(row: seq<string>)
    requires |row| > 0 && forall k :: 0 <= k < |row| ==> Plain(row[k])
    ensures var j := Join(row, ',');
      '[' !in j && ']' !in j && '@' !in j && ' ' !in j
  {
    NotInJoin(row, ',', '[');
    NotInJoin(row, ',', ']');
    NotInJoin(row, ',', '@');
    NotInJoin(row, ',', ' ');
  }

  lemma {:induction false} RowsTextFree(w: Written, sep: char, c: char)
    requires IsWritten(w)
    requires c == '@' || c == ' '
    requires c != sep
    ensures c !in RowsText(w, sep)
    decreases |w|
  {
    JoinedPlain(w[0]);
    if |w| > 1 {
      RowsTextFree(w[1..], sep, c);
    }
  }

  // The three bracket rewritings, one row text "[" + j + "]" at a time.

  lemma OpenStep(j: string, z: string)
    requires '[' !in j && Replace(z, "[[", "[") == z
    ensures Replace("[" + j + "]" + z, "[[", "[") == "[" + j + "]" + z
  {
    var s := "[" + j + "]" + z;
    assert s == "[" + ((j + "]") + z) && s[1..] == (j + "]") + z;
    assert s[1] == (j + "]")[0];
    ReplaceSkip(s, "[[", "[");
    ReplaceSkipFree(j + "]", z, "[[", "[");
  }

  lemma CommaStep(t: string, pat: string, rep: string)
    requires |pat| > 0 && pat[0] != ',' && Replace(t, pat, rep) == t
    ensures Replace("," + t, pat, rep) == "," + t
  {
    ReplaceSkipFree(",", t, pat, rep);
  }

  lemma SeparateLast(j: string)
    requires ']' !in j
    ensures Replace("[" + j + "]]", "],[", "]@[") == "[" + j + "]]"
  {
    assert "[" + j + "]]" == ("[" + j) + "]]";
    ReplaceSkipFree("[" + j, "]]", "],[", "]@[");
  }

  lemma SeparateStep(j: string, t: string)
    requires ']' !in j && |t| > 0 && t[0] == '['
    ensures Replace("[" + j + "]," + t, "],[", "]@[") == "[" + j + "]@" + Replace(t, "],[", "]@[")
  {
    var t1 := t[1..];
    assert t == "[" + t1;
    assert "[" + j + "]," + t == ("[" + j) + ("],[" + t1);
    ReplaceSkipFree("[" + j, "],[" + t1, "],[", "]@[");
    SeparateAt(t1);
  }

  lemma SeparateAt(t1: string)
    ensures Replace("],[" + t1, "],[", "]@[") == "]@" + Replace("[" + t1, "],[", "]@[")
  {
    var r1 := Replace(t1, "],[", "]@[");
    ReplaceMatch("],[", "]@[", t1);
    ReplaceSkipFree("[", t1, "],[", "]@[");
    assert "]@[" + r1 == "]@" + ("[" + r1);
  }

  lemma CloseLast(j: string)
    requires ']' !in j
    ensures Replace("[" + j + "]]", "]]", "]") == "[" + j + "]"
  {
    assert "[" + j + "]]" == ("[" + j) + ("]]" + "");
    ReplaceSkipFree("[" + j, "]]" + "", "]]", "]");
    ReplaceMatch("]]", "]", "");
  }

  lemma CloseStep(j: string, rest: string)
    requires ']' !in j
    ensures Replace("[" + j + "]@" + rest, "]]", "]") == "[" + j + "]@" + Replace(rest, "]]", "]")
  {
    assert "[" + j + "]@" + rest == ("[" + j) + ("]@" + rest);
    ReplaceSkipFree("[" + j, "]@" + rest, "]]", "]");
    CloseAt(rest);
  }

  lemma CloseAt(rest: string)
    ensures Replace("]@" + rest, "]]", "]") == "]@" + Replace(rest, "]]", "]")
  {
    ReplaceSkip("]@" + rest, "]]", "]");
    assert ("]@" + rest)[1..] == "@" + rest;
    ReplaceSkipFree("@", rest, "]]", "]");
  }

  /** The first rewriting keeps the text but for the outer opening bracket. */
  lemma {:induction false} OpeningPairs(w: Written)
    requires IsWritten(w)
    ensures Replace(RowsText(w, ',') + "]", "[[", "[") == RowsText(w, ',') + "]"
    decreases |w|
  {
    var j := Join(w[0], ',');
    JoinedPlain(w[0]);
    if |w| == 1 {
      assert RowsText(w, ',') + "]" == "[" + j + "]" + "]";
      OpenStep(j, "]");
    } else {
      var t := RowsText(w[1..], ',') + "]";
      assert RowsText(w, ',') + "]" == "[" + j + "]" + ("," + t);
      OpeningPairs(w[1..]);
      CommaStep(t, "[[", "[");
      OpenStep(j, "," + t);
    }
  }

  lemma Stage1(w: Written)
    requires IsWritten(w)
    ensures Replace(Render(w), "[[", "[") == RowsText(w, ',') + "]"
  {
    var t := RowsText(w, ',') + "]";
    var tail := t[1..];
    var j := Join(w[0], ',');
    JoinedPlain(w[0]);
    assert t == "[" + tail && Render(w) == "[[" + tail;
    ReplaceMatch("[[", "[", tail);
    assert tail[0] == (j + "]")[0];
    ReplaceSkip(t, "[[", "[");
    OpeningPairs(w);
  }

  /** The second rewriting puts `@` between the rows. */
  lemma {:induction false} Stage2(w: Written)
    requires IsWritten(w)
    ensures Replace(RowsText(w, ',') + "]", "],[", "]@[") == RowsText(w, '@') + "]"
    decreases |w|
  {
    var j := Join(w[0], ',');
    JoinedPlain(w[0]);
    if |w| == 1 {
      assert RowsText(w, ',') + "]" == "[" + j + "]]" == RowsText(w, '@') + "]";
      SeparateLast(j);
    } else {
      var t := RowsText(w[1..], ',') + "]";
      assert RowsText(w, ',') + "]" == "[" + j + "]," + t;
      assert RowsText(w, '@') + "]" == "[" + j + "]@" + (RowsText(w[1..], '@') + "]");
      SeparateStep(j, t);
      Stage2(w[1..]);
    }
  }

  /** The third rewriting drops the outer closing bracket. */
  lemma {:induction false} Stage3(w: Written)
    requires IsWritten(w)
    ensures Replace(RowsText(w, '@') + "]", "]]", "]") == RowsText(w, '@')
    decreases |w|
  {
    var j := Join(w[0], ',');
    JoinedPlain(w[0]);
    if |w| == 1 {
      assert RowsText(w, '@') + "]" == "[" + j + "]]";
      CloseLast(j);
    } else {
      var rest := RowsText(w[1..], '@') + "]";
      assert RowsText(w, '@') + "]" == "[" + j + "]@" + rest;
      assert RowsText(w, '@') == "[" + j + "]@" + RowsText(w[1..], '@');
      CloseStep(j, rest);
      Stage3(w[1..]);
    }
  }

  lemma {:induction false} SplitRows(w: Written)
    requires IsWritten(w)
    ensures Split(RowsText(w, '@'), '@') == seq(|w|, k requires 0 <= k < |w| => RowText(w[k]))
    decreases |w|
  {
    JoinedPlain(w[0]);
    var first := RowText(w[0]);
    assert '@' !in first;
    var rows := seq(|w|, k requires 0 <= k < |w| => RowText(w[k]));
    if |w| == 1 {
      assert RowsText(w, '@') == first + "" == first;
      assert Split(first, '@') == [first];
      assert rows == [first];
    } else {
      SplitRows(w[1..]);
      assert RowsText(w, '@') == first + ['@'] + RowsText(w[1..], '@');
      SplitAfter(first, '@', RowsText(w[1..], '@'));
      assert rows == [first] + seq(|w| - 1, k requires 0 <= k < |w| - 1 => RowText(w[1..][k]));
    }
  }

  lemma ReadRow(row: seq<string>, values: seq<int>, toInt: string -> Option<int>)
    requires |row| > 0 && forall k :: 0 <= k < |row| ==> Plain(row[k])
    requires |values| == |row| && forall k :: 0 <= k < |row| ==> toInt(row[k]) == Some(values[k])
    ensures PaletteRow(RowText(row), toInt) == Some(values)
  {
    var j := Join(row, ',');
    assert RemoveSurrounding(RowText(row), "[", "]") == j;
    SplitJoin(row, ',');
    var r := ParseAll(row, toInt);
    assert r.value == values;
  }

  /** The rendered palette holds no space. */
  lemma NoSpaces(w: Written)
    requires IsWritten(w)
    ensures Replace(Render(w), " ", "") == Render(w)
  {
    RowsTextFree(w, ',', ' ');
    assert ' ' !in Render(w);
    ReplaceSkipFree(Render(w), "", " ", "");
    assert Render(w) + "" == Render(w);
  }

  lemma Cleaned(w: Written)
    requires IsWritten(w)
    ensures CleanBrackets(Render(w)) == RowsText(w, '@')
  {
    Stage1(w);
    Stage2(w);
    Stage3(w);
  }

  lemma ReadRows(w: Written, p: Palette, toInt: string -> Option<int>)
    requires IsWritten(w) && Reads(w, p, toInt)
    ensures ParseAll(seq(|w|, k requires 0 <= k < |w| => RowText(w[k])), RowReader(toInt)) == Success(p)
  {
    var groups := seq(|w|, k requires 0 <= k < |w| => RowText(w[k]));
    forall k | 0 <= k < |w|
      ensures RowReader(toInt)(groups[k]) == Some(p[k])
    {
      ReadRow(w[k], p[k], toInt);
    }
    var r := ParseAll(groups, RowReader(toInt));
    assert r.value == p;
  }

  /** `[[a,b,c],[d,e,f]]` parses back to its rows, in order. */
  lemma PaletteRoundTrip(w: Written, p: Palette, toInt: string -> Option<int>)
    requires IsWritten(w) && Reads(w, p, toInt)
    ensures ParsePalette([Render(w)], toInt) == Success(p)
  {
    calc {
      ParsePalette([Render(w)], toInt);
      == { assert Concat([Render(w)]) == Render(w) + Concat([]) == Render(w); }
      PaletteOf(Render(w), toInt);
      == { NoSpaces(w); }
      ParseAll(Split(CleanBrackets(Render(w)), '@'), RowReader(toInt));
      == { Cleaned(w); }
      ParseAll(Split(RowsText(w, '@'), '@'), RowReader(toInt));
      == { RowsTextFree(w, ',', '@'); SplitRows(w); }
      ParseAll(seq(|w|, k requires 0 <= k < |w| => RowText(w[k])), RowReader(toInt));
      == { ReadRows(w, p, toInt); }
      Success(p);
    }
  }

  // ---------------------------------------------------------------------
  // Row-by-row loading of a CSV file
  // ---------------------------------------------------------------------

  type Row = seq<string>

  /**
   * The rows `keep` accepts, each converted by `conv`, in file order; the
   * exception of the first row whose conversion fails ends the loading.
   */
  function Collect<T>(rows: seq<Row>, keep: Row -> bool, conv: Row -> Result<T, string>): Result<seq<T>, string>
    decreases |rows|
  {
    if |rows| == 0 then Success([])
    else match Collect(rows[..|rows| - 1], keep, conv)
      case Failure(e) => Failure(e)
      case Success(done) =>
        var row := rows[|rows| - 1];
        if !keep(row) then Success(done)
        else match conv(row)
          case Failure(e) => Failure(e)
          case Success(v) => Success(done + [v])
  }

  /** The rows `keep` accepts, in file order. */
  function Kept(rows: seq<Row>, keep: Row -> bool): (kept: seq<Row>)
    ensures |kept| <= |rows|
    decreases |rows|
  {
    if |rows| == 0 then []
    else Kept(rows[..|rows| - 1], keep) + (if keep(rows[|rows| - 1]) then [rows[|rows| - 1]] else [])
  }

  /** Every one of `rows` converts. */
  predicate AllConvert<T>(rows: seq<Row>, conv: Row -> Result<T, string>)
  {
    forall k :: 0 <= k < |rows| ==> conv(rows[k]).Success?
  }

  /** Loading succeeds exactly when every kept row converts, and then yields their conversions in order. */
  lemma {:induction false} CollectKept<T>(rows: seq<Row>, keep: Row -> bool, conv: Row -> Result<T, string>)
    ensures Collect(rows, keep, conv).Success? <==> AllConvert(Kept(rows, keep), conv)
    ensures Collect(rows, keep, conv).Success? ==>
      var v := Collect(rows, keep, conv).value;
      |v| == |Kept(rows, keep)| && forall k :: 0 <= k < |v| ==> conv(Kept(rows, keep)[k]) == Success(v[k])
    decreases |rows|
  {
    if |rows| > 0 {
      var front := rows[..|rows| - 1];
      CollectKept(front, keep, conv);
      var last := rows[|rows| - 1];
      var kf := Kept(front, keep);
      var kept := Kept(rows, keep);
      assert kept == kf + (if keep(last) then [last] else []);
      assert forall k :: 0 <= k < |kf| ==> kept[k] == kf[k];
      if keep(last) {
        assert kept[|kf|] == last;
        assert AllConvert(kept, conv) <==> AllConvert(kf, conv) && conv(last).Success?;
      }
    }
  }

  /** Once a prefix of the file fails to load, the whole file fails with the same exception. */
  lemma {:induction false} CollectStopsAtFailure<T>(rows: seq<Row>, n: nat, keep: Row -> bool, conv: Row -> Result<T, string>)
    requires n <= |rows| && Collect(rows[..n], keep, conv).Failure?
    ensures Collect(rows, keep, conv) == Collect(rows[..n], keep, conv)
    decreases |rows| - n
  {
    if n < |rows| {
      assert rows[..n + 1][..n] == rows[..n];
      CollectStopsAtFailure(rows, n + 1, keep, conv);
    } else {
      assert rows[..n] == rows;
    }
  }

  lemma CollectNext<T>(rows: seq<Row>, i: nat, keep: Row -> bool, conv: Row -> Result<T, string>)
    requires i < |rows|
    ensures Collect(rows[..i + 1], keep, conv) ==
      match Collect(rows[..i], keep, conv)
      case Failure(e) => Failure(e)
      case Success(done) =>
        if !keep(rows[i]) then Success(done)
        else match conv(rows[i])
          case Failure(e) => Failure(e)
          case Success(v) => Success(done + [v])
  {
    assert rows[..i + 1][..i] == rows[..i];
  }

  // ---------------------------------------------------------------------
  // The centroids
  // ---------------------------------------------------------------------

  /** `!it.contains("label")`: the header row names its columns. */
  predicate NotLabel(row: Row)
  {
    "label" !in row
  }

  /** The fields strictly between field 1 and the last field. */
  function Middle(row: Row): Row
  {
    if |row| >= 3 then row[2..|row| - 1] else []
  }

  /**
   * One data row of `centroids.csv`: field 1 without its first character,
   * the fields after it, and the last field without its last character.
   * A row of two fields reads field 1 twice, once from each end.
   */
  function CentroidRowOf(row: Row, toDouble: string -> Option<real>): Result<seq<real>, string>
  {
    if |row| < 2 then Failure(ArrayIndexOutOfBounds)
    else if |row[1]| == 0 then Failure(StringIndexOutOfBounds)
    else match toDouble(row[1][1..])
      case None => Failure(NumberFormat)
      case Some(first) =>
        match ParseAll(Middle(row), toDouble)
        case Failure(e) => Failure(e)
        case Success(middle) =>
          var last := row[|row| - 1];
          if |last| == 0 then Failure(StringIndexOutOfBounds)
          else match toDouble(last[..|last| - 1])
            case None => Failure(NumberFormat)
            case Some(v) => Success([first] + middle + [v])
  }

  function CentroidReader(toDouble: string -> Option<real>): Row -> Result<seq<real>, string>
  {
    row => CentroidRowOf(row, toDouble)
  }

  /** The lazy `centroid` list read from the rows of `centroids.csv`. */
  function CentroidsOf(rows: seq<Row>, toDouble: string -> Option<real>): Result<seq<seq<real>>, string>
  {
    Collect(rows, NotLabel, CentroidReader(toDouble))
  }

  /**
   * A data row of three or more fields gives one value per field but the
   * first: field 1 without its first character, the middle fields as they
   * are, the last field without its last character.
   */
  lemma CentroidRowValues(row: Row, toDouble: string -> Option<real>)
    requires |row| >= 3
    ensures var r := CentroidRowOf(row, toDouble);
      var last := row[|row| - 1];
      r.Success? <==>
        |row[1]| > 0 && toDouble(row[1][1..]).Some? &&
        (forall k :: 2 <= k < |row| - 1 ==> toDouble(row[k]).Some?) &&
        |last| > 0 && toDouble(last[..|last| - 1]).Some?
    ensures var r := CentroidRowOf(row, toDouble);
      var last := row[|row| - 1];
      r.Success? ==>
        |r.value| == |row| - 1 &&
        Some(r.value[0]) == toDouble(row[1][1..]) &&
        (forall k :: 2 <= k < |row| - 1 ==> Some(r.value[k - 1]) == toDouble(row[k])) &&
        Some(r.value[|row| - 2]) == toDouble(last[..|last| - 1])
  {
    var m := Middle(row);
    assert forall k :: 2 <= k < |row| - 1 ==> row[k] == m[k - 2];
    assert forall k :: 0 <= k < |m| ==> m[k] == row[k + 2];
    var pm := ParseAll(m, toDouble);
    if pm.Success? && CentroidRowOf(row, toDouble).Success? {
      var v := CentroidRowOf(row, toDouble).value;
      assert v[1..|row| - 2] == pm.value;
    }
  }

  /** A row of exactly two fields reads field 1 from both ends. */
  lemma CentroidRowOfTwo(row: Row, toDouble: string -> Option<real>)
    requires |row| == 2 && |row[1]| > 0
    requires toDouble(row[1][1..]).Some? && toDouble(row[1][..|row[1]| - 1]).Some?
    ensures CentroidRowOf(row, toDouble) ==
      Success([toDouble(row[1][1..]).value, toDouble(row[1][..|row[1]| - 1]).value])
  {
    assert Middle(row) == [];
    assert ParseAll(Middle(row), toDouble) == Success([]);
    var first := toDouble(row[1][1..]).value;
    var v := toDouble(row[1][..|row[1]| - 1]).value;
    assert [first] + [] + [v] == [first, v];
  }

  /** `for (i in 2 until length - 1)` and the two ends of one data row. */
  method CentroidRow(row: Row, toDouble: string -> Option<real>) returns (r: Result<seq<real>, string>)
    ensures r == CentroidRowOf(row, toDouble)
  {
    if |row| < 2 {
      return Failure(ArrayIndexOutOfBounds);
    }
    var length := |row|;
    if |row[1]| == 0 {
      return Failure(StringIndexOutOfBounds);
    }
    var first := toDouble(row[1][1..]);
    if first.None? {
      return Failure(NumberFormat);
    }
    ghost var m := Middle(row);
    var tmpList := [first.value];
    var i := 2;
    while i < length - 1
      invariant 2 <= i <= length && (length >= 3 ==> i <= length - 1)
      invariant |tmpList| == i - 1 && tmpList[0] == first.value
      invariant forall k :: 2 <= k < i ==> toDouble(row[k]) == Some(tmpList[k - 1])
    {
      var v := toDouble(row[i]);
      if v.None? {
        assert m[i - 2] == row[i];
        return Failure(NumberFormat);
      }
      tmpList := tmpList + [v.value];
      i := i + 1;
    }
    assert forall k :: 0 <= k < |m| ==> m[k] == row[k + 2];
    ghost var pm := ParseAll(m, toDouble);
    assert pm.value == tmpList[1..];
    var last := row[length - 1];
    if |last| == 0 {
      return Failure(StringIndexOutOfBounds);
    }
    var lastValue := toDouble(last[..|last| - 1]);
    if lastValue.None? {
      return Failure(NumberFormat);
    }
    r := Success(tmpList + [lastValue.value]);
    assert tmpList == [first.value] + pm.value;
  }

  /** The `centroid` loader: every row of `centroids.csv` without a "label" field, in order. */
  method LoadCentroids(rows: seq<Row>, toDouble: string -> Option<real>) returns (r: Result<seq<seq<real>>, string>)
    ensures r == CentroidsOf(rows, toDouble)
  {
    var resMutableList: seq<seq<real>> := [];
    var i := 0;
    while i < |rows|
      invariant 0 <= i <= |rows|
      invariant Collect(rows[..i], NotLabel, CentroidReader(toDouble)) == Success(resMutableList)
    {
      CollectNext(rows, i, NotLabel, CentroidReader(toDouble));
      if "label" !in rows[i] {
        var tmpList := CentroidRow(rows[i], toDouble);
        if tmpList.Failure? {
          CollectStopsAtFailure(rows, i + 1, NotLabel, CentroidReader(toDouble));
          return Failure(tmpList.error);
        }
        resMutableList := resMutableList + [tmpList.value];
      }
      i := i + 1;
    }
    assert rows[..|rows|] == rows;
    r := Success(resMutableList);
  }

  // ---------------------------------------------------------------------
  // The pose ranks
  // ---------------------------------------------------------------------

  /**
   * The pose record the loader builds; its class is not part of this model,
   * and the fields are named after the arguments it receives.
   */
  datatype PoseData = PoseData(poseId: int, poseDrawableId: int, rankIndex: int)

  /** `strings[1].equals("pose_ids").not()`, once field 1 exists. */
  predicate NotPoseIds(row: Row)
  {
    !(|row| >= 2 && row[1] == "pose_ids")
  }

  /** Field 1 of a data row of `pose_ranks.csv`: drop its first and last characters, split on commas, read each number. */
  function RankRowOf(row: Row, toDouble: string -> Option<real>): Result<seq<real>, string>
  {
    if |row| < 2 then Failure(ArrayIndexOutOfBounds)
    else if |row[1]| < 2 then Failure(StringIndexOutOfBounds)
    else ParseAll(Split(row[1][1..|row[1]| - 1], ','), toDouble)
  }

  function RankReader(toDouble: string -> Option<real>): Row -> Result<seq<real>, string>
  {
    row => RankRowOf(row, toDouble)
  }

  /** `rankList`: the pose-id lists of the data rows of `pose_ranks.csv`, in order. */
  function RankListOf(rows: seq<Row>, toDouble: string -> Option<real>): Result<seq<seq<real>>, string>
  {
    Collect(rows, NotPoseIds, RankReader(toDouble))
  }

  /**
   * A data row whose field 1 is a bracketed, comma-separated list reads as
   * exactly the numbers of that list, in order.
   */
  lemma RankRowIds(row: Row, inner: seq<string>, toDouble: string -> Option<real>)
    requires |row| >= 2
    requires |inner| > 0 && forall k :: 0 <= k < |inner| ==> ',' !in inner[k]
    requires |row[1]| >= 2 && row[1][1..|row[1]| - 1] == Join(inner, ',')
    ensures RankRowOf(row, toDouble) == ParseAll(inner, toDouble)
  {
    SplitJoin(inner, ',');
  }

  /** `rankList` is read row by row. */
  method ReadRankList(rows: seq<Row>, toDouble: string -> Option<real>) returns (r: Result<seq<seq<real>>, string>)
    ensures r == RankListOf(rows, toDouble)
  {
    var resMutableList: seq<seq<real>> := [];
    var i := 0;
    while i < |rows|
      invariant 0 <= i <= |rows|
      invariant Collect(rows[..i], NotPoseIds, RankReader(toDouble)) == Success(resMutableList)
    {
      CollectNext(rows, i, NotPoseIds, RankReader(toDouble));
      var strings := rows[i];
      if |strings| < 2 {
        CollectStopsAtFailure(rows, i + 1, NotPoseIds, RankReader(toDouble));
        return Failure(ArrayIndexOutOfBounds);
      }
      if strings[1] != "pose_ids" {
        if |strings[1]| < 2 {
          CollectStopsAtFailure(rows, i + 1, NotPoseIds, RankReader(toDouble));
          return Failure(StringIndexOutOfBounds);
        }
        var listStrData := strings[1][1..|strings[1]| - 1];
        var ids := ParseAll(Split(listStrData, ','), toDouble);
        if ids.Failure? {
          CollectStopsAtFailure(rows, i + 1, NotPoseIds, RankReader(toDouble));
          return Failure(ids.error);
        }
        resMutableList := resMutableList + [ids.value];
      }
      i := i + 1;
    }
    assert rows[..|rows|] == rows;
    r := Success(resMutableList);
  }

  /**
   * The lazy `poseRanks`: group `index` of the rank list becomes one list of
   * `PoseData`, each carrying the id as an `Int`, the drawable the id names
   * and `index` itself.
   */
  method LoadPoseRanks(rows: seq<Row>, toDouble: string -> Option<real>, resourceId: int -> int)
    returns (r: Result<seq<seq<PoseData>>, string>)
    ensures RankListOf(rows, toDouble).Failure? ==> r == Failure(RankListOf(rows, toDouble).error)
    ensures RankListOf(rows, toDouble).Success? ==>
      r.Success? &&
      var rankList := RankListOf(rows, toDouble).value;
      |r.value| == |rankList| &&
      forall index :: 0 <= index < |rankList| ==>
        |r.value[index]| == |rankList[index]| &&
        forall j :: 0 <= j < |rankList[index]| ==>
          r.value[index][j] == PoseData(ToInt(rankList[index][j]), resourceId(ToInt(rankList[index][j])), index)
  {
    var ranks := ReadRankList(rows, toDouble);
    if ranks.Failure? {
      return Failure(ranks.error);
    }
    var rankList := ranks.value;
    var poseDataList: seq<seq<PoseData>> := [];
    var index := 0;
    while index < |rankList|
      invariant 0 <= index <= |rankList| && |poseDataList| == index
      invariant forall g :: 0 <= g < index ==>
        |poseDataList[g]| == |rankList[g]| &&
        forall j :: 0 <= j < |rankList[g]| ==>
          poseDataList[g][j] == PoseData(ToInt(rankList[g][j]), resourceId(ToInt(rankList[g][j])), g)
    {
      var doubleList := rankList[index];
      var tmpPoseList: seq<PoseData> := [];
      var j := 0;
      while j < |doubleList|
        invariant 0 <= j <= |doubleList| && |tmpPoseList| == j
        invariant forall t :: 0 <= t < j ==>
          tmpPoseList[t] == PoseData(ToInt(doubleList[t]), resourceId(ToInt(doubleList[t])), index)
      {
        var resId := resourceId(ToInt(doubleList[j]));
        tmpPoseList := tmpPoseList + [PoseData(ToInt(doubleList[j]), resId, index)];
        j := j + 1;
      }
      poseDataList := poseDataList + [tmpPoseList];
      index := index + 1;
    }
    r := Success(poseDataList);
  }
}
