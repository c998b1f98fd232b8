/** The quote parser and portfolio aggregator: feed lines become per-symbol
    records, the title symbol's row is set aside as the master record, and the
    remaining rows are summed for the portfolio average. */
module Quotes {
  import opened JavaLang
  import opened Patterns
  import Symbols

  /** One feed row. Change and Percent are in hundredths (the feed quotes two
      decimals), so `x * 100` in the source is exactly the integer held here. */
  datatype SymbolInfo = SymbolInfo(symbol: string, change: int, percent: int, error: bool)

  /** The record shown on the status line. Its values are in hundredths too, but
      real-valued, because the portfolio average is a quotient. */
  datatype MasterInfo = MasterInfo(symbol: string, change: real, percent: real, error: bool)

  function FromRow(si: SymbolInfo): MasterInfo
  {
    MasterInfo(si.symbol, si.change as real, si.percent as real, si.error)
  }

  // ---------------------------------------------------------------------------
  // line.split("[^A-Za-z0-9.^_-]+")

  /** The substrings between successive separator runs, empty ones included. */
  function Pieces(s: string): seq<string>
    decreases |s|
  {
    var n := Span(s, FieldClass);
    if n == |s| then [s]
    else
      var rest := s[n..];
      var m := Span(rest, SeparatorClass);
      [s[..n]] + Pieces(rest[m..])
  }

  function DropTrailingEmpty(r: seq<string>): seq<string>
    decreases |r|
  {
    if r != [] && r[|r| - 1] == "" then DropTrailingEmpty(r[..|r| - 1]) else r
  }

  /** String.split with limit 0: a line with no separator is returned whole,
      otherwise the pieces with the trailing empty ones removed. */
  function Split(line: string): seq<string>
  {
    if Span(line, FieldClass) == |line| then [line]
    else DropTrailingEmpty(Pieces(line))
  }

  function Lead(s: string): seq<string>
  {
    if s == [] || !IsFieldChar(s[0]) then [""] else []
  }

  function Trail(s: string): seq<string>
  {
    if s != [] && !IsFieldChar(s[|s| - 1]) then [""] else []
  }

  /** A line without separators is a single piece, and a single match unless empty. */
  lemma PiecesWhole(s: string)
    requires Span(s, FieldClass) == |s|
    ensures Pieces(s) == Lead(s) + FindAll(s, FieldClass) + Trail(s)
  {
    if s != [] {
      assert IsFieldChar(s[0]) && IsFieldChar(s[|s| - 1]);
      FindAllRun(s, "", FieldClass);
      assert s + "" == s;
    }
  }

  /** Cutting a line at its first separator run: the leading piece, then the rest. */
  lemma PiecesCut(s: string, n: nat, t: string)
    requires n == Span(s, FieldClass) < |s|
    requires t == s[n..][Span(s[n..], SeparatorClass)..]
    ensures |t| < |s| && (t == [] || IsFieldChar(t[0]))
    ensures Pieces(s) == [s[..n]] + Pieces(t)
    ensures Lead(s) == (if n == 0 then [""] else [])
    ensures Trail(s) == (if t == [] then [""] else Trail(t))
  {
    var rest := s[n..];
    assert !IsFieldChar(rest[0]);
    if t == [] {
      assert s[|s| - 1] == rest[|rest| - 1];
    } else {
      assert t[|t| - 1] == s[|s| - 1];
    }
  }

  /** The matches of a line cut at its first separator run. */
  lemma FindAllCut(s: string, n: nat, t: string)
    requires n == Span(s, FieldClass) < |s|
    requires t == s[n..][Span(s[n..], SeparatorClass)..]
    ensures FindAll(s, FieldClass) == (if n == 0 then [] else [s[..n]]) + FindAll(t, FieldClass)
  {
    var rest := s[n..];
    var m := Span(rest, SeparatorClass);
    var sep := rest[..m];
    assert rest == sep + t;
    FindAllSkip(sep, t, FieldClass);
    if n > 0 {
      assert IsFieldChar(s[0]);
      assert s == s[..n] + rest;
      FindAllRun(s[..n], rest, FieldClass);
    } else {
      assert rest == s;
    }
  }

  /** Pieces are the field runs, with an empty piece in front when the line
      opens with a separator (or is empty) and one behind when it ends with one. */
  lemma {:induction false} PiecesShape(s: string)
    ensures Pieces(s) == Lead(s) + FindAll(s, FieldClass) + Trail(s)
    decreases |s|
  {
    var n := Span(s, FieldClass);
    if n == |s| {
      PiecesWhole(s);
    } else {
      var t := s[n..][Span(s[n..], SeparatorClass)..];
      PiecesCut(s, n, t);
      FindAllCut(s, n, t);
      PiecesShape(t);
      var head: seq<string> := if n == 0 then [] else [s[..n]];
      ShapeAssemble(s[..n], head, Lead(s), Lead(t), FindAll(t, FieldClass), Trail(t), Trail(s));
    }
  }

  lemma ShapeAssemble(piece: string, head: seq<string>, lead: seq<string>, leadT: seq<string>,
                      runs: seq<string>, trailT: seq<string>, trail: seq<string>)
    requires (piece == "" && head == [] && lead == [""]) || (head == [piece] && lead == [])
    requires (runs == [] && leadT == [""] && trailT == [] && trail == [""]) ||
             (leadT == [] && trail == trailT)
    ensures [piece] + (leadT + runs + trailT) == lead + (head + runs) + trail
  {
  }

  lemma {:induction false} DropTrailingEmptyOf(a: seq<string>, b: seq<string>)
    requires forall k :: 0 <= k < |b| ==> |b[k]| > 0
    ensures DropTrailingEmpty(a + b + [""]) == if b == [] then DropTrailingEmpty(a) else a + b
  {
    var x := a + b + [""];
    assert x[..|x| - 1] == a + b;
    if b == [] {
      assert a + b == a;
    }
  }

  /** The fields as a reader of the feed sees them: the maximal runs of
      `[A-Za-z0-9.^_-]`, preceded by one empty field when the line opens with
      a separator and has any field at all; the empty line is one empty field. */
  function FieldsOf(line: string): seq<string>
  {
    if line == "" then [""]
    else (if FindAll(line, FieldClass) != [] && !IsFieldChar(line[0]) then [""] else []) + FindAll(line, FieldClass)
  }

  lemma SplitWhole(line: string)
    requires Span(line, FieldClass) == |line|
    ensures Split(line) == FieldsOf(line)
  {
    if line != "" {
      FindAllRun(line, "", FieldClass);
      assert line + "" == line;
    }
  }

  lemma SplitEndingInSeparator(line: string)
    requires Span(line, FieldClass) < |line| && Trail(line) == [""]
    ensures Split(line) == FieldsOf(line)
  {
    var runs := FindAll(line, FieldClass);
    var lead := Lead(line);
    PiecesShape(line);
    FindAllRuns(line, FieldClass);
    DropTrailingEmptyOf(lead, runs);
    assert Split(line) == DropTrailingEmpty(lead + runs + [""]);
    if runs == [] {
      if lead == [""] {
        assert DropTrailingEmpty(lead) == DropTrailingEmpty([]);
      }
      assert Split(line) == [];
    } else {
      assert Split(line) == lead + runs;
    }
  }

  lemma SplitEndingInField(line: string)
    requires Span(line, FieldClass) < |line| && Trail(line) == []
    ensures Split(line) == FieldsOf(line)
  {
    var runs := FindAll(line, FieldClass);
    var lead := Lead(line);
    PiecesShape(line);
    assert IsFieldChar(line[|line| - 1]);
    FindAllTail(line);
    FindAllRuns(line, FieldClass);
    assert Pieces(line) == lead + runs;
    assert (lead + runs)[|lead + runs| - 1] == runs[|runs| - 1];
    assert Split(line) == lead + runs;
  }

  /** Java's split yields exactly the fields a reader of the feed sees. So in
      `"AAPL",+1.23,"+0.5%"` field 1 is the symbol. */
  lemma SplitFields(line: string)
    ensures Split(line) == FieldsOf(line)
  {
    if Span(line, FieldClass) == |line| {
      SplitWhole(line);
    } else if Trail(line) == [""] {
      SplitEndingInSeparator(line);
    } else {
      SplitEndingInField(line);
    }
  }

  /** A line ending in a field character has at least one match. */
  lemma {:induction false} FindAllTail(s: string)
    requires s != [] && IsFieldChar(s[|s| - 1])
    ensures FindAll(s, FieldClass) != []
    decreases |s|
  {
    if !IsFieldChar(s[0]) {
      FindAllTail(s[1..]);
    }
  }

  // ---------------------------------------------------------------------------
  // Rows

  /** One line of the feed: fewer than 4 fields gives no record; field 1 is the
      symbol; fields 2 and 3 are change and percent, and if either fails to parse
      the record is an error with both values 0. */
  function ParseRow(line: string, parse: string -> Option<int>): (r: Option<SymbolInfo>)
    ensures r.None? <==> |Split(line)| < 4
    ensures r.Some? ==> r.value.symbol == Split(line)[1]
    ensures r.Some? ==>
      (r.value.error <==> parse(Split(line)[2]).None? || parse(Split(line)[3]).None?)
    ensures r.Some? && r.value.error ==> r.value.change == 0 && r.value.percent == 0
    ensures r.Some? && !r.value.error ==>
      parse(Split(line)[2]) == Some(r.value.change) && parse(Split(line)[3]) == Some(r.value.percent)
  {
    var lineParts := Split(line);
    if |lineParts| < 4 then None
    else
      var change := parse(lineParts[2]);
      var percent := parse(lineParts[3]);
      if change.Some? && percent.Some? then Some(SymbolInfo(lineParts[1], change.value, percent.value, false))
      else Some(SymbolInfo(lineParts[1], 0, 0, true))
  }

  /** The records of every line with at least 4 fields, in feed order. */
  function Rows(lines: seq<string>, parse: string -> Option<int>): seq<SymbolInfo>
    decreases |lines|
  {
    if lines == [] then []
    else
      var init := Rows(lines[..|lines| - 1], parse);
      match ParseRow(lines[|lines| - 1], parse)
      case None => init
      case Some(si) => init + [si]
  }

  /** The rows that are not the title symbol's, in order. */
  function Listed(rows: seq<SymbolInfo>, symTitle: string): seq<SymbolInfo>
    decreases |rows|
  {
    if rows == [] then []
    else
      var init := Listed(rows[..|rows| - 1], symTitle);
      var si := rows[|rows| - 1];
      if si.symbol == symTitle then init else init + [si]
  }

  /** The last row carrying the title symbol, if any. */
  function LastMatch(rows: seq<SymbolInfo>, symTitle: string): (r: Option<SymbolInfo>)
    ensures r.Some? ==> r.value.symbol == symTitle && r.value in rows
    decreases |rows|
  {
    if rows == [] then None
    else if rows[|rows| - 1].symbol == symTitle then Some(rows[|rows| - 1])
    else LastMatch(rows[..|rows| - 1], symTitle)
  }

  function SumChange(list: seq<SymbolInfo>): int
    decreases |list|
  {
    if list == [] then 0
    else SumChange(list[..|list| - 1]) + (if list[|list| - 1].error then 0 else list[|list| - 1].change)
  }

  function SumPercent(list: seq<SymbolInfo>): int
    decreases |list|
  {
    if list == [] then 0
    else SumPercent(list[..|list| - 1]) + (if list[|list| - 1].error then 0 else list[|list| - 1].percent)
  }

  function ErrorCount(list: seq<SymbolInfo>): nat
    decreases |list|
  {
    if list == [] then 0
    else ErrorCount(list[..|list| - 1]) + (if list[|list| - 1].error then 1 else 0)
  }

  /** The records that are not errors. */
  function ValidRows(list: seq<SymbolInfo>): seq<SymbolInfo>
    decreases |list|
  {
    if list == [] then []
    else
      var init := ValidRows(list[..|list| - 1]);
      if list[|list| - 1].error then init else init + [list[|list| - 1]]
  }

  /** The listed rows split into the title rows and the others: nothing is lost. */
  lemma {:induction false} ListedPartition(rows: seq<SymbolInfo>, symTitle: string)
    ensures forall k :: 0 <= k < |Listed(rows, symTitle)| ==> Listed(rows, symTitle)[k].symbol != symTitle
    ensures forall si :: si in rows && si.symbol != symTitle ==> si in Listed(rows, symTitle)
    ensures forall si :: si in Listed(rows, symTitle) ==> si in rows
    decreases |rows|
  {
    if rows != [] {
      var init := rows[..|rows| - 1];
      ListedPartition(init, symTitle);
      assert rows == init + [rows[|rows| - 1]];
    }
  }

  /** The master row is the last row carrying the title symbol, and there is
      none exactly when no row carries it. */
  lemma {:induction false} LastMatchIsLast(rows: seq<SymbolInfo>, symTitle: string)
    ensures LastMatch(rows, symTitle).None? <==> forall k :: 0 <= k < |rows| ==> rows[k].symbol != symTitle
    ensures forall k :: (0 <= k < |rows| && rows[k].symbol == symTitle &&
                         (forall j :: k < j < |rows| ==> rows[j].symbol != symTitle)) ==>
                        LastMatch(rows, symTitle) == Some(rows[k])
    decreases |rows|
  {
    if rows != [] {
      var init := rows[..|rows| - 1];
      LastMatchIsLast(init, symTitle);
      if rows[|rows| - 1].symbol != symTitle {
        forall k | 0 <= k < |rows| && rows[k].symbol == symTitle &&
          (forall j :: k < j < |rows| ==> rows[j].symbol != symTitle)
          ensures LastMatch(rows, symTitle) == Some(rows[k])
        {
          assert init[k] == rows[k];
          assert forall j :: k < j < |init| ==> init[j] == rows[j];
        }
        assert forall k :: 0 <= k < |init| ==> init[k] == rows[k];
      }
    }
  }

  /** `valid = size - allErrors` is the number of non-error records, and the sums
      cover exactly those records. */
  lemma {:induction false} ValidCount(list: seq<SymbolInfo>)
    ensures |list| - ErrorCount(list) == |ValidRows(list)|
    ensures forall si :: si in ValidRows(list) <==> si in list && !si.error
    ensures SumPercent(list) == SumPercent(ValidRows(list))
    ensures SumChange(list) == SumChange(ValidRows(list))
    decreases |list|
  {
    if list != [] {
      var init := list[..|list| - 1];
      ValidCount(init);
      assert list == init + [list[|list| - 1]];
      var v := ValidRows(list);
      if !list[|list| - 1].error {
        assert v[..|v| - 1] == ValidRows(init);
      }
    }
  }

  /** The valid percents, summed, lie between `valid * lo` and `valid * hi`. */
  lemma {:induction false} SumPercentBounds(list: seq<SymbolInfo>, lo: int, hi: int)
    requires forall k :: 0 <= k < |list| && !list[k].error ==> lo <= list[k].percent <= hi
    ensures lo * (|list| - ErrorCount(list)) <= SumPercent(list) <= hi * (|list| - ErrorCount(list))
    decreases |list|
  {
    if list != [] {
      var init := list[..|list| - 1];
      var x := list[|list| - 1];
      forall k | 0 <= k < |init| && !init[k].error ensures lo <= init[k].percent <= hi {
        assert init[k] == list[k];
      }
      SumPercentBounds(init, lo, hi);
      var c := |init| - ErrorCount(init);
      if !x.error {
        assert |list| - ErrorCount(list) == c + 1;
        assert lo * (c + 1) == lo * c + lo;
        assert hi * (c + 1) == hi * c + hi;
      } else {
        assert |list| - ErrorCount(list) == c;
      }
    }
  }

  lemma MeanBounds(sum: int, count: int, lo: int, hi: int)
    requires count > 0 && lo * count <= sum <= hi * count
    ensures lo as real <= sum as real / count as real <= hi as real
  {
    var q := sum as real / count as real;
    assert q * count as real == sum as real;
    assert (lo * count) as real == lo as real * count as real;
    assert (hi * count) as real == hi as real * count as real;
  }

  /** The master slot after aggregation: the portfolio average when the title is
      the pseudo-symbol and some listed record is valid, else the feed's own row. */
  function Master(rows: seq<SymbolInfo>, symTitle: string): Option<MasterInfo>
  {
    var list := Listed(rows, symTitle);
    var valid := |list| - ErrorCount(list);
    if valid > 0 && symTitle == Symbols.CUSTOM_INDEX then
      Some(MasterInfo(Symbols.CUSTOM_INDEX, SumChange(list) as real / valid as real,
                      SumPercent(list) as real / valid as real, false))
    else
      match LastMatch(rows, symTitle)
      case None => None
      case Some(si) => Some(FromRow(si))
  }

  /** The portfolio average: a non-error record whose percent is the mean of the
      valid listed percents, hence between their minimum and maximum. */
  lemma AverageWithinRange(rows: seq<SymbolInfo>, lo: int, hi: int)
    requires var list := Listed(rows, Symbols.CUSTOM_INDEX);
      |list| - ErrorCount(list) > 0
    requires var list := Listed(rows, Symbols.CUSTOM_INDEX);
      forall k :: 0 <= k < |list| && !list[k].error ==> lo <= list[k].percent <= hi
    ensures var m := Master(rows, Symbols.CUSTOM_INDEX);
      m.Some? && !m.value.error && m.value.symbol == Symbols.CUSTOM_INDEX &&
      lo as real <= m.value.percent <= hi as real
    ensures var list := Listed(rows, Symbols.CUSTOM_INDEX);
      Master(rows, Symbols.CUSTOM_INDEX).value.percent ==
        SumPercent(list) as real / (|list| - ErrorCount(list)) as real
  {
    var list := Listed(rows, Symbols.CUSTOM_INDEX);
    var valid := |list| - ErrorCount(list);
    SumPercentBounds(list, lo, hi);
    MeanBounds(SumPercent(list), valid, lo, hi);
    assert Master(rows, Symbols.CUSTOM_INDEX) ==
      Some(MasterInfo(Symbols.CUSTOM_INDEX, SumChange(list) as real / valid as real,
                      SumPercent(list) as real / valid as real, false));
  }

  lemma RowsStep(lines: seq<string>, i: nat, parse: string -> Option<int>)
    requires i < |lines|
    ensures Rows(lines[..i + 1], parse) ==
      match ParseRow(lines[i], parse)
      case None => Rows(lines[..i], parse)
      case Some(si) => Rows(lines[..i], parse) + [si]
  {
    assert lines[..i + 1][..i] == lines[..i];
  }

  lemma ListedStep(rows: seq<SymbolInfo>, si: SymbolInfo, symTitle: string)
    ensures Listed(rows + [si], symTitle) ==
      if si.symbol == symTitle then Listed(rows, symTitle) else Listed(rows, symTitle) + [si]
    ensures LastMatch(rows + [si], symTitle) ==
      if si.symbol == symTitle then Some(si) else LastMatch(rows, symTitle)
  {
    assert (rows + [si])[..|rows|] == rows;
  }

  lemma SumsStep(list: seq<SymbolInfo>, si: SymbolInfo)
    ensures SumChange(list + [si]) == SumChange(list) + (if si.error then 0 else si.change)
    ensures SumPercent(list + [si]) == SumPercent(list) + (if si.error then 0 else si.percent)
    ensures ErrorCount(list + [si]) == ErrorCount(list) + (if si.error then 1 else 0)
  {
    assert (list + [si])[..|list|] == list;
  }

  /** One parsed row in the `readLine` loop: the title symbol's row becomes the
      master; any other row is appended, and counted in the sums or as an error. */
  method AddRow(si: SymbolInfo, symTitle: string, symbolInfo: seq<SymbolInfo>, siMaster: Option<SymbolInfo>,
                allChange: int, allPercent: int, allErrors: int)
    returns (symbolInfo': seq<SymbolInfo>, siMaster': Option<SymbolInfo>, allChange': int, allPercent': int, allErrors': int)
    ensures si.symbol == symTitle ==>
      symbolInfo' == symbolInfo && siMaster' == Some(si) &&
      allChange' == allChange && allPercent' == allPercent && allErrors' == allErrors
    ensures si.symbol != symTitle ==>
      symbolInfo' == symbolInfo + [si] && siMaster' == siMaster &&
      allChange' == allChange + (if si.error then 0 else si.change) &&
      allPercent' == allPercent + (if si.error then 0 else si.percent) &&
      allErrors' == allErrors + (if si.error then 1 else 0)
  {
    symbolInfo', siMaster', allChange', allPercent', allErrors' := symbolInfo, siMaster, allChange, allPercent, allErrors;
    if si.symbol == symTitle {
      siMaster' := Some(si);
    } else {
      symbolInfo' := symbolInfo + [si];
      if !si.error {
        allChange' := allChange + si.change;
        allPercent' := allPercent + si.percent;
      } else {
        allErrors' := allErrors + 1;
      }
    }
  }

  /** The `while readLine` loop: parses every line, diverts the title symbol's row
      to the master slot (the last such row wins) and appends every other row,
      keeping running sums over the valid ones and a count of the errors. */
  method ReadFeed(lines: seq<string>, symTitle: string, parse: string -> Option<int>)
    returns (symbolInfo: seq<SymbolInfo>, siMaster: Option<SymbolInfo>, allChange: int, allPercent: int, allErrors: int)
    ensures symbolInfo == Listed(Rows(lines, parse), symTitle)
    ensures siMaster == LastMatch(Rows(lines, parse), symTitle)
    ensures allChange == SumChange(symbolInfo) && allPercent == SumPercent(symbolInfo)
    ensures allErrors == ErrorCount(symbolInfo)
  {
    symbolInfo, siMaster := [], None;
    allChange, allPercent, allErrors := 0, 0, 0;
    ghost var rows: seq<SymbolInfo> := [];
    var i := 0;
    while i < |lines|
      invariant 0 <= i <= |lines|
      invariant rows == Rows(lines[..i], parse)
      invariant symbolInfo == Listed(rows, symTitle)
      invariant siMaster == LastMatch(rows, symTitle)
      invariant allChange == SumChange(symbolInfo) && allPercent == SumPercent(symbolInfo)
      invariant allErrors == ErrorCount(symbolInfo)
    {
      var line := lines[i];
      RowsStep(lines, i, parse);
      i := i + 1;
      var parsed := ParseRow(line, parse);
      if parsed.Some? {
        var si := parsed.value;
        ListedStep(rows, si, symTitle);
        SumsStep(symbolInfo, si);
        rows := rows + [si];
        symbolInfo, siMaster, allChange, allPercent, allErrors :=
          AddRow(si, symTitle, symbolInfo, siMaster, allChange, allPercent, allErrors);
      }
    }
    assert lines[..i] == lines;
  }
}
