/** scripts/load_and_process_data.py: `load_data`, which reads one CSV file per
    ticker, skips the files it cannot use, and combines the rest into one table
    ordered by (ticker, date); and the fatal-error report of the main block. */
module MarketLoader {
  import opened Wrappers
  import opened Strings

  datatype Column = Open | High | Low | Close | Volume

  /** `required_cols`, in the order the loop checks them. */
  const RequiredColumns: seq<Column> := [Open, High, Low, Close, Volume]

  /** A price cell as `read_csv` produced it: a number, text that is not a
      number, or an empty cell. */
  datatype Cell = Number(value: real) | Text(text: string) | Blank

  /** A cell of the `Date` column: a date `to_datetime` parses (as a day number)
      or text it cannot parse. */
  datatype DateCell = Day(day: int) | Unparsable(text: string)

  /** A row of a ticker file; a price column the row has no entry for is empty. */
  datatype CsvRow = CsvRow(date: DateCell, cells: map<Column, Cell>)

  /** A ticker file: whether it has a `Date` column, which price columns it has,
      and its rows. */
  datatype CsvTable = CsvTable(hasDate: bool, columns: set<Column>, rows: seq<CsvRow>)

  /** What `read_csv` makes of an existing file: a table, or an empty or
      malformed file, whose `EmptyDataError` or `ParserError` is a `ValueError`. */
  datatype CsvFile = Parsed(table: CsvTable) | Malformed

  /** A row of the combined table, keyed by (ticker, date). */
  datatype PriceBar = PriceBar(
    ticker: string, date: int, open: real, high: real, low: real, close: real, volume: real)

  function BeforeFirstDot(s: string): (r: string)
    ensures |r| <= |s| && r == s[..|r|]
    ensures '.' !in r
    ensures |r| < |s| ==> s[|r|] == '.'
  {
    if s == [] || s[0] == '.' then [] else [s[0]] + BeforeFirstDot(s[1..])
  }

  /** `file.split('.')[0].upper()` (line 21). */
  function TickerOf(file: string): string
  {
    ToUpper(BeforeFirstDot(file))
  }

  /** The ticker is the upper-cased text before the first dot of the file name. */
  lemma TickerOfSpec(file: string)
    ensures var r := TickerOf(file);
      && |r| <= |file| && '.' !in r
      && (forall i :: 0 <= i < |r| ==> r[i] == UpperChar(file[i]))
      && (|r| < |file| ==> file[|r|] == '.')
  {
    var p := BeforeFirstDot(file);
    forall i | 0 <= i < |p| ensures TickerOf(file)[i] != '.' {
      assert p[i] != '.';
    }
  }

  lemma TickerOfExample(file: string)
    requires file == "aapl.csv"
    ensures TickerOf(file) == "AAPL"
  {
    var p := BeforeFirstDot(file);
    assert file[0] != '.' && file[1] != '.' && file[2] != '.' && file[3] != '.' && file[4] == '.';
    assert |p| == 4;
    assert p == file[..4] == "aapl";
  }

  function CellOf(row: CsvRow, c: Column): Cell
  {
    if c in row.cells then row.cells[c] else Blank
  }

  /** After `pd.to_numeric(..., errors='coerce')` a cell is null unless it held a
      number; `dropna(subset=required_cols)` then keeps the rows with no null. */
  predicate AllNumeric(row: CsvRow)
  {
    forall c :: c in RequiredColumns ==> CellOf(row, c).Number?
  }

  predicate DatesParse(rows: seq<CsvRow>)
  {
    forall row :: row in rows ==> row.date.Day?
  }

  function ToBar(ticker: string, row: CsvRow): PriceBar
    requires row.date.Day? && AllNumeric(row)
  {
    assert Open in RequiredColumns && High in RequiredColumns && Low in RequiredColumns;
    assert Close in RequiredColumns && Volume in RequiredColumns;
    PriceBar(ticker, row.date.day, CellOf(row, Open).value, CellOf(row, High).value,
             CellOf(row, Low).value, CellOf(row, Close).value, CellOf(row, Volume).value)
  }

  /** The rows of one file that survive coercion and `dropna`, as bars of `ticker`. */
  function KeptBars(ticker: string, rows: seq<CsvRow>): (r: seq<PriceBar>)
    requires DatesParse(rows)
    ensures |r| <= |rows|
    ensures forall b :: b in r ==> b.ticker == ticker
    ensures forall row :: row in rows && AllNumeric(row) ==> ToBar(ticker, row) in r
    ensures forall b :: b in r ==> exists row :: row in rows && AllNumeric(row) && b == ToBar(ticker, row)
  {
    if rows == [] then []
    else
      assert forall row :: row in rows[1..] ==> row in rows;
      (if AllNumeric(rows[0]) then [ToBar(ticker, rows[0])] else []) + KeptBars(ticker, rows[1..])
  }

  /** `dropna` works row by row: each surviving row is kept exactly once, in
      file order, duplicates included. */
  lemma {:induction false} KeptBarsAppend(ticker: string, a: seq<CsvRow>, b: seq<CsvRow>)
    requires DatesParse(a) && DatesParse(b)
    ensures DatesParse(a + b)
    ensures KeptBars(ticker, a + b) == KeptBars(ticker, a) + KeptBars(ticker, b)
  {
    assert forall row :: row in a + b ==> row in a || row in b;
    if a != [] {
      assert (a + b)[0] == a[0];
      assert (a + b)[1..] == a[1..] + b;
      assert forall row :: row in a[1..] ==> row in a;
      KeptBarsAppend(ticker, a[1..], b);
    } else {
      assert a + b == b;
    }
  }

  lemma KeptBarsRow(ticker: string, row: CsvRow)
    requires row.date.Day?
    ensures DatesParse([row])
    ensures KeptBars(ticker, [row]) == if AllNumeric(row) then [ToBar(ticker, row)] else []
  {
    assert [row][1..] == [];
  }

  /** The first column of `cols` that is not `present`, if any. */
  function FirstMissing(cols: seq<Column>, present: set<Column>): (r: Option<Column>)
    ensures r.None? <==> forall c :: c in cols ==> c in present
    ensures r.Some? ==> r.value in cols && r.value !in present
  {
    if cols == [] then None
    else if cols[0] !in present then Some(cols[0])
    else FirstMissing(cols[1..], present)
  }

  /** The reported column is the first missing one in `cols`' order. */
  lemma {:induction false} FirstMissingIsFirst(cols: seq<Column>, present: set<Column>)
    requires FirstMissing(cols, present).Some?
    ensures exists i :: (0 <= i < |cols| && cols[i] == FirstMissing(cols, present).value &&
                         forall j :: 0 <= j < i ==> cols[j] in present)
  {
    var m := FirstMissing(cols, present).value;
    if cols[0] !in present {
      assert cols[0] == m;
    } else {
      FirstMissingIsFirst(cols[1..], present);
      var i :| 0 <= i < |cols[1..]| && cols[1..][i] == m
        && forall j :: 0 <= j < i ==> cols[1..][j] in present;
      assert cols[i + 1] == m;
      assert forall j :: 0 <= j < i + 1 ==> cols[j] in present by {
        forall j | 0 <= j < i + 1 ensures cols[j] in present {
          if j > 0 { assert cols[j] == cols[1..][j - 1]; }
        }
      }
    }
  }

  /** The column loop of lines 29-31: it stops at the first required column the
      file lacks. */
  method CheckRequiredColumns(columns: set<Column>) returns (missing: Option<Column>)
    ensures missing == FirstMissing(RequiredColumns, columns)
  {
    var i := 0;
    while i < |RequiredColumns|
      invariant 0 <= i <= |RequiredColumns|
      invariant FirstMissing(RequiredColumns, columns) == FirstMissing(RequiredColumns[i..], columns)
    {
      var col := RequiredColumns[i];
      if col !in columns {
        return Some(col);
      }
      assert RequiredColumns[i..][1..] == RequiredColumns[i + 1..];
      i := i + 1;
    }
    return None;
  }

  datatype SkipReason = FileNotFound | UnreadableFile | UnparsableDate | MissingColumn(column: Column)

  /** What the loop body does with one file: skip it with an error message, load
      its rows, or let a `KeyError` escape because it has no `Date` column. */
  datatype FileOutcome = Skipped(reason: SkipReason) | Loaded(bars: seq<PriceBar>) | DateColumnMissing

  /** The body of the loop (lines 18-38) for one file of `folder`; a name the
      folder does not hold is a file that does not exist. */
  function LoadFile(folder: map<string, CsvFile>, file: string): FileOutcome
  {
    if file !in folder then Skipped(FileNotFound)
    else if folder[file].Malformed? then Skipped(UnreadableFile)
    else
      var t := folder[file].table;
      if !t.hasDate then DateColumnMissing
      else if !DatesParse(t.rows) then Skipped(UnparsableDate)
      else match FirstMissing(RequiredColumns, t.columns)
        case Some(c) => Skipped(MissingColumn(c))
        case None => Loaded(KeptBars(TickerOf(file), t.rows))
  }

  datatype Skip = Skip(file: string, reason: SkipReason)

  /** The state of the loop after some files: the loaded frames (`all_data`) and
      the skipped files, or the file whose `KeyError` ended the load. */
  datatype Gathering = Gathered(frames: seq<seq<PriceBar>>, skipped: seq<Skip>) | Aborted(file: string)

  function Gather(folder: map<string, CsvFile>, files: seq<string>): Gathering
  {
    if files == [] then Gathered([], [])
    else
      var file := files[|files| - 1];
      match Gather(folder, files[..|files| - 1])
      case Aborted(f) => Aborted(f)
      case Gathered(frames, skipped) =>
        match LoadFile(folder, file)
        case Skipped(reason) => Gathered(frames, skipped + [Skip(file, reason)])
        case Loaded(bars) => Gathered(frames + [bars], skipped)
        case DateColumnMissing => Aborted(file)
  }

  /** `pd.concat(all_data)` */
  function Flatten(frames: seq<seq<PriceBar>>): seq<PriceBar>
  {
    if frames == [] then [] else Flatten(frames[..|frames| - 1]) + frames[|frames| - 1]
  }

  /** The (ticker, date) order of `sort_index`; tickers compare as strings. */
  predicate KeyLe(a: PriceBar, b: PriceBar)
  {
    LexLess(a.ticker, b.ticker) || (a.ticker == b.ticker && a.date <= b.date)
  }

  predicate SortedByKey(s: seq<PriceBar>)
  {
    forall i, j :: 0 <= i < j < |s| ==> KeyLe(s[i], s[j])
  }

  lemma KeyLeTransitive(a: PriceBar, b: PriceBar, c: PriceBar)
    requires KeyLe(a, b) && KeyLe(b, c)
    ensures KeyLe(a, c)
  {
    if LexLess(a.ticker, b.ticker) && LexLess(b.ticker, c.ticker) {
      LexLessTransitive(a.ticker, b.ticker, c.ticker);
    }
  }

  lemma KeyLeTotal(a: PriceBar, b: PriceBar)
    ensures KeyLe(a, b) || KeyLe(b, a)
  {
    if a.ticker != b.ticker { LexLessTotal(a.ticker, b.ticker); }
  }

  function InsertBar(x: PriceBar, s: seq<PriceBar>): (r: seq<PriceBar>)
    requires SortedByKey(s)
    ensures multiset(r) == multiset(s) + multiset{x}
    ensures SortedByKey(r)
  {
    if s == [] then [x]
    else if KeyLe(x, s[0]) then
      forall j | 0 <= j < |s| ensures KeyLe(x, s[j]) {
        if j > 0 { KeyLeTransitive(x, s[0], s[j]); }
      }
      [x] + s
    else
      var rest := InsertBar(x, s[1..]);
      KeyLeTotal(x, s[0]);
      assert s == [s[0]] + s[1..];
      forall j | 0 <= j < |rest| ensures KeyLe(s[0], rest[j]) {
        assert rest[j] in multiset(rest);
        if rest[j] != x {
          assert rest[j] in s[1..];
        }
      }
      [s[0]] + rest
  }

  /** `sort_index()` on the (Ticker, Date) index: the same rows, duplicates
      included, in ascending key order. */
  function SortBars(s: seq<PriceBar>): (r: seq<PriceBar>)
    ensures multiset(r) == multiset(s)
    ensures SortedByKey(r)
  {
    if s == [] then []
    else
      assert s == [s[0]] + s[1..];
      InsertBar(s[0], SortBars(s[1..]))
  }

  /** What `load_data` ends with: the combined table (with the files it skipped),
      the `RuntimeError` for no loaded file, or the `KeyError` that escaped. */
  datatype LoadResult =
    | Combined(bars: seq<PriceBar>, skipped: seq<Skip>)
    | NoValidData(skipped: seq<Skip>)
    | KeyErrorAbort(file: string)

  /** `load_data` (lines 12-47) as a function of the folder's contents. */
  function Load(folder: map<string, CsvFile>, files: seq<string>): LoadResult
  {
    match Gather(folder, files)
    case Aborted(f) => KeyErrorAbort(f)
    case Gathered(frames, skipped) =>
      if frames == [] then NoValidData(skipped) else Combined(SortBars(Flatten(frames)), skipped)
  }

  /** Once a file has aborted the loop, the files after it change nothing. */
  lemma {:induction false} AbortPropagates(folder: map<string, CsvFile>, files: seq<string>, n: nat)
    requires n <= |files| && Gather(folder, files[..n]).Aborted?
    ensures Gather(folder, files) == Gather(folder, files[..n])
    decreases |files| - n
  {
    if n < |files| {
      assert files[..n + 1][..n] == files[..n];
      AbortPropagates(folder, files, n + 1);
    } else {
      assert files[..n] == files;
    }
  }

  /** `load_data` (lines 12-47): the loop over the files, then the fatal check,
      the concatenation and the sort. */
  method LoadData(folder: map<string, CsvFile>, files: seq<string>) returns (result: LoadResult)
    ensures result == Load(folder, files)
    ensures result.Combined? ==> SortedByKey(result.bars)
  {
    var allData: seq<seq<PriceBar>> := [];
    var skipped: seq<Skip> := [];
    for i := 0 to |files|
      invariant Gather(folder, files[..i]) == Gathered(allData, skipped)
    {
      var file := files[i];
      assert files[..i + 1][..i] == files[..i];
      var ticker := TickerOf(file);
      if file !in folder {
        skipped := skipped + [Skip(file, FileNotFound)];
      } else if folder[file].Malformed? {
        skipped := skipped + [Skip(file, UnreadableFile)];
      } else {
        var df := folder[file].table;
        if !df.hasDate {
          AbortPropagates(folder, files, i + 1);
          return KeyErrorAbort(file);
        }
        if !DatesParse(df.rows) {
          skipped := skipped + [Skip(file, UnparsableDate)];
        } else {
          var missing := CheckRequiredColumns(df.columns);
          if missing.Some? {
            skipped := skipped + [Skip(file, MissingColumn(missing.value))];
          } else {
            allData := allData + [KeptBars(ticker, df.rows)];
          }
        }
      }
    }
    assert files[..|files|] == files;
    if allData == [] {
      return NoValidData(skipped);
    }
    return Combined(SortBars(Flatten(allData)), skipped);
  }

  /** The number of rows the loaded files keep after `dropna`. */
  function KeptRowCount(folder: map<string, CsvFile>, files: seq<string>): nat
  {
    if files == [] then 0
    else
      var o := LoadFile(folder, files[|files| - 1]);
      KeptRowCount(folder, files[..|files| - 1]) + (if o.Loaded? then |o.bars| else 0)
  }

  lemma FlattenAppend(frames: seq<seq<PriceBar>>, bars: seq<PriceBar>)
    ensures Flatten(frames + [bars]) == Flatten(frames) + bars
  {
    assert (frames + [bars])[..|frames|] == frames;
  }

  /** The loop stops exactly when some file lacks a `Date` column, and then at
      the first such file. */
  lemma {:induction false} GatherAbortSpec(folder: map<string, CsvFile>, files: seq<string>)
    ensures Gather(folder, files).Aborted? <==>
      exists i :: 0 <= i < |files| && LoadFile(folder, files[i]).DateColumnMissing?
    ensures Gather(folder, files).Aborted? ==>
      exists i :: (0 <= i < |files| && files[i] == Gather(folder, files).file &&
                   LoadFile(folder, files[i]).DateColumnMissing? &&
                   forall j :: 0 <= j < i ==> !LoadFile(folder, files[j]).DateColumnMissing?)
  {
    if files != [] {
      var n := |files|;
      var pre := files[..n - 1];
      GatherAbortSpec(folder, pre);
      assert forall i :: 0 <= i < n - 1 ==> files[i] == pre[i];
    }
  }

  /** When the loop runs to the end, it has gathered no frame exactly when every
      file was skipped. */
  lemma {:induction false} GatherEmptyIff(folder: map<string, CsvFile>, files: seq<string>)
    requires Gather(folder, files).Gathered?
    ensures Gather(folder, files).frames == [] <==>
      forall i :: 0 <= i < |files| ==> LoadFile(folder, files[i]).Skipped?
  {
    if files != [] {
      var pre := files[..|files| - 1];
      GatherEmptyIff(folder, pre);
      assert forall i :: 0 <= i < |files| - 1 ==> files[i] == pre[i];
    }
  }

  /** The gathered frames hold one row per kept row of the loaded files. */
  lemma {:induction false} GatherCount(folder: map<string, CsvFile>, files: seq<string>)
    requires Gather(folder, files).Gathered?
    ensures |Flatten(Gather(folder, files).frames)| == KeptRowCount(folder, files)
  {
    if files != [] {
      var pre := files[..|files| - 1];
      GatherCount(folder, pre);
      var o := LoadFile(folder, files[|files| - 1]);
      if o.Loaded? {
        FlattenAppend(Gather(folder, pre).frames, o.bars);
      }
    }
  }

  /** `b` is a kept row of one of the loaded files. */
  predicate KeptIn(folder: map<string, CsvFile>, files: seq<string>, b: PriceBar)
  {
    exists i :: 0 <= i < |files| && LoadFile(folder, files[i]).Loaded? && b in LoadFile(folder, files[i]).bars
  }

  /** The gathered frames hold exactly the kept rows of the loaded files. */
  lemma {:induction false} GatherMembers(folder: map<string, CsvFile>, files: seq<string>)
    requires Gather(folder, files).Gathered?
    ensures forall b :: b in Flatten(Gather(folder, files).frames) <==> KeptIn(folder, files, b)
  {
    if files != [] {
      var n := |files|;
      var pre := files[..n - 1];
      GatherMembers(folder, pre);
      var frames := Gather(folder, pre).frames;
      var o := LoadFile(folder, files[n - 1]);
      var all := Flatten(Gather(folder, files).frames);
      if o.Loaded? {
        FlattenAppend(frames, o.bars);
        assert all == Flatten(frames) + o.bars;
      } else {
        assert all == Flatten(frames);
      }
      forall b ensures b in all <==> KeptIn(folder, files, b) {
        if b in Flatten(frames) {
          var i :| 0 <= i < |pre| && LoadFile(folder, pre[i]).Loaded? && b in LoadFile(folder, pre[i]).bars;
          assert files[i] == pre[i];
        }
        if KeptIn(folder, files, b) {
          var i :| 0 <= i < n && LoadFile(folder, files[i]).Loaded? && b in LoadFile(folder, files[i]).bars;
          if i < n - 1 {
            assert files[i] == pre[i];
            assert KeptIn(folder, pre, b);
          }
        }
      }
    }
  }

  /** Every logged skip names a file of the list and the reason it was skipped. */
  lemma {:induction false} GatherSkipLog(folder: map<string, CsvFile>, files: seq<string>)
    requires Gather(folder, files).Gathered?
    ensures forall k :: k in Gather(folder, files).skipped ==>
      k.file in files && LoadFile(folder, k.file) == Skipped(k.reason)
  {
    if files != [] {
      var pre := files[..|files| - 1];
      GatherSkipLog(folder, pre);
      assert forall f :: f in pre ==> f in files;
    }
  }

  /** Every file the loop skips is logged with its reason. */
  lemma {:induction false} GatherSkipsLogged(folder: map<string, CsvFile>, files: seq<string>)
    requires Gather(folder, files).Gathered?
    ensures forall i :: 0 <= i < |files| && LoadFile(folder, files[i]).Skipped? ==>
      Skip(files[i], LoadFile(folder, files[i]).reason) in Gather(folder, files).skipped
  {
    if files != [] {
      var n := |files|;
      var pre := files[..n - 1];
      GatherSkipsLogged(folder, pre);
      forall i | 0 <= i < n - 1 && LoadFile(folder, files[i]).Skipped?
        ensures Skip(files[i], LoadFile(folder, files[i]).reason) in Gather(folder, files).skipped
      {
        assert files[i] == pre[i];
      }
    }
  }

  /** `load_data` raises its `RuntimeError` exactly when every file was skipped. */
  lemma LoadNoValidDataIff(folder: map<string, CsvFile>, files: seq<string>)
    ensures Load(folder, files).NoValidData? <==>
      forall i :: 0 <= i < |files| ==> LoadFile(folder, files[i]).Skipped?
  {
    GatherAbortSpec(folder, files);
    if Gather(folder, files).Gathered? {
      GatherEmptyIff(folder, files);
    } else {
      var i :| 0 <= i < |files| && LoadFile(folder, files[i]).DateColumnMissing?;
    }
  }

  /** The `KeyError` escapes exactly when some file lacks a `Date` column, and
      it names the first such file. */
  lemma LoadKeyErrorIff(folder: map<string, CsvFile>, files: seq<string>)
    ensures Load(folder, files).KeyErrorAbort? <==>
      exists i :: 0 <= i < |files| && LoadFile(folder, files[i]).DateColumnMissing?
    ensures Load(folder, files).KeyErrorAbort? ==>
      exists i :: (0 <= i < |files| && files[i] == Load(folder, files).file &&
                   LoadFile(folder, files[i]).DateColumnMissing? &&
                   forall j :: 0 <= j < i ==> !LoadFile(folder, files[j]).DateColumnMissing?)
  {
    GatherAbortSpec(folder, files);
  }

  /** The combined table is ordered by (ticker, date) and has one row per kept
      row of the loaded files. */
  lemma LoadCombinedCount(folder: map<string, CsvFile>, files: seq<string>)
    requires Load(folder, files).Combined?
    ensures SortedByKey(Load(folder, files).bars)
    ensures |Load(folder, files).bars| == KeptRowCount(folder, files)
  {
    var all := Flatten(Gather(folder, files).frames);
    GatherCount(folder, files);
    var r := SortBars(all);
    assert |r| == |multiset(r)| == |multiset(all)| == |all|;
  }

  /** The combined table holds the kept rows of the loaded files and nothing
      else, so each row's ticker is that of a loaded file. */
  lemma LoadCombinedMembers(folder: map<string, CsvFile>, files: seq<string>)
    requires Load(folder, files).Combined?
    ensures forall b :: b in Load(folder, files).bars <==>
      exists i :: 0 <= i < |files| && LoadFile(folder, files[i]).Loaded? && b in LoadFile(folder, files[i]).bars
    ensures forall b :: b in Load(folder, files).bars ==>
      exists i :: 0 <= i < |files| && LoadFile(folder, files[i]).Loaded? && b.ticker == TickerOf(files[i])
  {
    var all := Flatten(Gather(folder, files).frames);
    GatherMembers(folder, files);
    var r := SortBars(all);
    forall b ensures b in r <==> b in all {
      assert b in r <==> b in multiset(r);
      assert b in all <==> b in multiset(all);
    }
    forall b | b in r
      ensures exists i :: 0 <= i < |files| && LoadFile(folder, files[i]).Loaded? && b.ticker == TickerOf(files[i])
    {
      var i :| 0 <= i < |files| && LoadFile(folder, files[i]).Loaded? && b in LoadFile(folder, files[i]).bars;
      LoadedTicker(folder, files[i], b);
    }
  }

  /** Every bar a file loads carries the ticker named by the file. */
  lemma LoadedTicker(folder: map<string, CsvFile>, file: string, b: PriceBar)
    requires LoadFile(folder, file).Loaded? && b in LoadFile(folder, file).bars
    ensures b.ticker == TickerOf(file)
  {
  }

  /** The files `load_data` reports as skipped are files of the list, each with
      the reason it could not be used. */
  lemma LoadSkipLog(folder: map<string, CsvFile>, files: seq<string>)
    requires !Load(folder, files).KeyErrorAbort?
    ensures forall k :: k in Load(folder, files).skipped ==>
      k.file in files && LoadFile(folder, k.file) == Skipped(k.reason)
    ensures forall i :: 0 <= i < |files| && LoadFile(folder, files[i]).Skipped? ==>
      Skip(files[i], LoadFile(folder, files[i]).reason) in Load(folder, files).skipped
  {
    GatherSkipLog(folder, files);
    GatherSkipsLogged(folder, files);
  }

  /** How the main block ends: the processed table, the fatal-error message it
      prints before exiting (lines 103-104), or the `KeyError` nobody catches. */
  datatype MainOutcome = Processed(bars: seq<PriceBar>) | FatalError(message: string) | UncaughtKeyError(file: string)

  const NoValidDataMessage := "No valid data loaded. Check paths and file integrity."

  function RunPipeline(folder: map<string, CsvFile>, files: seq<string>): (o: MainOutcome)
    ensures o.FatalError? <==> forall i :: 0 <= i < |files| ==> LoadFile(folder, files[i]).Skipped?
    ensures o.FatalError? ==> o.message == NoValidDataMessage
    ensures o.Processed? ==> SortedByKey(o.bars) && |o.bars| == KeptRowCount(folder, files)
  {
    LoadNoValidDataIff(folder, files);
    match Load(folder, files)
    case NoValidData(_) => FatalError(NoValidDataMessage)
    case KeyErrorAbort(f) => UncaughtKeyError(f)
    case Combined(bars, _) => LoadCombinedCount(folder, files); Processed(bars)
  }
}
