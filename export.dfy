/** The export step the scripts share: the command-line choice between a spreadsheet, a
    delimited-text file or both; the side effects of saving a non-empty batch; the output
    file names; and the cells the spreadsheet writer emits. */
module Export {
  import opened Wrappers
  import opened Text
  import opened Seqs
  import opened OrderedDict

  /** The operator's answer, once read. */
  datatype Choice = Excel | Csv | Both | Invalid

  /** The answer that selects each valid choice. */
  function ChoiceName(c: Choice): string
    requires c != Invalid
  {
    match c
    case Excel => "excel"
    case Csv => "csv"
    case Both => "both"
  }

  /** How `input(...).strip().lower()` is read. */
  function ParseChoice(answer: string): Choice {
    Classify(Lower(Strip(answer)))
  }

  /** The three accepted answers, compared exactly. */
  function Classify(choice: string): Choice {
    if choice == "excel" then Excel
    else if choice == "csv" then Csv
    else if choice == "both" then Both
    else Invalid
  }

  /** A valid choice is read exactly from its own name, lower-cased after stripping; every
      other answer is invalid. */
  lemma ParseChoiceNames(answer: string, c: Choice)
    requires c != Invalid
    ensures ParseChoice(answer) == c <==> Lower(Strip(answer)) == ChoiceName(c)
  {
  }

  /** Whatever the case of the letters and whatever whitespace surrounds it, a choice's name
      selects that choice. */
  lemma ParseChoicePadded(before: string, word: string, after: string, c: Choice)
    requires AllSpace(before) && AllSpace(after)
    requires c != Invalid && Lower(word) == ChoiceName(c)
    ensures ParseChoice(before + word + after) == c
  {
    var name := ChoiceName(c);
    LowerAt(word);
    assert LowerChar(word[0]) == name[0] && LowerChar(word[|word| - 1]) == name[|name| - 1];
    assert !IsSpace(name[0]) && !IsSpace(name[|name| - 1]);
    StripPadded(before, word, after);
  }

  /** Where a script saves its files, what it calls them, and the order in which the answer
      `both` writes them. */
  datatype Site = Site(directory: string, stem: string, csvFirst: bool)

  /** What the script tells the operator when it writes nothing. */
  datatype Message = NoData | InvalidChoice

  /** One observable step of saving a batch. */
  datatype Effect =
    | MakeDirectory(path: string)
    | AskChoice
    | WriteExcel(path: string)
    | WriteCsv(path: string)
    | Report(message: Message)

  /** `os.path.join(directory, f'{stem}_{timestamp}.{extension}')`. */
  function OutputPath(site: Site, timestamp: string, extension: string): string {
    site.directory + "/" + site.stem + "_" + timestamp + "." + extension
  }

  /** The two files of one batch share everything but the extension, so they sit side by
      side in the same directory under the same timestamped stem. */
  lemma OutputPathsDiffer(site: Site, timestamp: string)
    ensures var stem := site.directory + "/" + site.stem + "_" + timestamp + ".";
            && OutputPath(site, timestamp, "xlsx") == stem + "xlsx"
            && OutputPath(site, timestamp, "csv") == stem + "csv"
            && OutputPath(site, timestamp, "xlsx") != OutputPath(site, timestamp, "csv")
  {
    var stem := site.directory + "/" + site.stem + "_" + timestamp + ".";
    assert |stem + "xlsx"| != |stem + "csv"|;
  }

  /** Batches saved under different timestamps never share a file name, so a later run
      does not overwrite an earlier one; a file name ends in its own extension. */
  lemma OutputPathsPerTimestamp(site: Site, t1: string, t2: string, extension: string)
    ensures OutputPath(site, t1, extension) == OutputPath(site, t2, extension) ==> t1 == t2
    ensures var p := OutputPath(site, t1, extension);
            p[|p| - |extension| - 1..] == "." + extension
  {
    var p1 := OutputPath(site, t1, extension);
    var p2 := OutputPath(site, t2, extension);
    var lo := |site.directory| + 1 + |site.stem| + 1;
    assert p1 == (site.directory + "/" + site.stem + "_") + t1 + ("." + extension);
    assert p2 == (site.directory + "/" + site.stem + "_") + t2 + ("." + extension);
    if p1 == p2 {
      assert p1[lo..|p1| - |extension| - 1] == t1;
      assert p2[lo..|p2| - |extension| - 1] == t2;
    }
  }

  /** The files written for each choice; an invalid choice writes nothing and says so. */
  function Writes(site: Site, choice: Choice, timestamp: string): seq<Effect> {
    var excel := WriteExcel(OutputPath(site, timestamp, "xlsx"));
    var csv := WriteCsv(OutputPath(site, timestamp, "csv"));
    match choice
    case Excel => [excel]
    case Csv => [csv]
    case Both => if site.csvFirst then [csv, excel] else [excel, csv]
    case Invalid => [Report(InvalidChoice)]
  }

  /** `excel` writes only the spreadsheet, `csv` only the text file, `both` writes both, and
      anything else writes neither. */
  lemma WritesChosenFiles(site: Site, choice: Choice, timestamp: string)
    ensures (exists e :: e in Writes(site, choice, timestamp) && e.WriteExcel?) <==> (choice == Excel || choice == Both)
    ensures (exists e :: e in Writes(site, choice, timestamp) && e.WriteCsv?) <==> (choice == Csv || choice == Both)
    ensures choice == Invalid ==> Writes(site, choice, timestamp) == [Report(InvalidChoice)]
  {
    var w := Writes(site, choice, timestamp);
    if choice == Excel || choice == Both {
      assert WriteExcel(OutputPath(site, timestamp, "xlsx")) in w;
    }
    if choice == Csv || choice == Both {
      assert WriteCsv(OutputPath(site, timestamp, "csv")) in w;
    }
  }

  /** The `__main__` block of a script after scraping: with no rows it only reports that
      there is nothing to save; otherwise it creates the output directory if it is missing,
      asks for the export kind, and dispatches on the answer as `ParseChoice` reads it. */
  method SaveListings<R>(site: Site, data: seq<R>, directoryExists: bool, answer: string, timestamp: string)
    returns (effects: seq<Effect>)
    ensures |data| == 0 ==> effects == [Report(NoData)]
    ensures |data| > 0 ==> effects == (if directoryExists then [] else [MakeDirectory(site.directory)])
                                      + [AskChoice] + Writes(site, ParseChoice(answer), timestamp)
  {
    if |data| == 0 {
      return [Report(NoData)];
    }
    effects := [];
    if !directoryExists {
      effects := effects + [MakeDirectory(site.directory)];
    }
    effects := effects + [AskChoice];
    var excel := WriteExcel(OutputPath(site, timestamp, "xlsx"));
    var csv := WriteCsv(OutputPath(site, timestamp, "csv"));
    var choice := Lower(Strip(answer));
    if choice == "excel" {
      effects := effects + [excel];
    } else if choice == "csv" {
      effects := effects + [csv];
    } else if choice == "both" {
      if site.csvFirst {
        effects := effects + [csv, excel];
      } else {
        effects := effects + [excel, csv];
      }
    } else {
      effects := effects + [Report(InvalidChoice)];
    }
  }

  /** The style of a spreadsheet cell: the header style, or one of the two alternating row
      backgrounds. */
  datatype CellFormat = HeaderFormat | Band(index: nat)

  /** One `worksheet.write(row, col, value, format)` call. */
  datatype CellWrite = CellWrite(row: nat, col: nat, value: string, format: CellFormat)

  /** `row_formats[row_num % 2]`: which of the two row backgrounds data row `rowNum` gets. */
  function RowFormat(rowNum: nat): (i: nat)
    ensures i < 2
  {
    rowNum % 2
  }

  /** Two adjacent rows never share a background, and the pattern repeats every two rows. */
  lemma AdjacentRowsDiffer(rowNum: nat)
    ensures RowFormat(rowNum) != RowFormat(rowNum + 1)
    ensures RowFormat(rowNum) == RowFormat(rowNum + 2)
  {
  }

  /** `for col_num, value in enumerate(columns): worksheet.write(0, col_num, value, header_format)`. */
  method WriteHeader(columns: seq<string>) returns (cells: seq<CellWrite>)
    ensures |cells| == |columns|
    ensures forall c :: 0 <= c < |columns| ==> cells[c] == CellWrite(0, c, columns[c], HeaderFormat)
  {
    cells := [];
    for c := 0 to |columns|
      invariant |cells| == c
      invariant forall k :: 0 <= k < c ==> cells[k] == CellWrite(0, k, columns[k], HeaderFormat)
    {
      cells := cells + [CellWrite(0, c, columns[c], HeaderFormat)];
    }
  }

  /** The cells of one data row, in column order. */
  function RowCells(row: seq<string>, rowNum: nat): (cells: seq<CellWrite>)
    ensures |cells| == |row|
    ensures forall c :: 0 <= c < |row| ==> cells[c] == CellWrite(rowNum, c, row[c], Band(RowFormat(rowNum)))
  {
    if row == [] then [] else RowCells(row[..|row| - 1], rowNum) + [CellWrite(rowNum, |row| - 1, row[|row| - 1], Band(RowFormat(rowNum)))]
  }

  /** The cells of consecutive data rows, the first of them numbered `first`. */
  function BandedCells(rows: seq<seq<string>>, first: nat): seq<CellWrite> {
    if rows == [] then [] else BandedCells(rows[..|rows| - 1], first) + RowCells(rows[|rows| - 1], first + |rows| - 1)
  }

  /** Every cell of `BandedCells(rows, first)` holds the value at its row and column and has
      the background its row number selects; the header row is never among them. */
  lemma {:induction false} BandedCellsShape(rows: seq<seq<string>>, first: nat)
    ensures forall w :: w in BandedCells(rows, first) ==>
              && first <= w.row < first + |rows|
              && w.col < |rows[w.row - first]|
              && w.value == rows[w.row - first][w.col]
              && w.format == Band(RowFormat(w.row))
  {
    if rows != [] {
      var init := rows[..|rows| - 1];
      BandedCellsShape(init, first);
      forall w | w in BandedCells(rows, first)
        ensures && first <= w.row < first + |rows|
                && w.col < |rows[w.row - first]|
                && w.value == rows[w.row - first][w.col]
                && w.format == Band(RowFormat(w.row))
      {
        if w in BandedCells(init, first) {
          assert rows[w.row - first] == init[w.row - first];
        }
      }
    }
  }

  /** Every value of the table is written: the cell at row `r` and column `c` of `rows`
      appears in sheet row `first + r` with that row's background. */
  lemma {:induction false} BandedCellsComplete(rows: seq<seq<string>>, first: nat, r: nat, c: nat)
    requires r < |rows| && c < |rows[r]|
    ensures CellWrite(first + r, c, rows[r][c], Band(RowFormat(first + r))) in BandedCells(rows, first)
  {
    var init := rows[..|rows| - 1];
    var last := RowCells(rows[|rows| - 1], first + |rows| - 1);
    assert BandedCells(rows, first) == BandedCells(init, first) + last;
    if r < |rows| - 1 {
      assert init[r] == rows[r];
      BandedCellsComplete(init, first, r, c);
    } else {
      assert last[c] == CellWrite(first + r, c, rows[r][c], Band(RowFormat(first + r)));
    }
  }

  /** The data loop of the spreadsheet writer: `for row_num, row_data in enumerate(rows, 1)`,
      then each cell of that row with `row_formats[row_num % 2]`. */
  method WriteRows(rows: seq<seq<string>>) returns (cells: seq<CellWrite>)
    ensures cells == BandedCells(rows, 1)
  {
    cells := [];
    for r := 0 to |rows|
      invariant cells == BandedCells(rows[..r], 1)
    {
      var rowNum := r + 1;
      var rowFormat := RowFormat(rowNum);
      var rowData := rows[r];
      ghost var before := cells;
      for c := 0 to |rowData|
        invariant cells == before + RowCells(rowData[..c], rowNum)
      {
        cells := cells + [CellWrite(rowNum, c, rowData[c], Band(rowFormat))];
        assert rowData[..c + 1][..c] == rowData[..c];
      }
      assert rowData[..|rowData|] == rowData;
      assert rows[..r + 1][..r] == rows[..r];
    }
    assert rows[..|rows|] == rows;
  }

  /** The table a DataFrame builds from a batch whose records share one key order: one row
      per record, holding its values in key order. */
  function Tabulate(data: seq<Dict>): (table: seq<seq<string>>)
    ensures |table| == |data|
    ensures forall i :: 0 <= i < |data| ==> table[i] == Values(data[i])
  {
    MapSeq(data, Values)
  }

  /** Row `i` of the table holds record `i`'s values in its key order: column `c` is the
      value the record gives its `c`-th key. */
  lemma TabulateGet(data: seq<Dict>, i: nat, c: nat)
    requires i < |data| && UniqueKeys(data[i]) && c < |data[i]|
    ensures c < |Tabulate(data)[i]|
    ensures Get(data[i], Keys(data[i])[c]) == Some(Tabulate(data)[i][c])
  {
    GetEntry(data[i], c);
  }
}
