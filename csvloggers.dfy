/**
  The CSV loggers of rsttace/output/__init__.py: `RelTableLogger` writes a relation table
  and `CompTableLogger` a comparison table, each as a header followed by one row per
  entry, and neither writes anything when its output path is blank. A file is modelled
  by the rows written to it; opening it, its encoding and the quoting of the CSV writer
  are not part of this model.
*/
module CsvLoggers {
  import opened Wrappers
  import opened RelationsTable
  import opened ComparisonModel
  import opened TableOutputs

  /** A CSV file opened for writing: its path and the rows written so far. */
  class CsvFile {
    const path: string
    var rows: seq<seq<string>>

    /** `open(path, 'w')`: a new file holds no rows. */
    constructor (path: string)
      ensures this.path == path && rows == []
    {
      this.path := path;
      rows := [];
    }

    /** `csvWriter.writerow(row)`: `row` follows the rows written before it. */
    method WriteRow(row: seq<string>)
      modifies this
      ensures rows == old(rows) + [row]
    {
      rows := rows + [row];
    }
  }

  /**
    Writing the rows of comparison `i` after those of the comparisons before it extends the
    rows to those of the first `i + 1` comparisons, with the numbering carried on.
  */
  lemma WriteStep(before: seq<seq<string>>, written: seq<seq<string>>, comps: seq<Comparison>, i: nat,
                  biasID: nat, csvRows: seq<seq<string>>)
    requires i < |comps| && written == before + Render(RowsUpTo(comps, i))
    requires i + biasID == |written| - |before| + 1
    requires csvRows == Render(RowsFor(comps[i], i + biasID))
    ensures |csvRows| == if comps[i].matchingDistance == NoMatching then 2 else 1
    ensures written + csvRows == before + Render(RowsUpTo(comps, i + 1))
    ensures var nextBias := if comps[i].matchingDistance == NoMatching then biasID + 1 else biasID;
            i + 1 + nextBias == |written + csvRows| - |before| + 1
  {
    DataframeStep(comps, i, Render(RowsUpTo(comps, i)), biasID, csvRows);
    assert written + csvRows == before + (Render(RowsUpTo(comps, i)) + csvRows);
  }

  /** `RelTableLogger(outputFile)` */
  class RelTableLogger {
    const outputFile: string

    constructor (outputFile: string)
      ensures this.outputFile == outputFile
    {
      this.outputFile := outputFile;
    }

    /**
      `write(relTable)`: no file when the path is blank; otherwise a new file at the path
      holding the 9-column header and then one entry per record, in table order.
    */
    method Write(relTable: RelTable) returns (file: Option<CsvFile>)
      ensures file.None? <==> !IsNotEmpty(outputFile)
      ensures file.Some? ==>
        fresh(file.value) && file.value.path == outputFile
        && file.value.rows == [RelCsvHeader()] + RelationRows(relTable.relations)
    {
      var header := RelCsvHeader();
      var writeFile := IsNotEmpty(outputFile);
      if !writeFile {
        return None;
      }
      var csvFile := new CsvFile(outputFile);
      csvFile.WriteRow(header);
      WriteRelations(csvFile, relTable);
      return Some(csvFile);
    }

    /** The loop of `write`: one entry per record of `relTable`, in table order. */
    method WriteRelations(csvFile: CsvFile, relTable: RelTable)
      modifies csvFile
      ensures csvFile.rows == old(csvFile.rows) + RelationRows(relTable.relations)
    {
      ghost var before := csvFile.rows;
      var relations := relTable.Elements();
      for i := 0 to |relations|
        invariant |csvFile.rows| == |before| + i && csvFile.rows[..|before|] == before
        invariant forall k :: 0 <= k < i ==> csvFile.rows[|before| + k] == RelCsvEntry(relations[k])
      {
        var csvRow := RelCsvEntry(relations[i]);
        csvFile.WriteRow(csvRow);
      }
      assert csvFile.rows == before + RelationRows(relations) by {
        forall k | 0 <= k < |relations| ensures csvFile.rows[|before| + k] == RelationRows(relations)[k] {
        }
      }
    }
  }

  /** `CompTableLogger(outputFile)` */
  class CompTableLogger {
    const outputFile: string

    constructor (outputFile: string)
      ensures this.outputFile == outputFile
    {
      this.outputFile := outputFile;
    }

    /**
      `write(compTable)`: no file when the path is blank; otherwise a new file at the path
      with `.csv` appended, holding the 29-column header and then the comparison rows with
      consecutive IDs from 1: two rows for a comparison without matching, one otherwise.
    */
    method Write(compTable: ComparisonTable) returns (file: Option<CsvFile>)
      ensures file.None? <==> !IsNotEmpty(outputFile)
      ensures file.Some? ==>
        fresh(file.value) && file.value.path == outputFile + ".csv"
        && file.value.rows == [CompCsvHeader()] + Render(ComparisonRows(compTable.comparisons))
    {
      var header := CompCsvHeader();
      var writeFile := IsNotEmpty(outputFile);
      if !writeFile {
        return None;
      }
      var csvFile := new CsvFile(outputFile + ".csv");
      csvFile.WriteRow(header);
      WriteComparisons(csvFile, compTable);
      return Some(csvFile);
    }

    /**
      The loop of `write`: the rows of each comparison in table order, numbered on from 1,
      where `biasID` counts the comparisons without matching seen so far, plus one.
    */
    method WriteComparisons(csvFile: CsvFile, compTable: ComparisonTable)
      modifies csvFile
      ensures csvFile.rows == old(csvFile.rows) + Render(ComparisonRows(compTable.comparisons))
    {
      ghost var before := csvFile.rows;
      ghost var comps := compTable.comparisons;
      var biasID := 1;
      var length := compTable.Length();
      for i := 0 to length
        invariant csvFile.rows == before + Render(RowsUpTo(comps, i))
        invariant i + biasID == |csvFile.rows| - |before| + 1
      {
        var comp := compTable.Get(i);
        ghost var written := csvFile.rows;
        WriteComparison(csvFile, comp, i + biasID);
        WriteStep(before, written, comps, i, biasID, Render(RowsFor(comp, i + biasID)));
        if comp.matchingDistance == NoMatching {
          biasID := biasID + 1;
        }
      }
    }

    /**
      The body of the loop of `write` for comparison `comp` with ID `id`: a comparison
      without matching is written as two rows with IDs `id` and `id + 1`, any other as one.
    */
    method WriteComparison(csvFile: CsvFile, comp: Comparison, id: nat)
      modifies csvFile
      ensures csvFile.rows == old(csvFile.rows) + Render(RowsFor(comp, id))
    {
      var csvRows := CreateComparisonCsvRows(comp, id);
      if comp.matchingDistance == NoMatching {
        csvFile.WriteRow(csvRows[0]);
        csvFile.WriteRow(csvRows[1]);
        assert csvRows == [csvRows[0], csvRows[1]];
      } else {
        csvFile.WriteRow(csvRows[0]);
        assert csvRows == [csvRows[0]];
      }
    }
  }
}
