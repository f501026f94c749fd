/**
 * The enrichment pipeline: read the header, locate the coordinate columns,
 * write the augmented header, then either copy every data line with an
 * empty `RoadType` (no coordinate columns) or classify each row.
 *
 * Files are sequences of lines without their line terminators; the Overpass
 * service is the `Resolver.Overpass` function.
 */
module Pipeline {
  import Csv
  import Header
  import Trimming
  import Resolver

  /** Both coordinate positions fall inside the row and neither trimmed
      coordinate is empty: only then is the resolver consulted. */
  predicate HasCoordinates(fields: seq<string>, latIdx: nat, lonIdx: nat)
  {
    latIdx < |fields| && lonIdx < |fields| &&
    Trimming.Trimmed(fields[latIdx]) != "" && Trimming.Trimmed(fields[lonIdx]) != ""
  }

  /** The classification appended to a row. */
  function RoadTypeOf(query: Resolver.Overpass, fields: seq<string>, latIdx: nat, lonIdx: nat): (r: string)
    ensures !HasCoordinates(fields, latIdx, lonIdx) ==> r == ""
    ensures HasCoordinates(fields, latIdx, lonIdx) ==>
      r == Resolver.NotFound ||
      exists radius :: radius in Resolver.Radii &&
        Resolver.RadiusTag(query(Trimming.Trimmed(fields[latIdx]), Trimming.Trimmed(fields[lonIdx]), radius))
          == Resolver.Some(r)
  {
    if HasCoordinates(fields, latIdx, lonIdx) then
      var lat, lon := Trimming.Trimmed(fields[latIdx]), Trimming.Trimmed(fields[lonIdx]);
      Resolver.ResolveCases(query, lat, lon);
      assert 20 in Resolver.Radii && 50 in Resolver.Radii;
      Resolver.Resolve(query, lat, lon)
    else ""
  }

  /** The output line for one data line when both columns are known. */
  function EnrichedLine(query: Resolver.Overpass, line: string, latIdx: nat, lonIdx: nat): string
  {
    var fields := Csv.Split(line);
    Csv.RowText(fields, RoadTypeOf(query, fields, latIdx, lonIdx))
  }

  /** The output line for one data line in the no-coordinates mode: the raw
      line, a comma and an empty quoted field. */
  function FallbackLine(line: string): string
  {
    line + "," + Csv.Quote("")
  }

  /** The data lines of the classifying mode, one per input row. */
  function EnrichedRows(query: Resolver.Overpass, rows: seq<string>, latIdx: nat, lonIdx: nat): seq<string>
  {
    seq(|rows|, k requires 0 <= k < |rows| => EnrichedLine(query, rows[k], latIdx, lonIdx))
  }

  function FallbackRows(rows: seq<string>): seq<string>
  {
    if rows == [] then [] else FallbackRows(rows[..|rows| - 1]) + [FallbackLine(rows[|rows| - 1])]
  }

  /** Number of rows for which the resolver is consulted. */
  function Lookups(rows: seq<string>, latIdx: nat, lonIdx: nat): nat
  {
    if rows == [] then 0
    else Lookups(rows[..|rows| - 1], latIdx, lonIdx)
         + (if HasCoordinates(Csv.Split(rows[|rows| - 1]), latIdx, lonIdx) then 1 else 0)
  }

  /** What a run produces: nothing for an input without a header line, or
      the output lines and the number of rows sent to the resolver. */
  datatype Outcome = EmptyInput | Written(lines: seq<string>, lookups: nat)

  /** Reference definition of a run once the header line is split into
      `cols` and the data lines are `rows`. */
  function EnrichedFrom(query: Resolver.Overpass, cols: seq<string>, rows: seq<string>): Outcome
  {
    var latIdx := Header.ColumnIndex(cols, true);
    var lonIdx := Header.ColumnIndex(cols, false);
    var header := Csv.RowText(cols, Header.RoadTypeColumn);
    if latIdx < 0 || lonIdx < 0 then Written([header] + FallbackRows(rows), 0)
    else Written([header] + EnrichedRows(query, rows, latIdx, lonIdx), Lookups(rows, latIdx, lonIdx))
  }

  /** Reference definition of a whole run over the input lines. */
  function Enriched(query: Resolver.Overpass, input: seq<string>): Outcome
  {
    if input == [] then EmptyInput
    else EnrichedFrom(query, Csv.Split(input[0]), input[1..])
  }

  /** One data row: split, trim both coordinates, consult the resolver only
      when both are present, and write the fields plus the classification.
      `consulted` tells whether the resolver was called. */
  method ClassifyRow(query: Resolver.Overpass, line: string, latIdx: nat, lonIdx: nat)
    returns (out: string, consulted: bool)
    ensures consulted == HasCoordinates(Csv.Split(line), latIdx, lonIdx)
    ensures out == EnrichedLine(query, line, latIdx, lonIdx)
  {
    var fields := Csv.ParseCsvLine(line);
    var roadType := "";
    consulted := false;
    if latIdx < |fields| && lonIdx < |fields| {
      var lat := Trimming.Trim(fields[latIdx]);
      var lon := Trimming.Trim(fields[lonIdx]);
      if lat != "" && lon != "" {
        var queried;
        roadType, queried := Resolver.FindRoadType(query, lat, lon);
        consulted := true;
      }
    }
    out := Csv.FormatRow(fields, roadType);
  }

  /** An enriched line splits back into the input line's fields followed by
      the classification. */
  lemma EnrichedLineSplit(query: Resolver.Overpass, line: string, latIdx: nat, lonIdx: nat)
    ensures Csv.Split(EnrichedLine(query, line, latIdx, lonIdx))
         == Csv.Split(line) + [RoadTypeOf(query, Csv.Split(line), latIdx, lonIdx)]
  {
    var fields := Csv.Split(line);
    Csv.SplitFieldCount(line);
    Csv.SplitRowText(fields, RoadTypeOf(query, fields, latIdx, lonIdx));
  }

  /** The no-coordinates loop: each raw line followed by `,""`. */
  method CopyRows(rows: seq<string>) returns (out: seq<string>)
    ensures out == FallbackRows(rows)
  {
    out := [];
    var i := 0;
    while i < |rows|
      invariant 0 <= i <= |rows|
      invariant out == FallbackRows(rows[..i])
    {
      assert rows[..i + 1][..i] == rows[..i];
      var empty := Csv.QuoteCsv("");
      out := out + [rows[i] + "," + empty];
      i := i + 1;
    }
    assert rows[..i] == rows;
  }

  /** Extending the processed prefix by one row adds that row's line and,
      when it has coordinates, one lookup. */
  lemma RowsPrefix(query: Resolver.Overpass, rows: seq<string>, latIdx: nat, lonIdx: nat, i: nat)
    requires i < |rows|
    ensures EnrichedRows(query, rows[..i + 1], latIdx, lonIdx)
         == EnrichedRows(query, rows[..i], latIdx, lonIdx) + [EnrichedLine(query, rows[i], latIdx, lonIdx)]
    ensures Lookups(rows[..i + 1], latIdx, lonIdx)
         == Lookups(rows[..i], latIdx, lonIdx) + if HasCoordinates(Csv.Split(rows[i]), latIdx, lonIdx) then 1 else 0
  {
    assert rows[..i + 1][..i] == rows[..i];
  }

  /** The main loop: each row classified in turn, counting the rows that
      needed the resolver. */
  method ClassifyRows(query: Resolver.Overpass, rows: seq<string>, latIdx: nat, lonIdx: nat)
    returns (out: seq<string>, lookups: nat)
    ensures out == EnrichedRows(query, rows, latIdx, lonIdx)
    ensures lookups == Lookups(rows, latIdx, lonIdx)
  {
    out := [];
    lookups := 0;
    var i := 0;
    while i < |rows|
      invariant 0 <= i <= |rows|
      invariant out == EnrichedRows(query, rows[..i], latIdx, lonIdx)
      invariant lookups == Lookups(rows[..i], latIdx, lonIdx)
    {
      var line, consulted := ClassifyRow(query, rows[i], latIdx, lonIdx);
      RowsPrefix(query, rows, latIdx, lonIdx, i);
      out := out + [line];
      if consulted {
        lookups := lookups + 1;
      }
      i := i + 1;
    }
    assert rows[..i] == rows;
  }

  /** The whole run over the lines of the input file. */
  method EnrichCsv(query: Resolver.Overpass, input: seq<string>) returns (result: Outcome)
    ensures result == Enriched(query, input)
    ensures input == [] <==> result.EmptyInput?
    ensures result.Written? ==> |result.lines| == |input|
  {
    if input == [] {
      return EmptyInput;
    }
    var cols := Csv.ParseCsvLine(input[0]);
    var latIdx, lonIdx := Header.DetectColumns(cols);
    var header := Header.WriteHeader(cols);
    if latIdx < 0 || lonIdx < 0 {
      var out := CopyRows(input[1..]);
      result := Written([header] + out, 0);
    } else {
      var out, lookups := ClassifyRows(query, input[1..], latIdx, lonIdx);
      result := Written([header] + out, lookups);
    }
    EnrichedShape(query, input);
  }

  lemma {:induction false} FallbackRowsAt(rows: seq<string>, k: nat)
    requires k < |rows|
    ensures |FallbackRows(rows)| == |rows|
    ensures FallbackRows(rows)[k] == rows[k] + ",\"\""
    decreases |rows|
  {
    var init := rows[..|rows| - 1];
    if k < |init| {
      FallbackRowsAt(init, k);
    } else if init != [] {
      FallbackRowsAt(init, 0);
    }
    assert Csv.Quote("") == "\"\"";
  }

  /** A run fails only on an input without a header line; otherwise it
      writes one line per input line, starting with the input's columns
      followed by `RoadType`, whether or not coordinates were found. */
  lemma EnrichedShape(query: Resolver.Overpass, input: seq<string>)
    ensures Enriched(query, input).EmptyInput? <==> input == []
    ensures input != [] ==>
      var lines := Enriched(query, input).lines;
      |lines| == |input| &&
      Csv.Split(lines[0]) == Csv.Split(input[0]) + [Header.RoadTypeColumn]
  {
    if input != [] {
      var cols := Csv.Split(input[0]);
      Csv.SplitFieldCount(input[0]);
      Csv.SplitRowText(cols, Header.RoadTypeColumn);
      EnrichedFromLength(query, cols, input[1..]);
    }
  }

  lemma EnrichedFromLength(query: Resolver.Overpass, cols: seq<string>, rows: seq<string>)
    ensures |EnrichedFrom(query, cols, rows).lines| == 1 + |rows|
    ensures EnrichedFrom(query, cols, rows).lines[0] == Csv.RowText(cols, Header.RoadTypeColumn)
  {
    if rows != [] {
      FallbackRowsAt(rows, 0);
    }
  }

  /** Without both coordinate columns, every data line is copied verbatim
      with `,""` appended, the resolver is never consulted, and the output
      does not depend on what the service would answer. */
  lemma FallbackMode(q1: Resolver.Overpass, q2: Resolver.Overpass, cols: seq<string>, rows: seq<string>, k: nat)
    requires Header.ColumnIndex(cols, true) < 0 || Header.ColumnIndex(cols, false) < 0
    ensures EnrichedFrom(q1, cols, rows) == EnrichedFrom(q2, cols, rows)
    ensures EnrichedFrom(q1, cols, rows).lookups == 0
    ensures |EnrichedFrom(q1, cols, rows).lines| == 1 + |rows|
    ensures k < |rows| ==> EnrichedFrom(q1, cols, rows).lines[k + 1] == rows[k] + ",\"\""
  {
    if k < |rows| {
      FallbackRowsAt(rows, k);
    } else if rows != [] {
      FallbackRowsAt(rows, 0);
    }
  }

  /** With both coordinate columns, data line `k` is the enriched form of
      input row `k`. */
  lemma ClassifiedLine(query: Resolver.Overpass, cols: seq<string>, rows: seq<string>, k: nat)
    requires Header.ColumnIndex(cols, true) >= 0 && Header.ColumnIndex(cols, false) >= 0
    requires k < |rows|
    ensures var lines := EnrichedFrom(query, cols, rows).lines;
      |lines| == 1 + |rows| &&
      lines[k + 1] == EnrichedLine(query, rows[k], Header.ColumnIndex(cols, true), Header.ColumnIndex(cols, false))
  {
    var latIdx, lonIdx := Header.ColumnIndex(cols, true), Header.ColumnIndex(cols, false);
    var body := EnrichedRows(query, rows, latIdx, lonIdx);
    assert EnrichedFrom(query, cols, rows).lines == [Csv.RowText(cols, Header.RoadTypeColumn)] + body;
    assert body[k] == EnrichedLine(query, rows[k], latIdx, lonIdx);
  }

  /** With both coordinate columns, every data line is written as its own
      fields plus the classification, which splits back into exactly that. */
  lemma ClassifiedMode(query: Resolver.Overpass, cols: seq<string>, rows: seq<string>, k: nat)
    requires Header.ColumnIndex(cols, true) >= 0 && Header.ColumnIndex(cols, false) >= 0
    requires k < |rows|
    ensures var latIdx := Header.ColumnIndex(cols, true);
      var lonIdx := Header.ColumnIndex(cols, false);
      |EnrichedFrom(query, cols, rows).lines| == 1 + |rows| &&
      Csv.Split(EnrichedFrom(query, cols, rows).lines[k + 1])
        == Csv.Split(rows[k]) + [RoadTypeOf(query, Csv.Split(rows[k]), latIdx, lonIdx)]
  {
    var latIdx := Header.ColumnIndex(cols, true);
    var lonIdx := Header.ColumnIndex(cols, false);
    ClassifiedLine(query, cols, rows, k);
    EnrichedLineSplit(query, rows[k], latIdx, lonIdx);
  }

  /** Per-row fallbacks: a missing or blank coordinate gives an empty
      classification without a lookup, while a lookup for which every
      request fails gives the "NA" sentinel, never the empty string. */
  lemma RowFallbacks(query: Resolver.Overpass, fields: seq<string>, latIdx: nat, lonIdx: nat)
    ensures (latIdx >= |fields| || lonIdx >= |fields|) ==> RoadTypeOf(query, fields, latIdx, lonIdx) == ""
    ensures latIdx < |fields| && Trimming.AllSpace(fields[latIdx]) ==>
      RoadTypeOf(query, fields, latIdx, lonIdx) == ""
    ensures lonIdx < |fields| && Trimming.AllSpace(fields[lonIdx]) ==>
      RoadTypeOf(query, fields, latIdx, lonIdx) == ""
    ensures HasCoordinates(fields, latIdx, lonIdx) ==>
      var lat := Trimming.Trimmed(fields[latIdx]);
      var lon := Trimming.Trimmed(fields[lonIdx]);
      (forall radius :: query(lat, lon, radius) == Resolver.NoBody) ==>
        RoadTypeOf(query, fields, latIdx, lonIdx) == Resolver.NotFound
  {
    if latIdx < |fields| {
      Trimming.TrimmedEmpty(fields[latIdx]);
    }
    if lonIdx < |fields| {
      Trimming.TrimmedEmpty(fields[lonIdx]);
    }
    if HasCoordinates(fields, latIdx, lonIdx) {
      Resolver.ResolveCases(query, Trimming.Trimmed(fields[latIdx]), Trimming.Trimmed(fields[lonIdx]));
    }
  }
}
