/**
 * A worked run of the pipeline: a three-column file with one data row, and
 * a service that answers every request with a single `residential` way.
 *
 * Several lemmas below take the example's rows, fields and lines as
 * parameters pinned by a `requires` (`requires cols == ["name", ...]`)
 * instead of writing the literals into their bodies. With the literals in
 * scope the verifier unfolds the splitter and the row writer on them
 * character by character; as parameters, the general lemmas of `Csv` and
 * `Pipeline` apply first and the literals are only compared at the end,
 * one short concatenation per lemma.
 */
module Scenario {
  import Csv
  import Header
  import Trimming
  import Resolver
  import Pipeline

  /** A service whose every response lists one way tagged
      `highway=residential`. */
  const AlwaysResidential: Resolver.Overpass :=
    (lat: string, lon: string, radius: int) =>
      Resolver.Document(Resolver.Some([Resolver.Element(Resolver.Some(Resolver.Text("residential")))]))

  lemma SplitHeaderLine()
    ensures Csv.Split("name,latitude,longitude") == ["name", "latitude", "longitude"]
  {
    var cols := ["name", "latitude", "longitude"];
    assert cols[..2] == ["name", "latitude"] && cols[..2][..1] == ["name"];
    assert Csv.JoinPlain(cols) == "name,latitude,longitude";
    Csv.SplitJoinPlain(cols);
  }

  lemma SplitDataLine()
    ensures Csv.Split("A,47.6,-122.3") == ["A", "47.6", "-122.3"]
  {
    var fields := ["A", "47.6", "-122.3"];
    assert fields[..2] == ["A", "47.6"] && fields[..2][..1] == ["A"];
    assert Csv.JoinPlain(fields) == "A,47.6,-122.3";
    Csv.SplitJoinPlain(fields);
  }

  /** The three header names are already lower case. */
  lemma LowerNames()
    ensures Header.Lower("name") == "name"
    ensures Header.Lower("latitude") == "latitude"
    ensures Header.Lower("longitude") == "longitude"
  {
  }

  lemma HeaderColumns()
    ensures Header.ColumnIndex(["name", "latitude", "longitude"], true) == 1
    ensures Header.ColumnIndex(["name", "latitude", "longitude"], false) == 2
  {
    var cols := ["name", "latitude", "longitude"];
    assert cols[..2] == ["name", "latitude"];
    assert cols[..2][..1] == ["name"] && cols[..2][..1][..0] == [];
    LowerNames();
  }

  lemma RowResolved()
    ensures Pipeline.RoadTypeOf(AlwaysResidential, ["A", "47.6", "-122.3"], 1, 2) == "residential"
  {
    var fields := ["A", "47.6", "-122.3"];
    Trimming.TrimmedFixed("47.6");
    Trimming.TrimmedFixed("-122.3");
    assert Pipeline.HasCoordinates(fields, 1, 2);
    Resolver.ResolveCases(AlwaysResidential, "47.6", "-122.3");
    var resp := AlwaysResidential("47.6", "-122.3", 20);
    assert Resolver.FirstTagged(resp.elements.value) == Resolver.Some(0);
  }

  lemma RowsWritten(rows: seq<string>, fields: seq<string>, tag: string)
    requires rows == ["A,47.6,-122.3"] && fields == ["A", "47.6", "-122.3"] && tag == "residential"
    ensures Pipeline.EnrichedRows(AlwaysResidential, rows, 1, 2) == [Csv.RowText(fields, tag)]
  {
    assert Pipeline.EnrichedLine(AlwaysResidential, rows[0], 1, 2) == Csv.RowText(fields, tag) by {
      SplitDataLine();
      RowResolved();
    }
  }

  lemma RowsLookedUp(rows: seq<string>, fields: seq<string>)
    requires rows == ["A,47.6,-122.3"] && fields == ["A", "47.6", "-122.3"]
    ensures Pipeline.Lookups(rows, 1, 2) == 1
  {
    assert rows[..0] == [];
    assert Pipeline.HasCoordinates(Csv.Split(rows[0]), 1, 2) by {
      SplitDataLine();
      Trimming.TrimmedFixed("47.6");
      Trimming.TrimmedFixed("-122.3");
      assert Pipeline.HasCoordinates(fields, 1, 2);
    }
  }

  lemma InputSplit(input: seq<string>)
    requires input == ["name,latitude,longitude", "A,47.6,-122.3"]
    ensures Pipeline.Enriched(AlwaysResidential, input)
      == Pipeline.EnrichedFrom(AlwaysResidential, ["name", "latitude", "longitude"], ["A,47.6,-122.3"])
  {
    assert input[1..] == ["A,47.6,-122.3"];
    SplitHeaderLine();
  }

  lemma OutputLines(cols: seq<string>, rows: seq<string>, fields: seq<string>, tag: string)
    requires cols == ["name", "latitude", "longitude"]
    requires rows == ["A,47.6,-122.3"] && fields == ["A", "47.6", "-122.3"] && tag == "residential"
    ensures var run := Pipeline.EnrichedFrom(AlwaysResidential, cols, rows);
      run.Written? && run.lookups == 1 && |run.lines| == 2 &&
      run.lines[0] == Csv.RowText(cols, Header.RoadTypeColumn) &&
      run.lines[1] == Csv.RowText(fields, tag)
  {
    HeaderColumns();
    ClassifiedFrom(cols, rows);
    RowsWritten(rows, fields, tag);
    RowsLookedUp(rows, fields);
  }

  /** Both output lines read back as the input fields followed by the
      appended value. */
  lemma ReadBack(cols: seq<string>, rows: seq<string>, fields: seq<string>, tag: string)
    requires cols == ["name", "latitude", "longitude"]
    requires rows == ["A,47.6,-122.3"] && fields == ["A", "47.6", "-122.3"] && tag == "residential"
    ensures var run := Pipeline.EnrichedFrom(AlwaysResidential, cols, rows);
      run.Written? && run.lookups == 1 && |run.lines| == 2 &&
      Csv.Split(run.lines[0]) == cols + [Header.RoadTypeColumn] &&
      Csv.Split(run.lines[1]) == fields + [tag]
  {
    OutputLines(cols, rows, fields, tag);
    Csv.SplitRowText(cols, Header.RoadTypeColumn);
    Csv.SplitRowText(fields, tag);
  }

  /** The run over the file `name,latitude,longitude` / `A,47.6,-122.3`,
      unfolded to the header columns and the one data row. */
  lemma ResidentialInput(input: seq<string>)
    requires input == ["name,latitude,longitude", "A,47.6,-122.3"]
    ensures var run := Pipeline.Enriched(AlwaysResidential, input);
      var cols := ["name", "latitude", "longitude"];
      var fields := ["A", "47.6", "-122.3"];
      run.Written? && run.lookups == 1 && |run.lines| == 2 &&
      Csv.Split(run.lines[0]) == cols + [Header.RoadTypeColumn] &&
      Csv.Split(run.lines[1]) == fields + ["residential"]
  {
    InputSplit(input);
    ReadBack(["name", "latitude", "longitude"], ["A,47.6,-122.3"], ["A", "47.6", "-122.3"], "residential");
  }

  /** A row of three quote-free fields and a quote-free appended value is
      written as those four texts, each between quotes, separated by commas. */
  lemma PlainRowText(cols: seq<string>, last: string)
    requires |cols| == 3
    requires '"' !in cols[0] && '"' !in cols[1] && '"' !in cols[2] && '"' !in last
    ensures Csv.RowText(cols, last)
      == ("\"" + cols[0] + "\"") + "," + ("\"" + cols[1] + "\"") + ","
       + ("\"" + cols[2] + "\"") + "," + ("\"" + last + "\"")
  {
    Csv.RowTextPlain(cols, last);
    var w := Csv.Wrapped(cols);
    assert w[..2][..1] == [w[0]] && w[..2][1] == w[1] && w[..|w| - 1] == w[..2];
    assert Csv.JoinPlain(w[..2]) == w[0] + "," + w[1];
    assert Csv.JoinPlain(w) == Csv.JoinPlain(w[..2]) + "," + w[2];
  }

  /** The literal header line, assembled field by field. */
  lemma HeaderFront()
    ensures ("\"" + "name" + "\"") + "," + ("\"" + "latitude" + "\"") + ","
      == "\"name\",\"latitude\","
  {
  }

  lemma HeaderMiddle()
    ensures "\"name\",\"latitude\"," + ("\"" + "longitude" + "\"") + ","
      == "\"name\",\"latitude\",\"longitude\","
  {
  }

  lemma HeaderBack()
    ensures "\"name\",\"latitude\",\"longitude\"," + ("\"" + "RoadType" + "\"")
      == "\"name\",\"latitude\",\"longitude\",\"RoadType\""
  {
  }

  /** The literal header line of the example. */
  lemma HeaderText(cols: seq<string>)
    requires cols == ["name", "latitude", "longitude"]
    ensures Csv.RowText(cols, Header.RoadTypeColumn)
      == "\"name\",\"latitude\",\"longitude\",\"RoadType\""
  {
    PlainRowText(cols, Header.RoadTypeColumn);
    HeaderFront();
    HeaderMiddle();
    HeaderBack();
  }

  /** The literal data line, assembled field by field. */
  lemma RowFront()
    ensures ("\"" + "A" + "\"") + "," + ("\"" + "47.6" + "\"") + ","
      == "\"A\",\"47.6\","
  {
  }

  lemma RowMiddle()
    ensures "\"A\",\"47.6\"," + ("\"" + "-122.3" + "\"") + ","
      == "\"A\",\"47.6\",\"-122.3\","
  {
  }

  lemma RowBack()
    ensures "\"A\",\"47.6\",\"-122.3\"," + ("\"" + "residential" + "\"")
      == "\"A\",\"47.6\",\"-122.3\",\"residential\""
  {
  }

  /** The literal data line of the example. */
  lemma DataLineText(fields: seq<string>, tag: string)
    requires fields == ["A", "47.6", "-122.3"] && tag == "residential"
    ensures Csv.RowText(fields, tag) == "\"A\",\"47.6\",\"-122.3\",\"residential\""
  {
    PlainRowText(fields, tag);
    RowFront();
    RowMiddle();
    RowBack();
  }

  /** A written outcome is determined by its two lines and its count. */
  lemma TwoLines(run: Pipeline.Outcome, a: string, b: string, n: nat)
    requires run.Written? && run.lookups == n && |run.lines| == 2
    requires run.lines[0] == a && run.lines[1] == b
    ensures run == Pipeline.Written([a, b], n)
  {
  }

  /** The output once the header is split: the two literal lines and one
      lookup. */
  lemma OutputText(cols: seq<string>, rows: seq<string>, fields: seq<string>, tag: string)
    requires cols == ["name", "latitude", "longitude"]
    requires rows == ["A,47.6,-122.3"] && fields == ["A", "47.6", "-122.3"] && tag == "residential"
    ensures Pipeline.EnrichedFrom(AlwaysResidential, cols, rows) == Pipeline.Written(
      ["\"name\",\"latitude\",\"longitude\",\"RoadType\"",
       "\"A\",\"47.6\",\"-122.3\",\"residential\""], 1)
  {
    OutputLines(cols, rows, fields, tag);
    TwoLines(Pipeline.EnrichedFrom(AlwaysResidential, cols, rows),
             Csv.RowText(cols, Header.RoadTypeColumn), Csv.RowText(fields, tag), 1);
    HeaderText(cols);
    DataLineText(fields, tag);
  }

  /** The whole output of the example, byte for byte: every field quoted,
      `RoadType` appended to the header, `residential` to the data line,
      and one lookup made. */
  lemma ResidentialOutput(input: seq<string>)
    requires input == ["name,latitude,longitude", "A,47.6,-122.3"]
    ensures Pipeline.Enriched(AlwaysResidential, input) == Pipeline.Written(
      ["\"name\",\"latitude\",\"longitude\",\"RoadType\"",
       "\"A\",\"47.6\",\"-122.3\",\"residential\""], 1)
  {
    InputSplit(input);
    OutputText(["name", "latitude", "longitude"], ["A,47.6,-122.3"], ["A", "47.6", "-122.3"], "residential");
  }

  /** With every request answered by a `residential` way, the file gives two
      lines and makes one lookup. */
  lemma ResidentialRun(input: seq<string>)
    requires input == ["name,latitude,longitude", "A,47.6,-122.3"]
    ensures Pipeline.Enriched(AlwaysResidential, input).Written?
    ensures |Pipeline.Enriched(AlwaysResidential, input).lines| == 2
    ensures Pipeline.Enriched(AlwaysResidential, input).lookups == 1
  {
    ResidentialInput(input);
  }

  /** The header line reads back as the three columns and `RoadType`. */
  lemma ResidentialHeader(input: seq<string>)
    requires input == ["name,latitude,longitude", "A,47.6,-122.3"]
    ensures var lines := Pipeline.Enriched(AlwaysResidential, input).lines;
      |lines| == 2 && Csv.Split(lines[0]) == ["name", "latitude", "longitude", "RoadType"]
  {
    ResidentialInput(input);
  }

  /** The data line reads back as its three values and `residential`. */
  lemma ResidentialRow(input: seq<string>)
    requires input == ["name,latitude,longitude", "A,47.6,-122.3"]
    ensures var lines := Pipeline.Enriched(AlwaysResidential, input).lines;
      |lines| == 2 && Csv.Split(lines[1]) == ["A", "47.6", "-122.3", "residential"]
  {
    ResidentialInput(input);
  }

  lemma ClassifiedFrom(cols: seq<string>, rows: seq<string>)
    requires Header.ColumnIndex(cols, true) == 1 && Header.ColumnIndex(cols, false) == 2
    ensures Pipeline.EnrichedFrom(AlwaysResidential, cols, rows)
      == Pipeline.Written([Csv.RowText(cols, Header.RoadTypeColumn)]
                            + Pipeline.EnrichedRows(AlwaysResidential, rows, 1, 2),
                          Pipeline.Lookups(rows, 1, 2))
  {
  }
}
