# Road-type CSV enrichment, modelled in Dafny

The tool reads a CSV file whose header names a latitude column and a
longitude column. It asks the Overpass map service which road lies near each
row's point and writes a copy of the file with one extra column, `RoadType`.
This project models the logic of that tool and proves what it does:

- **`Csv`**: the CSV field codec.
  - The single-line splitter is a state machine with an `inQuotes` flag and the `""` escape.
  - The field encoder always wraps a field in quotes and doubles the quotes inside it.
  - A row is written as its quoted fields joined by commas.
  - Proved: field counts, the shape of an encoded field, un-escaping, and round trips. A single field comes back as itself; a whole row, with or without the appended column, comes back as its fields.
  - This is the quoting rule of RFC 4180 (section 2, rules 5 to 7), restricted to one-line records.
- **`Header`**: finding the coordinate columns and writing the augmented header.
  - Column names are matched case-insensitively (ASCII only).
  - A later matching column overrides an earlier one, and -1 means "not found".
- **`Trimming`**: the white-space trim applied to each coordinate value (`isspace` in the "C" locale).
- **`Resolver`**: the road-type lookup for one point.
  - Radius 20 is tried first, then 50.
  - The result is the `highway` tag of the first element that carries one. `"NA"` means nothing was found.
  - The HTTP request and the JSON parser are replaced by a function `Overpass` from (latitude text, longitude text, radius) to a `Response`, so an answer depends only on the request. A `Response` keeps exactly the cases the code tells apart:
    - no body (a transport failure or an empty body);
    - an unparsable body;
    - a document with or without an `elements` array, whose elements may carry a string `highway` tag or a non-string one.
  - Reading a non-string tag throws, and that abandons the radius.
- **`Pipeline`**: one whole run, from the input lines to the output lines and the number of rows sent to the resolver.
  - Without both coordinate columns, every data line is copied verbatim with `,""` appended.
  - Otherwise each row is classified. The resolver is consulted only when both coordinates are in range and non-blank after trimming.
- **`Scenario`**: a worked example. The file `name,latitude,longitude` / `A,47.6,-122.3` is run against a service that always answers `residential`.

Where the code works step by step, the model does too: a `method` with a loop, proved equal to a specification function. The properties are then proved about that function:

| Loop in the code | Method | Specification function |
|---|---|---|
| splitter | `Csv.ParseCsvLine` | `Csv.Split` |
| find/replace quoting | `Csv.QuoteCsv` | `Csv.Quote` |
| row writer | `Csv.FormatRow` | `Csv.RowText` |
| header scan | `Header.DetectColumns` | `Header.ColumnIndex` |
| trim | `Trimming.Trim` | `Trimming.Trimmed` |
| radius and element loops | `Resolver.FindRoadType` | `Resolver.Resolve` |
| row loops | `Pipeline.CopyRows`, `Pipeline.ClassifyRows` | `Pipeline.FallbackRows`, `Pipeline.EnrichedRows` |
| whole run | `Pipeline.EnrichCsv` | `Pipeline.Enriched` |

Files are sequences of lines without their terminators.

Three facts about the program shape the model:

- The program copies every data line through with an empty `RoadType` when *either* coordinate column is missing (`latIdx < 0 || lonIdx < 0`).
- The resolver's result is `"NA"` or the text of some element's `highway` tag. So a row that was looked up gets an empty `RoadType` only when the service returns a `highway` tag that is itself the empty string (`Resolver.ResolveOrigin`).
- When no output path is given, the program writes to the input path with `.with_roads.csv` appended.

## Model

| member | source | states |
|---|---|---|
| Csv.Run | src/main.cpp:13-43 | the splitter always emits a final field, so it ends with more fields than it started with |
| Csv.RunFieldCount | src/main.cpp:13-43 | from any state, the splitter emits one field per comma read outside quotes, plus the final one |
| Csv.SplitFieldCount | src/main.cpp:13-43 | a line splits into 1 + (commas outside quotes) fields, so always at least one; the empty line gives `[""]` |
| Csv.PlainCommaCount | src/main.cpp:13-43 | in a line without quote characters, every comma counts as a separator |
| Csv.ParseCsvLine | src/main.cpp:13-43 | the character loop with the `""` skip returns exactly the splitter's fields and their count |
| Csv.EscapeLength | src/main.cpp:47-49 | escaping adds exactly one character per quote in the field |
| Csv.UndoubleEscape | src/main.cpp:47-49 | reading every `""` back as one quote undoes the escaping |
| Csv.FindQuote | src/main.cpp:49 | `find('"', pos)` gives the first quote at or after `pos`, or npos (-1) exactly when there is none |
| Csv.ReplaceQuotesEscapes | src/main.cpp:48-49 | the find-and-replace pass started at any position keeps the text before it and escapes everything after it, so from position 0 it computes exactly the escaped field |
| Csv.QuoteCsv | src/main.cpp:45-51 | the find/replace loop terminates and returns the quote-wrapped, quote-doubled field |
| Csv.QuoteShape | src/main.cpp:45-51 | an encoded field starts and ends with `"`, holds the escaped field in between, and has length \|s\| + 2 + (quotes in s) |
| Csv.UnquoteQuote | src/main.cpp:45-51 | removing the outer quotes and un-doubling `""` gives the field back |
| Csv.SplitQuote | src/main.cpp:13-51 | any field, commas and quotes included, splits back from its encoding as exactly that one field |
| Csv.SplitJoinQuoted | src/main.cpp:13-51 | quoted fields joined by commas split back into the original non-empty field sequence |
| Csv.FormatRow | src/main.cpp:168-172 | the output loop writes the quoted fields and the quoted extra column, and that line splits back into the fields plus the column |
| Csv.SplitRowText | src/main.cpp:168-172 | a serialised row plus appended column splits back into the fields followed by the column |
| Csv.SplitJoinPlain | src/main.cpp:13-43 | an unquoted line whose fields have no comma or quote splits into exactly those fields |
| Header.LowerChar | src/main.cpp:124 | `tolower` gives the same letter up to ASCII case, never a capital |
| Header.Lower | src/main.cpp:124 | the lower-cased name equals the name up to ASCII case and has no capital |
| Header.LowerUnique | src/main.cpp:124 | that description determines the lower-cased name: no other capital-free name is case-equivalent to the input |
| Header.LowerIdempotent | src/main.cpp:124 | lower-casing twice is lower-casing once |
| Header.LowerEqualIff | src/main.cpp:124 | two names lower-case to the same text exactly when they differ at most in the ASCII case of their letters |
| Header.NamesIgnoreCase | src/main.cpp:124-126 | names that differ only in the ASCII case of their letters are accepted alike, for either coordinate |
| Header.AcceptedSpellings | src/main.cpp:124-126 | `LATITUDE` and `Lat` name the latitude, `LNG` and `Longitude` the longitude |
| Header.ColumnIndexIsLastMatch | src/main.cpp:121-127 | the recorded index is the largest index of an accepted name, or -1 when no name is accepted |
| Header.LastMatchUnique | src/main.cpp:121-127 | the "last match or -1" description determines the index uniquely |
| Header.DetectColumns | src/main.cpp:121-127 | the header scan records, for each coordinate, the last matching column or -1 |
| Header.WriteHeader | src/main.cpp:129-133 | the header line is the quoted columns then `"RoadType"`, and it splits back into the columns plus `RoadType` |
| Trimming.TrimmedSlice | src/main.cpp:156-160 | cutting the maximal white-space prefix and suffix gives the trimmed value |
| Trimming.Trim | src/main.cpp:156-160 | the two index loops and the conditional substring compute the trimmed value |
| Trimming.TrimmedShape | src/main.cpp:156-160 | the trimmed value is a contiguous slice with only white space cut on either side and no white space at either end |
| Trimming.TrimmedIdempotent | src/main.cpp:156-160 | trimming twice is trimming once |
| Trimming.TrimmedFixed | src/main.cpp:156-160 | a value without surrounding white space is unchanged |
| Trimming.TrimmedEmpty | src/main.cpp:156-162 | the trimmed value is empty exactly when the input is all white space |
| Resolver.FirstTagged | src/main.cpp:91-93 | the index found is that of a tagged element with no tagged element before it; none is found only if no element is tagged |
| Resolver.FirstTaggedAt | src/main.cpp:91-93 | a tagged element with only untagged elements before it is the one found |
| Resolver.RadiusTag | src/main.cpp:87-98 | a response yields a road type only if it parsed to a document with an `elements` array, and that road type is the string `highway` value of an element preceded only by untagged elements |
| Resolver.FindRoadType | src/main.cpp:83-101 | the radius and element loops with their `continue`, `break` and early return give the policy's result, and the radii requested are exactly those the policy tries |
| Resolver.ResolveCases | src/main.cpp:84-100 | the result is the tag from radius 20 if it yields one, else the tag from radius 50, else "NA"; radius 50 is requested only if radius 20 yields nothing |
| Resolver.RadiusTagSpec | src/main.cpp:88-98 | a response yields `name` iff some element's `highway` is the string `name` and no earlier element has a `highway` tag |
| Resolver.LaterElementsIgnored | src/main.cpp:91-93 | elements after the first tagged one never change the result |
| Resolver.NotTextAbandonsRadius | src/main.cpp:93-97 | a non-string tag on the first tagged element abandons the radius, even if a later element holds a string |
| Resolver.FirstRadiusWins | src/main.cpp:85-93 | once radius 20 yields a tag, radius 50's answer is irrelevant and never requested |
| Resolver.ResolveOrigin | src/main.cpp:83-101 | a result other than "NA" is the string `highway` value of some element in the response for radius 20 or 50 |
| Pipeline.RoadTypeOf | src/main.cpp:151-165 | a row without usable coordinates gets `""`; a row with them gets "NA" or the road type that one of the two radii's responses yields for the trimmed coordinates |
| Pipeline.ClassifyRow | src/main.cpp:150-172 | the resolver is consulted exactly when both indices are in range and both trimmed coordinates are non-empty, and the row written is the enriched line |
| Pipeline.EnrichedLineSplit | src/main.cpp:168-172 | an output row splits back into the input row's fields followed by its classification |
| Pipeline.CopyRows | src/main.cpp:137-140 | the fallback loop produces the fallback line of every row, in order |
| Pipeline.ClassifyRows | src/main.cpp:146-175 | the main loop produces every row's enriched line, in order, and counts the rows that consulted the resolver |
| Pipeline.FallbackRowsAt | src/main.cpp:137-140 | fallback line k is input row k verbatim followed by `,""` |
| Pipeline.EnrichCsv | src/main.cpp:118-175 | a run fails exactly on an input without a header line; otherwise it writes one output line per input line, namely the lines of the specification run `Enriched` |
| Pipeline.EnrichedShape | src/main.cpp:118-133 | the first output line splits back into the input header's columns followed by `RoadType` |
| Pipeline.FallbackMode | src/main.cpp:135-141 | without both coordinate columns, a file of any number of data lines (none included) gets one output line per input line, no lookup happens, the service's answers do not matter, and each data line is the raw line plus `,""` |
| Pipeline.ClassifiedLine | src/main.cpp:148-172 | with both columns found, output line k+1 is the enriched form of input row k |
| Pipeline.ClassifiedMode | src/main.cpp:148-172 | with both columns found, output line k+1 splits back into row k's fields followed by that row's classification |
| Pipeline.RowFallbacks | src/main.cpp:151-165 | an out-of-range or blank coordinate gives `""`; a lookup whose every request fails gives "NA", not `""` |
| Scenario.HeaderColumns | src/main.cpp:121-127 | in the header `name,latitude,longitude` the latitude is column 1 and the longitude column 2 |
| Scenario.RowResolved | src/main.cpp:150-165 | the row `A,47.6,-122.3` with an always-`residential` service is classified `residential` |
| Scenario.ResidentialRun | src/main.cpp:118-175 | the example file gives two output lines and one lookup |
| Scenario.ResidentialHeader | src/main.cpp:129-133 | the example's header line reads back as `name`, `latitude`, `longitude`, `RoadType` |
| Scenario.ResidentialRow | src/main.cpp:168-172 | the example's data line reads back as `A`, `47.6`, `-122.3`, `residential` |
| Csv.QuotePlain | src/main.cpp:45-51 | a field without quote characters is written as itself between two quotes |
| Csv.JoinQuotedPlain | src/main.cpp:168-171 | any number of fields without quote characters are written as each field between quotes, separated by commas |
| Csv.RowTextPlain | src/main.cpp:168-172 | a row of quote-free fields plus a quote-free appended column is written as every one of them between quotes, separated by commas |
| Scenario.PlainRowText | src/main.cpp:168-172 | a row of three quote-free fields plus a quote-free appended column, written out field by field (the three-field instance of `Csv.RowTextPlain`) |
| Scenario.HeaderText | src/main.cpp:129-133 | the example's header line is exactly `"name","latitude","longitude","RoadType"` |
| Scenario.DataLineText | src/main.cpp:168-172 | the example's data line is exactly `"A","47.6","-122.3","residential"` |
| Scenario.ResidentialOutput | src/main.cpp:118-175 | the whole run over the example file writes exactly those two lines and makes one lookup |

## Left out

- Resolver.Overpass: a response is assumed to depend only on the request, that is, the latitude text, longitude text and radius. The real service can answer the same request differently from one call to the next, for example a timeout followed by a success. In the model, two rows with the same trimmed coordinates always get the same classification.
- HTTP and libcurl (`write_callback`, `query_overpass`, `curl_global_init`/`curl_global_cleanup`, timeouts, user agent). They are network I/O; the `Overpass` function parameter stands in for them.
- The request payload built at src/main.cpp:56-60 and the unused `geom` output mode. The service function takes the point and radius directly.
- The JSON parser. Its outcome is the `Response` datatype. A non-object element, or `tags` that is not an object, counts as an element without a `highway` tag, which is how `contains` treats them.
- Command-line handling, output-path derivation, opening the files, and exit codes 1 to 3. Exit code 4 is modelled as the `EmptyInput` outcome.
- Diagnostic messages on standard error and output, and the 200 ms pause between rows. These are I/O and timing.
- Line reading. The model takes the file as a sequence of lines without terminators; a carriage return left by `getline` is just another character.
- `tolower` and `isspace` outside ASCII. The model uses the "C" locale.
- Machine integer widths. Indices are unbounded naturals, so a header with more columns than `int` can index is not modelled.
- Trimming.Trim returns the trimmed string instead of assigning through a reference. Aliasing of the trimmed variable is not modelled.
- Resolver.FindRoadType reports the radii it requested as a sequence instead of performing requests.
- app.js, the browser front end. It is UI code; its cell quoting follows the same rule as `Csv.Quote`.
