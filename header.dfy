/**
 * Header handling of the enrichment tool: finding the latitude and longitude
 * columns by case-insensitive name, and writing the header with the extra
 * `RoadType` column.
 */
module Header {
  import Csv

  /** Two characters are the same up to ASCII case: equal, or one is the
      capital of the other. */
  predicate SameIgnoringCase(c: char, d: char)
  {
    c == d ||
    ('A' <= c <= 'Z' && d as int == c as int + 32) ||
    ('A' <= d <= 'Z' && c as int == d as int + 32)
  }

  /** Two names that differ at most in the ASCII case of their letters. */
  predicate CaseEquivalent(a: string, b: string)
  {
    |a| == |b| && forall i :: 0 <= i < |a| ==> SameIgnoringCase(a[i], b[i])
  }

  /** `tolower` in the "C" locale: the same letter, never a capital. */
  function LowerChar(c: char): (r: char)
    ensures SameIgnoringCase(c, r) && !('A' <= r <= 'Z')
  {
    if 'A' <= c <= 'Z' then (c as int + 32) as char else c
  }

  /** A column name lower-cased character by character: a name equal to
      `s` up to case, without capitals. */
  function Lower(s: string): (r: string)
    ensures CaseEquivalent(s, r)
    ensures forall i :: 0 <= i < |r| ==> !('A' <= r[i] <= 'Z')
  {
    seq(|s|, i requires 0 <= i < |s| => LowerChar(s[i]))
  }

  /** The contract of Lower determines its result: the only capital-free
      name equal to `s` up to case is `Lower(s)`. */
  lemma LowerUnique(s: string, t: string)
    requires CaseEquivalent(s, t)
    requires forall i :: 0 <= i < |t| ==> !('A' <= t[i] <= 'Z')
    ensures t == Lower(s)
  {
    forall i | 0 <= i < |t|
      ensures t[i] == Lower(s)[i]
    {
      assert SameIgnoringCase(s[i], t[i]);
    }
  }

  /** Lower-casing twice is lower-casing once. */
  lemma LowerIdempotent(s: string)
    ensures Lower(Lower(s)) == Lower(s)
  {
  }

  /** Two names have the same lower-case form exactly when they differ at
      most in the case of their letters. */
  lemma LowerEqualIff(a: string, b: string)
    ensures Lower(a) == Lower(b) <==> CaseEquivalent(a, b)
  {
    if CaseEquivalent(a, b) {
      forall i | 0 <= i < |a|
        ensures Lower(a)[i] == Lower(b)[i]
      {
        assert SameIgnoringCase(a[i], b[i]);
      }
    }
    if Lower(a) == Lower(b) {
      forall i | 0 <= i < |a|
        ensures SameIgnoringCase(a[i], b[i])
      {
        assert LowerChar(a[i]) == Lower(a)[i] == Lower(b)[i] == LowerChar(b[i]);
      }
    }
  }

  /** Names that differ only in the case of their letters are accepted
      alike, for either coordinate. */
  lemma NamesIgnoreCase(a: string, b: string, lat: bool)
    requires CaseEquivalent(a, b)
    ensures Names(a, lat) == Names(b, lat)
  {
    LowerEqualIff(a, b);
  }

  predicate IsLatitudeName(name: string)
  {
    Lower(name) == "latitude" || Lower(name) == "lat"
  }

  predicate IsLongitudeName(name: string)
  {
    Lower(name) == "longitude" || Lower(name) == "lon" || Lower(name) == "lng"
  }

  /** Whether a column name is accepted for the latitude (`lat`) or the
      longitude (`!lat`) coordinate. */
  predicate Names(name: string, lat: bool)
  {
    if lat then IsLatitudeName(name) else IsLongitudeName(name)
  }

  /** Capitalised spellings of the accepted names are accepted too. */
  lemma AcceptedSpellings()
    ensures Names("LATITUDE", true) && Names("Lat", true)
    ensures Names("LNG", false) && Names("Longitude", false)
  {
    assert Lower("LATITUDE") == "latitude";
    assert Lower("Lat") == "lat";
    assert Lower("LNG") == "lng";
    assert Lower("Longitude") == "longitude";
  }

  /** The index recorded for a coordinate after scanning `cols`: the last
      accepted column, or -1 when none is accepted. */
  function ColumnIndex(cols: seq<string>, lat: bool): int
  {
    if cols == [] then -1
    else if Names(cols[|cols| - 1], lat) then |cols| - 1
    else ColumnIndex(cols[..|cols| - 1], lat)
  }

  /** `idx` is the largest index of an accepted name, or -1 if none is. */
  predicate IsLastMatch(cols: seq<string>, lat: bool, idx: int)
  {
    if idx == -1 then forall k :: 0 <= k < |cols| ==> !Names(cols[k], lat)
    else 0 <= idx < |cols| && Names(cols[idx], lat) &&
         forall k :: idx < k < |cols| ==> !Names(cols[k], lat)
  }

  /** A later matching column overrides an earlier one; -1 is the sentinel
      for "not found". */
  lemma {:induction false} ColumnIndexIsLastMatch(cols: seq<string>, lat: bool)
    ensures IsLastMatch(cols, lat, ColumnIndex(cols, lat))
  {
    if cols != [] && !Names(cols[|cols| - 1], lat) {
      var init := cols[..|cols| - 1];
      ColumnIndexIsLastMatch(init, lat);
      assert forall k :: 0 <= k < |init| ==> init[k] == cols[k];
    }
  }

  /** The last match is unique: no other index satisfies the description. */
  lemma LastMatchUnique(cols: seq<string>, lat: bool, idx: int)
    requires IsLastMatch(cols, lat, idx)
    ensures idx == ColumnIndex(cols, lat)
  {
    ColumnIndexIsLastMatch(cols, lat);
  }

  /** The header scan: every column is lower-cased and may overwrite either
      index. */
  method DetectColumns(cols: seq<string>) returns (latIdx: int, lonIdx: int)
    ensures latIdx == ColumnIndex(cols, true) && lonIdx == ColumnIndex(cols, false)
    ensures IsLastMatch(cols, true, latIdx) && IsLastMatch(cols, false, lonIdx)
  {
    latIdx, lonIdx := -1, -1;
    var i := 0;
    while i < |cols|
      invariant 0 <= i <= |cols|
      invariant latIdx == ColumnIndex(cols[..i], true)
      invariant lonIdx == ColumnIndex(cols[..i], false)
    {
      assert cols[..i + 1][..i] == cols[..i];
      var c := Lower(cols[i]);
      if c == "latitude" || c == "lat" {
        latIdx := i;
      }
      if c == "longitude" || c == "lon" || c == "lng" {
        lonIdx := i;
      }
      i := i + 1;
    }
    assert cols[..i] == cols;
    ColumnIndexIsLastMatch(cols, true);
    ColumnIndexIsLastMatch(cols, false);
  }

  /** Name of the appended column. */
  const RoadTypeColumn := "RoadType"

  /** The output header: every input column quoted, then `"RoadType"`,
      written whether or not the coordinate columns were found. */
  method WriteHeader(cols: seq<string>) returns (line: string)
    ensures line == Csv.RowText(cols, RoadTypeColumn)
    ensures Csv.Split(line) == (if cols == [] then [""] else cols) + [RoadTypeColumn]
  {
    line := Csv.FormatRow(cols, RoadTypeColumn);
  }
}
