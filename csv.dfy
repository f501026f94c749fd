/**
 * The CSV field codec of the road-type enrichment tool: the single-line
 * splitter with its `inQuotes` flag and `""` escape, the always-quote field
 * encoder, and the comma-joined serialisation of a row.
 */
module Csv {

  // ---------------------------------------------------------------------
  // Splitting a line
  // ---------------------------------------------------------------------

  /** The splitter's state machine, run over the unread part `rest` of a line:
      `inQuotes` is the quote flag, `cur` the field being built and `done`
      the fields already emitted. The final field is always emitted. */
  function Run(rest: string, inQuotes: bool, cur: string, done: seq<string>): (fields: seq<string>)
    ensures |fields| > |done|
    decreases |rest|
  {
    if rest == [] then done + [cur]
    else if inQuotes then
      if rest[0] == '"' then
        if |rest| > 1 && rest[1] == '"' then Run(rest[2..], true, cur + ['"'], done)
        else Run(rest[1..], false, cur, done)
      else Run(rest[1..], true, cur + [rest[0]], done)
    else if rest[0] == '"' then Run(rest[1..], true, cur, done)
    else if rest[0] == ',' then Run(rest[1..], false, "", done + [cur])
    else Run(rest[1..], false, cur + [rest[0]], done)
  }

  /** The fields of a whole line. */
  function Split(line: string): seq<string>
  {
    Run(line, false, "", [])
  }

  /** Number of commas the splitter reads while outside quotes, tracking only
      the quote flag (and the `""` skip inside quotes), not the field text. */
  function UnquotedCommas(rest: string, inQuotes: bool): nat
    decreases |rest|
  {
    if rest == [] then 0
    else if inQuotes then
      if rest[0] == '"' then
        if |rest| > 1 && rest[1] == '"' then UnquotedCommas(rest[2..], true)
        else UnquotedCommas(rest[1..], false)
      else UnquotedCommas(rest[1..], true)
    else if rest[0] == '"' then UnquotedCommas(rest[1..], true)
    else if rest[0] == ',' then 1 + UnquotedCommas(rest[1..], false)
    else UnquotedCommas(rest[1..], false)
  }

  /** The splitter emits one field per unquoted comma plus the final one. */
  lemma {:induction false} RunFieldCount(rest: string, inQuotes: bool, cur: string, done: seq<string>)
    ensures |Run(rest, inQuotes, cur, done)| == |done| + 1 + UnquotedCommas(rest, inQuotes)
    decreases |rest|
  {
    if rest == [] {
    } else if inQuotes {
      if rest[0] == '"' {
        if |rest| > 1 && rest[1] == '"' {
          RunFieldCount(rest[2..], true, cur + ['"'], done);
        } else {
          RunFieldCount(rest[1..], false, cur, done);
        }
      } else {
        RunFieldCount(rest[1..], true, cur + [rest[0]], done);
      }
    } else if rest[0] == '"' {
      RunFieldCount(rest[1..], true, cur, done);
    } else if rest[0] == ',' {
      RunFieldCount(rest[1..], false, "", done + [cur]);
    } else {
      RunFieldCount(rest[1..], false, cur + [rest[0]], done);
    }
  }

  /** A split line has at least one field, exactly one more than its
      unquoted commas, and the empty line is the single empty field. */
  lemma SplitFieldCount(line: string)
    ensures |Split(line)| == 1 + UnquotedCommas(line, false)
    ensures |Split(line)| >= 1
    ensures line == "" ==> Split(line) == [""]
  {
    RunFieldCount(line, false, "", []);
  }

  /** A line without any quote character splits into one more field than it
      has commas. */
  lemma {:induction false} PlainCommaCount(rest: string)
    requires '"' !in rest
    ensures UnquotedCommas(rest, false) == multiset(rest)[',']
    decreases |rest|
  {
    if rest != [] {
      assert rest == [rest[0]] + rest[1..];
      assert multiset(rest) == multiset{rest[0]} + multiset(rest[1..]);
      PlainCommaCount(rest[1..]);
    }
  }

  /** The splitter loop: one character per step, two on a doubled quote. */
  method ParseCsvLine(line: string) returns (out: seq<string>)
    ensures out == Split(line)
    ensures |out| == 1 + UnquotedCommas(line, false)
  {
    out := [];
    var cur := "";
    var inQuotes := false;
    var i := 0;
    while i < |line|
      invariant 0 <= i <= |line|
      invariant Run(line[i..], inQuotes, cur, out) == Split(line)
    {
      var c := line[i];
      assert line[i..][1..] == line[i + 1..];
      if inQuotes {
        if c == '"' {
          if i + 1 < |line| && line[i + 1] == '"' {
            assert line[i..][2..] == line[i + 2..];
            cur := cur + ['"'];
            i := i + 1;
          } else {
            inQuotes := false;
          }
        } else {
          cur := cur + [c];
        }
      } else {
        if c == '"' {
          inQuotes := true;
        } else if c == ',' {
          out := out + [cur];
          cur := "";
        } else {
          cur := cur + [c];
        }
      }
      i := i + 1;
    }
    assert line[i..] == [];
    out := out + [cur];
    SplitFieldCount(line);
  }

  // ---------------------------------------------------------------------
  // Quoting a field
  // ---------------------------------------------------------------------

  /** A field with every quote character doubled. */
  function Escape(s: string): string
  {
    if s == [] then []
    else (if s[0] == '"' then "\"\"" else [s[0]]) + Escape(s[1..])
  }

  /** Escaping adds one character per quote in the field. */
  lemma {:induction false} EscapeLength(s: string)
    ensures |Escape(s)| == |s| + multiset(s)['"']
  {
    if s != [] {
      assert s == [s[0]] + s[1..];
      assert multiset(s) == multiset{s[0]} + multiset(s[1..]);
      EscapeLength(s[1..]);
    }
  }

  /** The encoded form of one field: always wrapped in quotes. */
  function Quote(s: string): string
  {
    "\"" + Escape(s) + "\""
  }

  /** An encoded field begins and ends with a quote, holds the escaped field
      between them, and is longer than the field by two plus its number of
      quote characters. */
  lemma {:induction false} QuoteShape(s: string)
    ensures |Quote(s)| == |s| + 2 + multiset(s)['"']
    ensures Quote(s)[0] == '"' && Quote(s)[|Quote(s)| - 1] == '"'
    ensures Quote(s)[1..|Quote(s)| - 1] == Escape(s)
  {
    EscapeLength(s);
  }

  /** Reference inverse of Escape: reads `""` back as one quote. */
  function Undouble(t: string): string
    decreases |t|
  {
    if t == [] then []
    else if |t| > 1 && t[0] == '"' && t[1] == '"' then "\"" + Undouble(t[2..])
    else [t[0]] + Undouble(t[1..])
  }

  lemma {:induction false} UndoubleEscape(s: string)
    ensures Undouble(Escape(s)) == s
  {
    if s != [] {
      UndoubleEscape(s[1..]);
      var tail := Escape(s[1..]);
      if s[0] == '"' {
        assert Escape(s) == "\"\"" + tail;
        assert (Escape(s))[2..] == tail;
      } else {
        assert Escape(s) == [s[0]] + tail;
        assert (Escape(s))[1..] == tail;
      }
      assert s == [s[0]] + s[1..];
    }
  }

  /** Stripping the outer quotes of an encoded field and un-doubling the
      quotes gives the field back. */
  lemma {:induction false} UnquoteQuote(s: string)
    ensures Undouble(Quote(s)[1..|Quote(s)| - 1]) == s
  {
    QuoteShape(s);
    UndoubleEscape(s);
  }

  lemma {:induction false} EscapeAppend(a: string, b: string)
    ensures Escape(a + b) == Escape(a) + Escape(b)
    decreases |a|
  {
    if a != [] {
      assert (a + b)[0] == a[0];
      assert (a + b)[1..] == a[1..] + b;
      EscapeAppend(a[1..], b);
    } else {
      assert a + b == b;
    }
  }

  lemma {:induction false} EscapePlain(t: string)
    requires forall k :: 0 <= k < |t| ==> t[k] != '"'
    ensures Escape(t) == t
    decreases |t|
  {
    if t != [] {
      EscapePlain(t[1..]);
      assert t == [t[0]] + t[1..];
    }
  }

  /** A field without quote characters is written as itself between quotes. */
  lemma QuotePlain(s: string)
    requires '"' !in s
    ensures Quote(s) == "\"" + s + "\""
  {
    EscapePlain(s);
  }

  /** `std::string::find` for a quote character from position `from`:
      the first such index, or -1 for `npos`. */
  function FindQuote(t: string, from: nat): (r: int)
    requires from <= |t|
    ensures r == -1 <==> forall k :: from <= k < |t| ==> t[k] != '"'
    ensures r != -1 ==> from <= r < |t| && t[r] == '"' && forall k :: from <= k < r ==> t[k] != '"'
    decreases |t| - from
  {
    if from == |t| then -1
    else if t[from] == '"' then from
    else FindQuote(t, from + 1)
  }

  /** Escaping a stretch that starts with quote-free text and reaches a
      quote at `p`: the text is kept, the quote doubled, and the rest escaped. */
  lemma {:induction false} EscapeThroughQuote(t: string, pos: nat, p: nat)
    requires pos <= p < |t| && t[p] == '"'
    requires forall j :: pos <= j < p ==> t[j] != '"'
    ensures Escape(t[pos..]) == t[pos..p] + "\"\"" + Escape(t[p + 1..])
  {
    assert t[pos..] == t[pos..p] + t[p..];
    EscapeAppend(t[pos..p], t[p..]);
    EscapePlain(t[pos..p]);
    assert t[p..][1..] == t[p + 1..];
  }

  /** The find-and-replace pass from position `pos`: find the next quote,
      replace it by two quotes and continue after the pair. */
  function ReplaceQuotes(t: string, pos: nat): string
    requires pos <= |t|
    decreases |t| - pos
  {
    var p := FindQuote(t, pos);
    if p == -1 then t
    else ReplaceQuotes(t[..p] + "\"\"" + t[p + 1..], p + 2)
  }

  /** One round of the pass: with no quote left it stops, otherwise it
      doubles the next quote `p` and goes on after the pair. */
  lemma {:induction false} ReplaceQuotesStep(t: string, pos: nat, p: int)
    requires pos <= |t| && p == FindQuote(t, pos)
    ensures p == -1 ==> ReplaceQuotes(t, pos) == t
    ensures p != -1 ==> ReplaceQuotes(t, pos) == ReplaceQuotes(t[..p] + "\"\"" + t[p + 1..], p + 2)
  {
  }

  /** Doubling the quote at `p` keeps everything before it and shifts the
      rest by one. */
  lemma {:induction false} SpliceQuotes(t: string, p: nat)
    requires p < |t|
    ensures var t' := t[..p] + "\"\"" + t[p + 1..];
      |t'| == |t| + 1 && t'[..p + 2] == t[..p] + "\"\"" && t'[p + 2..] == t[p + 1..]
  {
  }

  /** If the pass escapes everything after a doubled quote, it escapes
      everything after `pos`. */
  lemma {:induction false} ReplaceRound(t: string, pos: nat, p: nat)
    requires pos <= p < |t| && t[p] == '"'
    requires forall j :: pos <= j < p ==> t[j] != '"'
    requires var t' := t[..p] + "\"\"" + t[p + 1..];
      p + 2 <= |t'| && ReplaceQuotes(t', p + 2) == t'[..p + 2] + Escape(t'[p + 2..])
    ensures ReplaceQuotes(t[..p] + "\"\"" + t[p + 1..], p + 2) == t[..pos] + Escape(t[pos..])
  {
    var t' := t[..p] + "\"\"" + t[p + 1..];
    calc {
      ReplaceQuotes(t', p + 2);
      t'[..p + 2] + Escape(t'[p + 2..]);
      { SpliceQuotes(t, p); }
      t[..p] + "\"\"" + Escape(t[p + 1..]);
      { assert t[..p] == t[..pos] + t[pos..p]; }
      t[..pos] + t[pos..p] + "\"\"" + Escape(t[p + 1..]);
      { EscapeThroughQuote(t, pos, p); }
      t[..pos] + Escape(t[pos..]);
    }
  }

  /** The pass leaves the text before `pos` alone and escapes the rest; from
      the start it is exactly Escape. */
  lemma {:induction false} ReplaceQuotesEscapes(t: string, pos: nat)
    requires pos <= |t|
    ensures ReplaceQuotes(t, pos) == t[..pos] + Escape(t[pos..])
    decreases |t| - pos
  {
    var p := FindQuote(t, pos);
    ReplaceQuotesStep(t, pos, p);
    if p == -1 {
      EscapePlain(t[pos..]);
      assert t[..pos] + t[pos..] == t;
    } else {
      ReplaceQuotesEscapes(t[..p] + "\"\"" + t[p + 1..], p + 2);
      ReplaceRound(t, pos, p);
    }
  }

  /** The find-and-replace loop that doubles quotes, then the outer quotes;
      the loop ends because `pos` moves past each inserted pair. */
  method QuoteCsv(s: string) returns (r: string)
    ensures r == Quote(s)
  {
    var out := s;
    var pos := 0;
    while true
      invariant pos <= |out|
      invariant ReplaceQuotes(out, pos) == ReplaceQuotes(s, 0)
      decreases |out| - pos
    {
      var p := FindQuote(out, pos);
      if p == -1 {
        break;
      }
      out := out[..p] + "\"\"" + out[p + 1..];
      pos := p + 2;
    }
    ReplaceQuotesEscapes(s, 0);
    r := "\"" + out + "\"";
  }

  // ---------------------------------------------------------------------
  // Serialising a row
  // ---------------------------------------------------------------------

  /** Quoted fields joined by commas, with no trailing comma. */
  function JoinQuoted(fields: seq<string>): string
  {
    if fields == [] then ""
    else if |fields| == 1 then Quote(fields[0])
    else JoinQuoted(fields[..|fields| - 1]) + "," + Quote(fields[|fields| - 1])
  }

  /** An output line: the quoted fields, then a comma and one more quoted
      field (the appended column). */
  function RowText(fields: seq<string>, last: string): string
  {
    JoinQuoted(fields) + "," + Quote(last)
  }

  /** The output loop: a comma before every field but the first, then the
      appended column. The line parses back into the row plus the column. */
  method FormatRow(fields: seq<string>, last: string) returns (line: string)
    ensures line == RowText(fields, last)
    ensures Split(line) == (if fields == [] then [""] else fields) + [last]
  {
    line := "";
    var i := 0;
    while i < |fields|
      invariant 0 <= i <= |fields|
      invariant line == JoinQuoted(fields[..i])
    {
      var q := QuoteCsv(fields[i]);
      assert fields[..i + 1][..i] == fields[..i];
      if i != 0 {
        line := line + ",";
      }
      line := line + q;
      i := i + 1;
    }
    assert fields[..i] == fields;
    var q := QuoteCsv(last);
    line := line + "," + q;
    SplitRowText(fields, last);
  }

  /** Reading a quoted field: after the opening quote, the escaped text and
      the closing quote leave the splitter outside quotes with the field
      appended to `cur`, provided no quote follows the closing one. */
  lemma RunClosingQuote(rest: string, cur: string, done: seq<string>)
    requires rest == [] || rest[0] != '"'
    ensures Run("\"" + rest, true, cur, done) == Run(rest, false, cur, done)
  {
    assert ("\"" + rest)[1..] == rest;
  }

  lemma RunDoubledQuote(t: string, cur: string, done: seq<string>)
    ensures Run("\"\"" + t, true, cur, done) == Run(t, true, cur + ['"'], done)
  {
    assert ("\"\"" + t)[2..] == t;
  }

  lemma RunQuotedChar(c: char, t: string, cur: string, done: seq<string>)
    requires c != '"'
    ensures Run([c] + t, true, cur, done) == Run(t, true, cur + [c], done)
  {
    assert ([c] + t)[1..] == t;
  }

  lemma {:induction false} RunEscaped(s: string, rest: string, cur: string, done: seq<string>)
    requires rest == [] || rest[0] != '"'
    ensures Run(Escape(s) + "\"" + rest, true, cur, done) == Run(rest, false, cur + s, done)
    decreases |s|
  {
    if s == [] {
      assert Escape(s) + "\"" + rest == "\"" + rest;
      RunClosingQuote(rest, cur, done);
      assert cur + s == cur;
    } else {
      var t := Escape(s[1..]) + "\"" + rest;
      RunEscaped(s[1..], rest, cur + [s[0]], done);
      assert cur + [s[0]] + s[1..] == cur + s;
      if s[0] == '"' {
        assert Escape(s) + "\"" + rest == "\"\"" + t;
        RunDoubledQuote(t, cur, done);
      } else {
        assert Escape(s) + "\"" + rest == [s[0]] + t;
        RunQuotedChar(s[0], t, cur, done);
      }
    }
  }

  lemma RunQuoted(s: string, rest: string, cur: string, done: seq<string>)
    requires rest == [] || rest[0] != '"'
    ensures Run(Quote(s) + rest, false, cur, done) == Run(rest, false, cur + s, done)
  {
    RunEscaped(s, rest, cur, done);
    assert Quote(s) + rest == "\"" + (Escape(s) + "\"" + rest);
  }

  /** Single-field round trip: a quoted field splits back into exactly that
      field, whatever commas or quotes it holds. */
  lemma SplitQuote(s: string)
    ensures Split(Quote(s)) == [s]
  {
    RunQuoted(s, "", "", []);
    assert Quote(s) + "" == Quote(s);
    assert "" + s == s;
  }

  lemma RunComma(t: string, cur: string, done: seq<string>)
    ensures Run("," + t, false, cur, done) == Run(t, false, "", done + [cur])
  {
    assert ("," + t)[1..] == t;
  }

  /** A non-empty sequence is its prefix followed by its last element. */
  lemma InitLast(xs: seq<string>)
    requires xs != []
    ensures xs[..|xs| - 1] + [xs[|xs| - 1]] == xs
  {
  }

  /** At the end of the line the field being built is emitted. */
  lemma RunEnd(cur: string, done: seq<string>)
    ensures Run([], false, cur, done) == done + [cur]
  {
  }

  /** A row of one field. */
  lemma RunJoinedOne(f: string, rest: string, done: seq<string>)
    requires rest == [] || rest[0] == ','
    ensures Run(JoinQuoted([f]) + rest, false, "", done) == Run(rest, false, f, done)
  {
    RunQuoted(f, rest, "", done);
    assert "" + f == f;
  }

  /** Appending a field to a joined row adds a comma and its encoding. */
  lemma JoinQuotedSnoc(init: seq<string>, last: string, rest: string)
    requires init != []
    ensures JoinQuoted(init + [last]) + rest == JoinQuoted(init) + ("," + (Quote(last) + rest))
  {
    assert (init + [last])[..|init|] == init;
  }

  /** One more field at the end of a joined row: given the run over the
      shorter row, the comma and the quoted last field finish it. */
  lemma RunJoinedStep(init: seq<string>, last: string, rest: string, done: seq<string>)
    requires init != []
    requires rest == [] || rest[0] == ','
    requires Run(JoinQuoted(init) + ("," + (Quote(last) + rest)), false, "", done)
          == Run("," + (Quote(last) + rest), false, init[|init| - 1], done + init[..|init| - 1])
    ensures Run(JoinQuoted(init + [last]) + rest, false, "", done) == Run(rest, false, last, done + init)
  {
    var n := |init|;
    var q := Quote(last);
    calc {
      Run(JoinQuoted(init + [last]) + rest, false, "", done);
      { JoinQuotedSnoc(init, last, rest); }
      Run("," + (q + rest), false, init[n - 1], done + init[..n - 1]);
      { RunComma(q + rest, init[n - 1], done + init[..n - 1]);
        InitLast(init);
        assert done + init[..n - 1] + [init[n - 1]] == done + (init[..n - 1] + [init[n - 1]]); }
      Run(q + rest, false, "", done + init);
      { RunQuoted(last, rest, "", done + init); assert "" + last == last; }
      Run(rest, false, last, done + init);
    }
  }

  lemma {:induction false} RunJoined(fields: seq<string>, rest: string, done: seq<string>)
    requires fields != []
    requires rest == [] || rest[0] == ','
    ensures Run(JoinQuoted(fields) + rest, false, "", done)
         == Run(rest, false, fields[|fields| - 1], done + fields[..|fields| - 1])
    decreases |fields|
  {
    var n := |fields|;
    if n == 1 {
      assert fields == [fields[0]] && done + fields[..0] == done;
      RunJoinedOne(fields[0], rest, done);
    } else {
      var init, last := fields[..n - 1], fields[n - 1];
      RunJoined(init, "," + (Quote(last) + rest), done);
      RunJoinedStep(init, last, rest, done);
      InitLast(fields);
    }
  }

  /** Row round trip: a serialised output line splits back into the row
      followed by the appended column. */
  lemma SplitRowText(fields: seq<string>, last: string)
    ensures Split(RowText(fields, last)) == (if fields == [] then [""] else fields) + [last]
  {
    if fields == [] {
      assert RowText(fields, last) == "," + Quote(last);
      RunComma(Quote(last), "", []);
      assert [] + [""] == [""];
      RunQuoted(last, "", "", [""]);
      assert Quote(last) + "" == Quote(last);
      assert "" + last == last;
    } else {
      var all := fields + [last];
      assert all[..|all| - 1] == fields;
      assert RowText(fields, last) == JoinQuoted(all) + "";
      RunJoined(all, "", []);
    }
  }

  /** Whole-row round trip for the joined form without an appended column. */
  lemma SplitJoinQuoted(fields: seq<string>)
    requires fields != []
    ensures Split(JoinQuoted(fields)) == fields
  {
    assert JoinQuoted(fields) + "" == JoinQuoted(fields);
    RunJoined(fields, "", []);
    assert fields[..|fields| - 1] + [fields[|fields| - 1]] == fields;
  }

  // ---------------------------------------------------------------------
  // Unquoted input
  // ---------------------------------------------------------------------

  /** A field that needs no quoting on input: no quote and no comma. */
  predicate Plain(f: string)
  {
    '"' !in f && ',' !in f
  }

  /** Fields joined by commas as they appear in a hand-written CSV line. */
  function JoinPlain(fields: seq<string>): string
  {
    if fields == [] then ""
    else if |fields| == 1 then fields[0]
    else JoinPlain(fields[..|fields| - 1]) + "," + fields[|fields| - 1]
  }

  /** Each field between a pair of quotes, with nothing doubled. */
  function Wrapped(fields: seq<string>): seq<string>
  {
    seq(|fields|, k requires 0 <= k < |fields| => "\"" + fields[k] + "\"")
  }

  /** Fields without quote characters are written, whatever their number,
      as each field between quotes, separated by commas. */
  lemma {:induction false} JoinQuotedPlain(fields: seq<string>)
    requires forall k :: 0 <= k < |fields| ==> '"' !in fields[k]
    ensures JoinQuoted(fields) == JoinPlain(Wrapped(fields))
    decreases |fields|
  {
    if |fields| == 1 {
      QuotePlain(fields[0]);
    } else if |fields| > 1 {
      var init := fields[..|fields| - 1];
      JoinQuotedPlain(init);
      QuotePlain(fields[|fields| - 1]);
      assert Wrapped(fields)[..|fields| - 1] == Wrapped(init);
    }
  }

  /** A row of quote-free fields and a quote-free appended column is
      written as every one of them between quotes, separated by commas. */
  lemma RowTextPlain(fields: seq<string>, last: string)
    requires forall k :: 0 <= k < |fields| ==> '"' !in fields[k]
    requires '"' !in last
    ensures RowText(fields, last) == JoinPlain(Wrapped(fields)) + "," + ("\"" + last + "\"")
  {
    JoinQuotedPlain(fields);
    QuotePlain(last);
  }

  lemma {:induction false} RunPlain(t: string, rest: string, cur: string, done: seq<string>)
    requires Plain(t)
    ensures Run(t + rest, false, cur, done) == Run(rest, false, cur + t, done)
    decreases |t|
  {
    if t == [] {
      assert t + rest == rest && cur + t == cur;
    } else {
      assert (t + rest)[0] == t[0] && (t + rest)[1..] == t[1..] + rest;
      assert t[0] != '"' && t[0] != ',';
      assert Plain(t[1..]) by {
        assert forall c :: c in t[1..] ==> c in t;
      }
      RunPlain(t[1..], rest, cur + [t[0]], done);
      assert cur + [t[0]] + t[1..] == cur + t;
    }
  }

  lemma RunJoinedPlainOne(f: string, rest: string, done: seq<string>)
    requires Plain(f)
    requires rest == [] || rest[0] == ','
    ensures Run(JoinPlain([f]) + rest, false, "", done) == Run(rest, false, f, done)
  {
    RunPlain(f, rest, "", done);
    assert "" + f == f;
  }

  lemma RunJoinedPlainStep(init: seq<string>, last: string, rest: string, done: seq<string>)
    requires init != [] && Plain(last)
    requires rest == [] || rest[0] == ','
    requires Run(JoinPlain(init) + ("," + (last + rest)), false, "", done)
          == Run("," + (last + rest), false, init[|init| - 1], done + init[..|init| - 1])
    ensures Run(JoinPlain(init + [last]) + rest, false, "", done) == Run(rest, false, last, done + init)
  {
    var fields := init + [last];
    var n := |init|;
    assert fields[..|fields| - 1] == init;
    calc {
      Run(JoinPlain(fields) + rest, false, "", done);
      { assert JoinPlain(fields) + rest == JoinPlain(init) + ("," + (last + rest)); }
      Run("," + (last + rest), false, init[n - 1], done + init[..n - 1]);
      { RunComma(last + rest, init[n - 1], done + init[..n - 1]);
        assert done + init[..n - 1] + [init[n - 1]] == done + init; }
      Run(last + rest, false, "", done + init);
      { RunPlain(last, rest, "", done + init); assert "" + last == last; }
      Run(rest, false, last, done + init);
    }
  }

  lemma {:induction false} RunJoinedPlain(fields: seq<string>, rest: string, done: seq<string>)
    requires fields != [] && forall k :: 0 <= k < |fields| ==> Plain(fields[k])
    requires rest == [] || rest[0] == ','
    ensures Run(JoinPlain(fields) + rest, false, "", done)
         == Run(rest, false, fields[|fields| - 1], done + fields[..|fields| - 1])
    decreases |fields|
  {
    var n := |fields|;
    if n == 1 {
      assert fields == [fields[0]] && done + fields[..0] == done;
      RunJoinedPlainOne(fields[0], rest, done);
    } else {
      var init, last := fields[..n - 1], fields[n - 1];
      assert forall k :: 0 <= k < |init| ==> Plain(init[k]) by {
        assert forall k :: 0 <= k < |init| ==> init[k] == fields[k];
      }
      RunJoinedPlain(init, "," + (last + rest), done);
      RunJoinedPlainStep(init, last, rest, done);
      InitLast(fields);
    }
  }

  /** A line made of unquoted fields without commas splits back into
      exactly those fields. */
  lemma SplitJoinPlain(fields: seq<string>)
    requires fields != [] && forall k :: 0 <= k < |fields| ==> Plain(fields[k])
    ensures Split(JoinPlain(fields)) == fields
  {
    var n := |fields|;
    var e: seq<string> := [];
    var line := JoinPlain(fields);
    var init, last := fields[..n - 1], fields[n - 1];
    assert Split(line) == Run(line + "", false, "", e) by {
      assert line + "" == line;
    }
    assert Run(line + "", false, "", e) == Run("", false, last, e + init) by {
      RunJoinedPlain(fields, "", e);
    }
    assert Run("", false, last, e + init) == fields by {
      RunEnd(last, e + init);
      assert e + init == init;
      InitLast(fields);
    }
  }
}
