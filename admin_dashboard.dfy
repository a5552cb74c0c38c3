/**
 * The admin dashboard's ticket and user bookkeeping
 * (client/pages/AdminDashboard.tsx): CSV parsing, adding codes by hand or by
 * CSV upload, deleting codes, the totals, and creating a user. The store holds
 * an `available` and a `used` list for each of the HSV and OSV code types.
 */
module AdminDashboard {
  import opened Wrappers
  import opened Text
  import opened Codes

  datatype CodeType = HSV | OSV

  /** One row produced by `parseCsv`. */
  datatype CsvRow = CsvRow(code: string, codeType: CodeType)

  // ----- parseCsv -----

  /** `.filter(Boolean)` on strings: the empty ones are dropped, the rest keep their order. */
  function NonBlank(ls: seq<string>): (r: seq<string>)
    ensures forall l :: l in r <==> l in ls && l != ""
  {
    if ls == [] then [] else (if ls[0] == "" then [] else [ls[0]]) + NonBlank(ls[1..])
  }

  /** The filter keeps order: filtering a concatenation concatenates the filtered parts. */
  lemma {:induction false} NonBlankAppend(a: seq<string>, b: seq<string>)
    ensures NonBlank(a + b) == NonBlank(a) + NonBlank(b)
  {
    if a == [] {
      assert a + b == b;
    } else {
      assert (a + b)[0] == a[0] && (a + b)[1..] == a[1..] + b;
      NonBlankAppend(a[1..], b);
    }
  }

  /** The lines `parseCsv` looks at: split on `\r?\n`, trimmed, blank ones dropped. */
  function CsvLines(text: string): seq<string> {
    NonBlank(TrimEach(SplitLines(text)))
  }

  /** `parts[i] || dflt`: a missing or empty field reads as the default. */
  function FieldOr(parts: seq<string>, i: nat, dflt: string): (f: string)
    ensures i < |parts| && parts[i] != "" ==> f == parts[i]
    ensures i >= |parts| || parts[i] == "" ==> f == dflt
  {
    if i < |parts| && parts[i] != "" then parts[i] else dflt
  }

  /** The fields of one line: split on `,`, `;` or tab, each trimmed. */
  function Fields(line: string): (parts: seq<string>)
    ensures |parts| >= 1
  {
    TrimEach(SplitFields(line))
  }

  /** One iteration of `parseCsv`'s loop: a row, or nothing when the first field is not a code. */
  function RowOf(line: string): (r: Option<CsvRow>)
    ensures r.Some? ==> ValidCode(r.value.code)
  {
    var parts := Fields(line);
    RowFrom(ToUpper(FieldOr(parts, 0, "")), ToUpper(FieldOr(parts, 1, "HSV")))
  }

  /** The row for an upper-cased code field and type field. */
  function RowFrom(code: string, typeRaw: string): Option<CsvRow> {
    if !ValidCode(code) then None
    else Some(CsvRow(code, if typeRaw == "OSV" then OSV else HSV))
  }

  /** The default type field reads as HSV. */
  lemma UpperHsv()
    ensures ToUpper("HSV") == "HSV" && ToUpper("") != "OSV"
  {
  }

  /** A line without separators is a code alone: its row, if any, has the default type HSV. */
  lemma RowOfOneField(line: string)
    requires NoSeparator(line)
    ensures var code := ToUpper(Trim(line));
      RowOf(line) == if ValidCode(code) then Some(CsvRow(code, HSV)) else None
  {
    assert Fields(line) == [Trim(line)];
    assert FieldOr([Trim(line)], 1, "HSV") == "HSV";
    UpperHsv();
  }

  /**
   * A line `code<sep>type`: a row exactly when the trimmed, upper-cased first
   * field is a code, and its type is OSV exactly when the trimmed second field
   * is "osv" in any case; an empty second field means HSV.
   */
  lemma RowOfTwoFields(c: string, sep: char, t: string)
    requires NoSeparator(c) && IsFieldSeparator(sep) && NoSeparator(t)
    ensures var code := ToUpper(Trim(c));
      RowOf(c + [sep] + t) == if ValidCode(code) then Some(CsvRow(code, if ToUpper(Trim(t)) == "OSV" then OSV else HSV)) else None
  {
    FieldsTwo(c, sep, t);
    UpperHsv();
    var typeRaw := ToUpper(FieldOr([Trim(c), Trim(t)], 1, "HSV"));
    assert typeRaw == "OSV" <==> ToUpper(Trim(t)) == "OSV";
  }

  lemma FieldsTwo(c: string, sep: char, t: string)
    requires NoSeparator(c) && IsFieldSeparator(sep) && NoSeparator(t)
    ensures Fields(c + [sep] + t) == [Trim(c), Trim(t)]
  {
    SplitFieldsCons(c, sep, t);
    var parts := SplitFields(c + [sep] + t);
    assert parts == [c, t];
    assert Fields(c + [sep] + t) == TrimEach(parts);
  }

  /** The first two fields decide the row. */
  lemma RowOfSameFields(a: string, b: string)
    requires |Fields(a)| >= 2 && |Fields(b)| >= 2
    requires Fields(a)[0] == Fields(b)[0] && Fields(a)[1] == Fields(b)[1]
    ensures RowOf(a) == RowOf(b)
  {
  }

  /** Fields after the second do not matter. */
  lemma RowOfExtraFields(c: string, sep: char, t: string, sep2: char, u: string)
    requires NoSeparator(c) && IsFieldSeparator(sep) && NoSeparator(t) && IsFieldSeparator(sep2)
    ensures RowOf(c + [sep] + t + [sep2] + u) == RowOf(c + [sep] + t)
  {
    assert c + [sep] + t + [sep2] + u == c + [sep] + (t + [sep2] + u);
    SplitFieldsCons(c, sep, t + [sep2] + u);
    SplitFieldsCons(t, sep2, u);
    FieldsTwo(c, sep, t);
    RowOfSameFields(c + [sep] + t + [sep2] + u, c + [sep] + t);
  }

  /** What one line contributes to the output: its row, or nothing. */
  function LineRows(line: string): (rows: seq<CsvRow>)
    ensures |rows| <= 1
  {
    match RowOf(line)
    case Some(row) => [row]
    case None => []
  }

  /** The rows of the given lines, in line order. */
  function RowsOf(lines: seq<string>): (rows: seq<CsvRow>)
    ensures |rows| <= |lines|
  {
    if lines == [] then [] else LineRows(lines[0]) + RowsOf(lines[1..])
  }

  /** Every emitted code is upper case and matches the code pattern. */
  lemma {:induction false} RowsOfValid(lines: seq<string>)
    ensures forall r :: r in RowsOf(lines) ==> ValidCode(r.code)
  {
    if lines != [] {
      RowsOfValid(lines[1..]);
    }
  }

  /** `parseCsv` as a value. */
  function ParsedRows(text: string): seq<CsvRow> {
    RowsOf(CsvLines(text))
  }

  /** Rows keep the order of their lines: parsing a concatenation concatenates the rows. */
  lemma {:induction false} RowsOfAppend(a: seq<string>, b: seq<string>)
    ensures RowsOf(a + b) == RowsOf(a) + RowsOf(b)
  {
    if a == [] {
      assert a + b == b;
    } else {
      assert (a + b)[0] == a[0];
      assert (a + b)[1..] == a[1..] + b;
      RowsOfAppend(a[1..], b);
      assert RowsOf(a + b) == LineRows(a[0]) + RowsOf(a[1..] + b);
    }
  }

  /** Each accepted line gives exactly its own row; a rejected line gives none. */
  lemma RowsOfSingle(line: string)
    ensures RowsOf([line]) == LineRows(line)
  {
    assert [line][1..] == [];
  }

  /** `parseCsv`: the lines of the text, then one pass over them. */
  method ParseCsv(text: string) returns (out: seq<CsvRow>)
    ensures out == ParsedRows(text)
  {
    out := ParseLines(CsvLines(text));
  }

  /** The loop of `parseCsv`: each accepted line's row is pushed, in line order. */
  method ParseLines(lines: seq<string>) returns (out: seq<CsvRow>)
    ensures out == RowsOf(lines)
  {
    out := [];
    var i := 0;
    while i < |lines|
      invariant 0 <= i <= |lines|
      invariant out == RowsOf(lines[..i])
    {
      RowsOfSnoc(lines, i);
      out := out + LineRows(lines[i]);
      i := i + 1;
    }
    assert lines[..i] == lines;
  }

  /** One step of the loop: the rows of one more line are the rows so far, then that line's. */
  lemma RowsOfSnoc(lines: seq<string>, i: nat)
    requires i < |lines|
    ensures RowsOf(lines[..i + 1]) == RowsOf(lines[..i]) + LineRows(lines[i])
  {
    assert lines[..i + 1] == lines[..i] + [lines[i]];
    RowsOfAppend(lines[..i], [lines[i]]);
    RowsOfSingle(lines[i]);
  }

  /** The lines after the first are parsed on their own, after the first line's row. */
  lemma ParsedRowsCons(text: string, l: string, rest: string)
    requires SplitLines(text) == [l] + SplitLines(rest)
    ensures ParsedRows(text) == LineRows(Trim(l)) + ParsedRows(rest)
  {
    CsvLinesCons(text, l, rest);
    var head := if Trim(l) == "" then [] else [Trim(l)];
    RowsOfAppend(head, CsvLines(rest));
    if Trim(l) == "" {
      assert Fields("") == [""];
    } else {
      RowsOfSingle(Trim(l));
    }
  }

  lemma CsvLinesCons(text: string, l: string, rest: string)
    requires SplitLines(text) == [l] + SplitLines(rest)
    ensures CsvLines(text) == (if Trim(l) == "" then [] else [Trim(l)]) + CsvLines(rest)
  {
    var tail := TrimEach(SplitLines(rest));
    assert TrimEach(SplitLines(text)) == [Trim(l)] + tail;
    NonBlankAppend([Trim(l)], tail);
    assert NonBlank([Trim(l)]) == if Trim(l) == "" then [] else [Trim(l)];
  }

  /** A line ended by "\n" gives its row (or none), then the rest of the text is parsed. */
  lemma ParsedRowsLF(l: string, rest: string)
    requires '\n' !in l && (l == [] || l[|l| - 1] != '\r')
    ensures ParsedRows(l + "\n" + rest) == LineRows(Trim(l)) + ParsedRows(rest)
  {
    SplitLinesLF(l, rest);
    ParsedRowsCons(l + "\n" + rest, l, rest);
  }

  /** The same for a line ended by "\r\n". */
  lemma ParsedRowsCRLF(l: string, rest: string)
    requires '\n' !in l
    ensures ParsedRows(l + "\r\n" + rest) == LineRows(Trim(l)) + ParsedRows(rest)
  {
    SplitLinesCRLF(l, rest);
    ParsedRowsCons(l + "\r\n" + rest, l, rest);
  }

  /** The last line, with no line break, gives its row or nothing. */
  lemma ParsedRowsLast(l: string)
    requires '\n' !in l
    ensures ParsedRows(l) == LineRows(Trim(l))
  {
    SplitLinesPlain(l);
    assert TrimEach([l]) == [Trim(l)];
    if Trim(l) == "" {
      assert NonBlank([""]) == [];
    } else {
      assert NonBlank([Trim(l)]) == [Trim(l)];
      RowsOfSingle(Trim(l));
    }
  }

  /** A comma-separated line with a lower-case code and type "osv" gives that code, upper-cased, as OSV. */
  lemma RowExampleOsv()
    ensures RowOf("abcdefghij,osv") == Some(CsvRow("ABCDEFGHIJ", OSV))
  {
    ExampleFields();
    assert "abcdefghij,osv" == "abcdefghij" + [','] + "osv";
    RowOfTwoFields("abcdefghij", ',', "osv");
  }

  lemma ExampleFields()
    ensures NoSeparator("abcdefghij") && NoSeparator("osv") && IsFieldSeparator(',')
    ensures ToUpper(Trim("abcdefghij")) == "ABCDEFGHIJ" && ValidCode("ABCDEFGHIJ")
    ensures ToUpper(Trim("osv")) == "OSV"
  {
    ExampleCode();
    TrimNoop("osv");
    assert ToUpper("osv") == "OSV";
  }

  lemma ExampleCode()
    ensures ToUpper(Trim("abcdefghij")) == "ABCDEFGHIJ" && ValidCode("ABCDEFGHIJ")
  {
    TrimNoop("abcdefghij");
    assert ToUpper("abcdefghij") == "ABCDEFGHIJ";
  }

  /** A code alone on its line is parsed as itself with the default type HSV. */
  lemma PlainCodeRow(line: string)
    requires ValidCode(line)
    ensures RowOf(line) == Some(CsvRow(line, HSV))
  {
    ValidCodeIsPlain(line);
    ValidCodeIsUpper(line);
    TrimNoop(line);
    assert Fields(line) == [line];
    assert ToUpper("HSV") == "HSV";
  }

  // ----- The hand-entered code list -----

  /** Each line trimmed and upper-cased, kept only when it is a code (add and delete both use this). */
  function CodesOfLines(lines: seq<string>): seq<string> {
    if lines == [] then []
    else (var c := ToUpper(Trim(lines[0])); if ValidCode(c) then [c] else []) + CodesOfLines(lines[1..])
  }

  function CodeList(text: string): seq<string> {
    CodesOfLines(SplitLines(text))
  }

  /** The manual entries: each listed code with the type chosen on the form. */
  function ManualRows(text: string, codesType: CodeType): (rows: seq<CsvRow>)
    ensures |rows| == |CodeList(text)|
    ensures forall k :: 0 <= k < |rows| ==> rows[k] == CsvRow(CodeList(text)[k], codesType)
  {
    var codes := CodeList(text);
    seq(|codes|, k requires 0 <= k < |codes| => CsvRow(codes[k], codesType))
  }

  /** A line the manual filter keeps is a CSV line whose row is that code with type HSV. */
  lemma ManualLineParsed(l: string)
    requires ValidCode(ToUpper(Trim(l)))
    ensures Trim(l) != ""
    ensures RowOf(Trim(l)) == Some(CsvRow(ToUpper(Trim(l)), HSV))
  {
    var t := Trim(l);
    UpperCasedValid(t);
    assert forall i :: 0 <= i < |t| ==> !IsJsWhitespace(t[i]) && !IsFieldSeparator(t[i]);
    TrimNoop(t);
    assert Fields(t) == [t];
    assert ToUpper("HSV") == "HSV";
  }

  lemma {:induction false} ManualCodesParsedLines(lines: seq<string>)
    ensures forall c :: c in CodesOfLines(lines) ==> CsvRow(c, HSV) in RowsOf(NonBlank(TrimEach(lines)))
  {
    if lines != [] {
      ManualCodesParsedLines(lines[1..]);
      var l := lines[0];
      assert TrimEach(lines) == [Trim(l)] + TrimEach(lines[1..]);
      var c := ToUpper(Trim(l));
      if ValidCode(c) {
        ManualLineParsed(l);
        assert NonBlank(TrimEach(lines)) == [Trim(l)] + NonBlank(TrimEach(lines[1..]));
        RowsOfAppend([Trim(l)], NonBlank(TrimEach(lines[1..])));
        RowsOfSingle(Trim(l));
      } else {
        var tail := NonBlank(TrimEach(lines[1..]));
        var head := if Trim(l) == "" then [] else [Trim(l)];
        assert NonBlank(TrimEach(lines)) == head + tail;
        RowsOfAppend(head, tail);
      }
    }
  }

  /** Every code the manual filter accepts was already parsed by `parseCsv`, with type HSV. */
  lemma ManualRowsAreParsed(text: string, codesType: CodeType)
    ensures forall r :: r in ManualRows(text, codesType) ==> CsvRow(r.code, HSV) in ParsedRows(text)
  {
    ManualCodesParsedLines(SplitLines(text));
  }

  // ----- The ticket store -----

  datatype Store = Store(hsvAvailable: seq<string>, hsvUsed: seq<string>, osvAvailable: seq<string>, osvUsed: seq<string>)

  /** `next[type].available`: the available list of one code type. */
  function AvailableOf(s: Store, t: CodeType): seq<string> {
    match t
    case HSV => s.hsvAvailable
    case OSV => s.osvAvailable
  }

  /** The duplicate test of the add loops: the code is in one of the four lists. */
  predicate Known(s: Store, code: string) {
    code in s.hsvAvailable || code in s.osvAvailable || code in s.hsvUsed || code in s.osvUsed
  }

  function KnownCodes(s: Store): set<string> {
    set c | c in s.hsvAvailable + s.osvAvailable + s.hsvUsed + s.osvUsed
  }

  /** `totalAvailable`. */
  function TotalAvailable(s: Store): nat {
    |s.hsvAvailable| + |s.osvAvailable|
  }

  /** `totalUsed`. */
  function TotalUsed(s: Store): nat {
    |s.hsvUsed| + |s.osvUsed|
  }

  /** `totalTickets`. */
  function TotalTickets(s: Store): (n: nat)
    ensures n == |s.hsvAvailable| + |s.osvAvailable| + |s.hsvUsed| + |s.osvUsed|
  {
    TotalAvailable(s) + TotalUsed(s)
  }

  predicate Distinct(s: seq<string>) {
    forall i, j :: 0 <= i < j < |s| ==> s[i] != s[j]
  }

  /** A store in which no code appears twice, within a list or across lists. */
  predicate WellFormedStore(s: Store) {
    Distinct(s.hsvAvailable + s.osvAvailable + s.hsvUsed + s.osvUsed)
  }

  /**
   * One iteration of the add loop: a known code changes nothing; a new one is
   * appended to the available list of its row's type, and the other lists stay.
   */
  function InsertRow(s: Store, row: CsvRow): (s': Store)
    ensures Known(s, row.code) ==> s' == s
    ensures !Known(s, row.code) ==> AvailableOf(s', row.codeType) == AvailableOf(s, row.codeType) + [row.code]
    ensures forall t :: t != row.codeType ==> AvailableOf(s', t) == AvailableOf(s, t)
    ensures s'.hsvUsed == s.hsvUsed && s'.osvUsed == s.osvUsed
    ensures Known(s', row.code)
  {
    if Known(s, row.code) then s
    else match row.codeType
      case HSV => s.(hsvAvailable := s.hsvAvailable + [row.code])
      case OSV => s.(osvAvailable := s.osvAvailable + [row.code])
  }

  /** The add loop over all rows, in order. */
  function InsertRows(s: Store, rows: seq<CsvRow>): (s': Store)
    ensures s'.hsvUsed == s.hsvUsed && s'.osvUsed == s.osvUsed
    decreases rows
  {
    if rows == [] then s else InsertRows(InsertRow(s, rows[0]), rows[1..])
  }

  /** The position of the first row carrying `code`, or `|rows|` when none does. */
  function FirstWith(rows: seq<CsvRow>, code: string): (k: nat)
    ensures k <= |rows|
    ensures forall j :: 0 <= j < k ==> rows[j].code != code
    ensures k < |rows| ==> rows[k].code == code
  {
    if rows == [] || rows[0].code == code then 0 else 1 + FirstWith(rows[1..], code)
  }

  /**
   * Where adding rows puts each code: a code is available under a type
   * afterwards exactly when it already was, or it was unknown before and the
   * first row carrying it has that type. Later rows with the same code, of
   * either type, are skipped.
   */
  lemma {:induction false} InsertRowsPlacement(s: Store, rows: seq<CsvRow>, c: string, t: CodeType)
    ensures c in AvailableOf(InsertRows(s, rows), t) <==>
      c in AvailableOf(s, t) || (!Known(s, c) && FirstWith(rows, c) < |rows| && rows[FirstWith(rows, c)].codeType == t)
    decreases rows
  {
    if rows != [] {
      var s1 := InsertRow(s, rows[0]);
      InsertRowsPlacement(s1, rows[1..], c, t);
      if rows[0].code == c {
        assert FirstWith(rows, c) == 0;
        if !Known(s, c) {
          assert c !in AvailableOf(s, t);
          if t == rows[0].codeType {
            assert c in AvailableOf(s1, t);
          }
        }
      } else {
        assert FirstWith(rows, c) == 1 + FirstWith(rows[1..], c);
        assert Known(s1, c) == Known(s, c);
        assert c in AvailableOf(s1, t) <==> c in AvailableOf(s, t);
      }
    }
  }

  /** The loop's `added` counter. */
  function AddedCount(s: Store, rows: seq<CsvRow>): nat
    decreases rows
  {
    if rows == [] then 0
    else (if Known(s, rows[0].code) then 0 else 1) + AddedCount(InsertRow(s, rows[0]), rows[1..])
  }

  function RowCodes(rows: seq<CsvRow>): set<string> {
    set r | r in rows :: r.code
  }

  lemma KnownCodesInsert(s: Store, row: CsvRow)
    ensures KnownCodes(InsertRow(s, row)) == KnownCodes(s) + {row.code}
    ensures !Known(s, row.code) ==> TotalAvailable(InsertRow(s, row)) == TotalAvailable(s) + 1
    ensures Known(s, row.code) ==> InsertRow(s, row) == s
  {
    var s' := InsertRow(s, row);
    assert forall c :: c in KnownCodes(s') <==> Known(s', c);
    assert forall c :: c in KnownCodes(s) <==> Known(s, c);
  }

  lemma RowCodesCons(rows: seq<CsvRow>)
    requires rows != []
    ensures RowCodes(rows) == {rows[0].code} + RowCodes(rows[1..])
  {
    forall c | c in RowCodes(rows) ensures c in {rows[0].code} + RowCodes(rows[1..]) {
      var r :| r in rows && r.code == c;
      if r != rows[0] {
        assert r in rows[1..];
      }
    }
  }

  /**
   * What adding a list of rows does to the codes: every row's code is known
   * afterwards, nothing else becomes known, and the available lists only grow
   * at their ends.
   */
  lemma {:induction false} InsertRowsKnown(s: Store, rows: seq<CsvRow>)
    ensures var s' := InsertRows(s, rows);
      && KnownCodes(s') == KnownCodes(s) + RowCodes(rows)
      && s.hsvAvailable <= s'.hsvAvailable && s.osvAvailable <= s'.osvAvailable
    decreases rows
  {
    if rows == [] {
      assert RowCodes(rows) == {};
    } else {
      KnownCodesInsert(s, rows[0]);
      InsertRowsKnown(InsertRow(s, rows[0]), rows[1..]);
      RowCodesCons(rows);
    }
  }

  /**
   * What adding a list of rows does to the counts: the total grows by `added`,
   * and `added` is the number of distinct new codes, so a code repeated in the
   * input is added once.
   */
  lemma {:induction false} InsertRowsTotal(s: Store, rows: seq<CsvRow>)
    ensures TotalAvailable(InsertRows(s, rows)) == TotalAvailable(s) + AddedCount(s, rows)
    decreases rows
  {
    if rows != [] {
      KnownCodesInsert(s, rows[0]);
      InsertRowsTotal(InsertRow(s, rows[0]), rows[1..]);
    }
  }

  lemma {:induction false} InsertRowsCount(s: Store, rows: seq<CsvRow>)
    ensures TotalAvailable(InsertRows(s, rows)) == TotalAvailable(s) + AddedCount(s, rows)
    ensures AddedCount(s, rows) == |RowCodes(rows) - KnownCodes(s)|
    decreases rows
  {
    InsertRowsTotal(s, rows);
    if rows == [] {
      assert RowCodes(rows) == {};
    } else {
      var row := rows[0];
      var s1 := InsertRow(s, row);
      KnownCodesInsert(s, row);
      InsertRowsCount(s1, rows[1..]);
      RowCodesCons(rows);
      assert Known(s, row.code) <==> row.code in KnownCodes(s);
      NewCodesStep(row.code, RowCodes(rows[1..]), KnownCodes(s));
    }
  }

  /** The new codes of a row list, split at its first row. */
  lemma NewCodesStep(x: string, rest: set<string>, k: set<string>)
    ensures x in k ==> |({x} + rest) - k| == |rest - k|
    ensures x !in k ==> |({x} + rest) - k| == |rest - (k + {x})| + 1
  {
    if x in k {
      assert ({x} + rest) - k == rest - k;
    } else {
      assert ({x} + rest) - k == (rest - (k + {x})) + {x};
      assert x !in rest - (k + {x});
    }
  }

  /** Rows whose codes are all known change nothing and add nothing. */
  lemma {:induction false} InsertKnownRows(s: Store, rows: seq<CsvRow>)
    requires forall r :: r in rows ==> Known(s, r.code)
    ensures InsertRows(s, rows) == s
    ensures AddedCount(s, rows) == 0
    decreases rows
  {
    if rows != [] {
      KnownCodesInsert(s, rows[0]);
      assert forall r :: r in rows[1..] ==> r in rows;
      InsertKnownRows(s, rows[1..]);
    }
  }

  lemma {:induction false} InsertRowsAppend(s: Store, a: seq<CsvRow>, b: seq<CsvRow>)
    ensures InsertRows(s, a + b) == InsertRows(InsertRows(s, a), b)
    ensures AddedCount(s, a + b) == AddedCount(s, a) + AddedCount(InsertRows(s, a), b)
    decreases a
  {
    if a == [] {
      assert a + b == b;
    } else {
      assert (a + b)[0] == a[0];
      assert (a + b)[1..] == a[1..] + b;
      var s1 := InsertRow(s, a[0]);
      assert InsertRows(s, a + b) == InsertRows(s1, a[1..] + b);
      assert AddedCount(s, a + b) == (if Known(s, a[0].code) then 0 else 1) + AddedCount(s1, a[1..] + b);
      InsertRowsAppend(s1, a[1..], b);
    }
  }

  /** Adding the same rows a second time changes nothing. */
  lemma InsertRowsIdempotent(s: Store, rows: seq<CsvRow>)
    ensures InsertRows(InsertRows(s, rows), rows) == InsertRows(s, rows)
    ensures AddedCount(InsertRows(s, rows), rows) == 0
  {
    var s' := InsertRows(s, rows);
    InsertRowsKnown(s, rows);
    forall r | r in rows ensures Known(s', r.code) {
      assert r.code in RowCodes(rows);
      assert r.code in KnownCodes(s');
    }
    InsertKnownRows(s', rows);
  }

  /**
   * The type chosen for hand-entered codes never decides a pool: the manual
   * rows follow the parsed rows of the same text, and every one of them was
   * already parsed, so adding them changes nothing.
   */
  lemma ManualTypeIgnored(s: Store, text: string, codesType: CodeType)
    ensures InsertRows(s, ParsedRows(text) + ManualRows(text, codesType)) == InsertRows(s, ParsedRows(text))
    ensures AddedCount(s, ParsedRows(text) + ManualRows(text, codesType)) == AddedCount(s, ParsedRows(text))
  {
    var parsed := ParsedRows(text);
    var manual := ManualRows(text, codesType);
    var s1 := InsertRows(s, parsed);
    InsertRowsAppend(s, parsed, manual);
    InsertRowsKnown(s, parsed);
    ManualRowsAreParsed(text, codesType);
    forall r | r in manual ensures Known(s1, r.code) {
      assert r.code in RowCodes(parsed);
      assert r.code in KnownCodes(s1);
    }
    InsertKnownRows(s1, manual);
  }

  /** Adding keeps a store free of duplicates. */
  lemma {:induction false} InsertRowsWellFormed(s: Store, rows: seq<CsvRow>)
    requires WellFormedStore(s)
    ensures WellFormedStore(InsertRows(s, rows))
    decreases rows
  {
    if rows != [] {
      var row := rows[0];
      var s1 := InsertRow(s, row);
      if !Known(s, row.code) {
        var all := s.hsvAvailable + s.osvAvailable + s.hsvUsed + s.osvUsed;
        var all1 := s1.hsvAvailable + s1.osvAvailable + s1.hsvUsed + s1.osvUsed;
        assert row.code !in all;
        assert multiset(all1) == multiset(all) + multiset{row.code};
        DistinctByMultiset(all, all1, row.code);
      }
      InsertRowsWellFormed(s1, rows[1..]);
    }
  }

  lemma DistinctByMultiset(a: seq<string>, b: seq<string>, x: string)
    requires Distinct(a) && x !in a
    requires multiset(b) == multiset(a) + multiset{x}
    ensures Distinct(b)
  {
    forall y ensures multiset(b)[y] <= 1 {
      DistinctCount(a, y);
    }
    forall i, j | 0 <= i < j < |b| ensures b[i] != b[j] {
      if b[i] == b[j] {
        TwoCopies(b, i, j);
        assert false;
      }
    }
  }

  lemma DistinctCount(a: seq<string>, y: string)
    requires Distinct(a)
    ensures multiset(a)[y] <= 1
  {
    if a != [] {
      assert a == [a[0]] + a[1..];
      assert Distinct(a[1..]);
      assert a[0] !in a[1..];
      DistinctCount(a[1..], y);
    }
  }

  lemma TwoCopies(b: seq<string>, i: int, j: int)
    requires 0 <= i < j < |b| && b[i] == b[j]
    ensures multiset(b)[b[i]] >= 2
  {
    assert b == b[..i] + [b[i]] + b[i + 1..j] + [b[j]] + b[j + 1..];
  }

  // ----- Deleting codes -----

  /** `indexOf`. */
  function IndexOf(xs: seq<string>, c: string): (i: int)
    ensures -1 <= i < |xs|
    ensures i == -1 <==> c !in xs
    ensures i >= 0 ==> xs[i] == c && c !in xs[..i]
  {
    if xs == [] then -1
    else if xs[0] == c then 0
    else var k := IndexOf(xs[1..], c); if k == -1 then -1 else k + 1
  }

  /** `splice(i, 1)`. */
  function RemoveAt(xs: seq<string>, i: nat): (r: seq<string>)
    requires i < |xs|
    ensures |r| == |xs| - 1
  {
    xs[..i] + xs[i + 1..]
  }

  /** Removes the first occurrence, if any. */
  function RemoveFirst(xs: seq<string>, c: string): (r: seq<string>)
    ensures c in xs ==> |r| == |xs| - 1
    ensures c !in xs ==> r == xs
  {
    var i := IndexOf(xs, c);
    if i == -1 then xs else RemoveAt(xs, i)
  }

  /** One iteration of the delete loop: the code leaves `HSV.available`, then `OSV.available`. */
  function DeleteOne(s: Store, c: string): (s': Store)
    ensures s'.hsvUsed == s.hsvUsed && s'.osvUsed == s.osvUsed
  {
    s.(hsvAvailable := RemoveFirst(s.hsvAvailable, c), osvAvailable := RemoveFirst(s.osvAvailable, c))
  }

  /** The removals one code makes (0, 1 or 2). */
  function RemovedBy(s: Store, c: string): nat {
    (if c in s.hsvAvailable then 1 else 0) + (if c in s.osvAvailable then 1 else 0)
  }

  function DeleteCodes(s: Store, codes: seq<string>): (s': Store)
    ensures s'.hsvUsed == s.hsvUsed && s'.osvUsed == s.osvUsed
    decreases codes
  {
    if codes == [] then s else DeleteCodes(DeleteOne(s, codes[0]), codes[1..])
  }

  /** The loop's `removed` counter. */
  function RemovedCount(s: Store, codes: seq<string>): nat
    decreases codes
  {
    if codes == [] then 0 else RemovedBy(s, codes[0]) + RemovedCount(DeleteOne(s, codes[0]), codes[1..])
  }

  lemma RemoveFirstDistinct(xs: seq<string>, c: string)
    requires Distinct(xs)
    ensures Distinct(RemoveFirst(xs, c))
    ensures forall x :: x in RemoveFirst(xs, c) <==> x in xs && x != c
  {
    var i := IndexOf(xs, c);
    if i != -1 {
      var r := RemoveAt(xs, i);
      forall x ensures x in r <==> x in xs && x != c {
        if x in xs && x != c {
          var k :| 0 <= k < |xs| && xs[k] == x;
          if k < i { assert r[k] == x; } else { assert r[k - 1] == x; }
        }
        if x in r {
          var k :| 0 <= k < |r| && r[k] == x;
          if k < i { assert xs[k] == x; } else { assert xs[k + 1] == x; assert i != k + 1; }
        }
      }
      forall p, q | 0 <= p < q < |r| ensures r[p] != r[q] {
        var p' := if p < i then p else p + 1;
        var q' := if q < i then q else q + 1;
        assert r[p] == xs[p'] && r[q] == xs[q'];
      }
    }
  }

  /** Deleting never removes more than it counts: the available total drops by `removed`. */
  lemma {:induction false} DeleteCodesTotal(s: Store, codes: seq<string>)
    ensures TotalAvailable(DeleteCodes(s, codes)) + RemovedCount(s, codes) == TotalAvailable(s)
    decreases codes
  {
    if codes != [] {
      DeleteCodesTotal(DeleteOne(s, codes[0]), codes[1..]);
    }
  }

  /**
   * On a store whose available lists hold no duplicates, deleting leaves
   * exactly the available codes that were not listed, in each type.
   */
  lemma {:induction false} DeleteCodesSpec(s: Store, codes: seq<string>)
    requires Distinct(s.hsvAvailable) && Distinct(s.osvAvailable)
    ensures var s' := DeleteCodes(s, codes);
      && Distinct(s'.hsvAvailable) && Distinct(s'.osvAvailable)
      && (forall c :: c in s'.hsvAvailable <==> c in s.hsvAvailable && c !in codes)
      && (forall c :: c in s'.osvAvailable <==> c in s.osvAvailable && c !in codes)
    decreases codes
  {
    if codes != [] {
      var s1 := DeleteOne(s, codes[0]);
      RemoveFirstDistinct(s.hsvAvailable, codes[0]);
      RemoveFirstDistinct(s.osvAvailable, codes[0]);
      DeleteCodesSpec(s1, codes[1..]);
      assert forall c :: c in codes <==> c == codes[0] || c in codes[1..];
    }
  }

  // ----- Users -----

  /** A dashboard user record; the id comes from `crypto.randomUUID()`. */
  datatype DashUser = DashUser(id: string, teamName: string, email: string, password: string,
                               userType: CodeType, assignedCount: nat)

  /** A stored email as the duplicate test sees it: trimmed and lower-cased. */
  function EmailKey(email: string): string {
    ToLower(Trim(email))
  }

  /** The duplicate test: some stored email matches the lower-cased (already trimmed) entry. */
  predicate EmailTaken(users: seq<DashUser>, e: string) {
    exists k :: 0 <= k < |users| && EmailKey(users[k].email) == ToLower(e)
  }

  /** No two users share an email under trim and lower-casing. */
  predicate UniqueEmails(users: seq<DashUser>) {
    forall i, j :: 0 <= i < j < |users| ==> EmailKey(users[i].email) != EmailKey(users[j].email)
  }

  lemma PrependUnique(users: seq<DashUser>, u: DashUser)
    requires UniqueEmails(users)
    requires forall k :: 0 <= k < |users| ==> EmailKey(users[k].email) != EmailKey(u.email)
    ensures UniqueEmails([u] + users)
  {
    var us := [u] + users;
    forall i, j | 0 <= i < j < |us| ensures EmailKey(us[i].email) != EmailKey(us[j].email) {
      assert us[j] == users[j - 1];
      if i > 0 {
        assert us[i] == users[i - 1];
      }
    }
  }

  datatype CreateOutcome = MissingFields | UserExists | Created(user: DashUser)

  /** `handleCreateUser`'s decision for the trimmed form fields. */
  function CreateUserOutcome(users: seq<DashUser>, id: string, teamName: string, email: string,
                             password: string, userType: CodeType): (o: CreateOutcome)
    ensures o == MissingFields <==> Trim(teamName) == "" || Trim(email) == "" || Trim(password) == ""
    ensures o == UserExists <==> !o.MissingFields? && EmailTaken(users, Trim(email))
    ensures o.Created? ==> o.user == DashUser(id, Trim(teamName), Trim(email), Trim(password), userType, 0)
  {
    var t := Trim(teamName);
    var e := Trim(email);
    var p := Trim(password);
    if t == "" || e == "" || p == "" then MissingFields
    else if EmailTaken(users, e) then UserExists
    else Created(DashUser(id, t, e, p, userType, 0))
  }

  /** Creating a user keeps emails unique: the new one clashes with none already present. */
  lemma CreateUserKeepsEmailsUnique(users: seq<DashUser>, id: string, teamName: string, email: string,
                                    password: string, userType: CodeType)
    requires UniqueEmails(users)
    ensures match CreateUserOutcome(users, id, teamName, email, password, userType)
      case Created(u) => UniqueEmails([u] + users)
      case _ => true
  {
    var o := CreateUserOutcome(users, id, teamName, email, password, userType);
    if o.Created? {
      var e := Trim(email);
      TrimIdempotent(email);
      assert EmailKey(o.user.email) == ToLower(e);
      assert !EmailTaken(users, e);
      PrependUnique(users, o.user);
    }
  }

  // ----- The dashboard state -----

  datatype AddOutcome = NoValidCodes | NothingEntered | Added(count: nat)
  datatype UploadOutcome = NotCsv | NoValidRows | Imported(count: nat)
  datatype DeleteOutcome = NothingToDelete | Deleted(count: nat)

  /** `/\.csv$/i`: the name ends in ".csv", letters in any case. */
  predicate IsCsvName(fileName: string) {
    |fileName| >= 4 && ToLower(fileName[|fileName| - 4..]) == ".csv"
  }

  /** The users list and the ticket store as the dashboard holds them. */
  class Dashboard {
    var users: seq<DashUser>
    var tickets: Store

    constructor (users0: seq<DashUser>, tickets0: Store)
      ensures users == users0 && tickets == tickets0
    {
      users := users0;
      tickets := tickets0;
    }

    /** The add loop shared by manual add and CSV upload. */
    method InsertAll(rows: seq<CsvRow>) returns (added: nat)
      modifies this
      ensures tickets == InsertRows(old(tickets), rows)
      ensures added == AddedCount(old(tickets), rows)
      ensures users == old(users)
    {
      var i := 0;
      added := 0;
      while i < |rows|
        invariant 0 <= i <= |rows|
        invariant InsertRows(tickets, rows[i..]) == InsertRows(old(tickets), rows)
        invariant added + AddedCount(tickets, rows[i..]) == AddedCount(old(tickets), rows)
        invariant users == old(users)
      {
        assert rows[i..][1..] == rows[i + 1..];
        var row := rows[i];
        if !Known(tickets, row.code) {
          match row.codeType {
            case HSV => tickets := tickets.(hsvAvailable := tickets.hsvAvailable + [row.code]);
            case OSV => tickets := tickets.(osvAvailable := tickets.osvAvailable + [row.code]);
          }
          added := added + 1;
        }
        i := i + 1;
      }
      assert rows[i..] == [];
    }

    /** `handleAddTickets`: parsed CSV rows, then the manual rows with the chosen type. */
    method AddTickets(codesText: string, codesType: CodeType) returns (outcome: AddOutcome)
      modifies this
      ensures users == old(users)
      ensures var parsed := ParsedRows(codesText);
        var all := parsed + ManualRows(codesText, codesType);
        if parsed == [] && Trim(codesText) != "" then outcome == NoValidCodes && tickets == old(tickets)
        else if all == [] then outcome == NothingEntered && tickets == old(tickets)
        else outcome == Added(AddedCount(old(tickets), all)) && tickets == InsertRows(old(tickets), all)
    {
      var parsed := ParseCsv(codesText);
      if |parsed| == 0 && Trim(codesText) != "" {
        return NoValidCodes;
      }
      var all := parsed + ManualRows(codesText, codesType);
      if |all| == 0 {
        return NothingEntered;
      }
      var added := InsertAll(all);
      outcome := Added(added);
    }

    /** `handleCsvUpload`, with the file's name and text as inputs. */
    method CsvUpload(fileName: string, text: string) returns (outcome: UploadOutcome)
      modifies this
      ensures users == old(users)
      ensures !IsCsvName(fileName) ==> outcome == NotCsv && tickets == old(tickets)
      ensures IsCsvName(fileName) ==>
        if ParsedRows(text) == [] then outcome == NoValidRows && tickets == old(tickets)
        else (outcome == Imported(AddedCount(old(tickets), ParsedRows(text)))
              && tickets == InsertRows(old(tickets), ParsedRows(text)))
    {
      if !IsCsvName(fileName) {
        return NotCsv;
      }
      var parsed := ParseCsv(text);
      if |parsed| == 0 {
        return NoValidRows;
      }
      var added := InsertAll(parsed);
      outcome := Imported(added);
    }

    /** `handleDeleteTickets`. */
    method DeleteTickets(text: string) returns (outcome: DeleteOutcome)
      modifies this
      ensures users == old(users)
      ensures CodeList(text) == [] ==> outcome == NothingToDelete && tickets == old(tickets)
      ensures CodeList(text) != [] ==>
        outcome == Deleted(RemovedCount(old(tickets), CodeList(text)))
        && tickets == DeleteCodes(old(tickets), CodeList(text))
    {
      var list := CodeList(text);
      if |list| == 0 {
        return NothingToDelete;
      }
      var removed := 0;
      var i := 0;
      while i < |list|
        invariant 0 <= i <= |list|
        invariant DeleteCodes(tickets, list[i..]) == DeleteCodes(old(tickets), list)
        invariant removed + RemovedCount(tickets, list[i..]) == RemovedCount(old(tickets), list)
        invariant users == old(users)
      {
        assert list[i..][1..] == list[i + 1..];
        var code := list[i];
        var idxA := IndexOf(tickets.hsvAvailable, code);
        if idxA != -1 {
          tickets := tickets.(hsvAvailable := RemoveAt(tickets.hsvAvailable, idxA));
          removed := removed + 1;
        }
        var idxB := IndexOf(tickets.osvAvailable, code);
        if idxB != -1 {
          tickets := tickets.(osvAvailable := RemoveAt(tickets.osvAvailable, idxB));
          removed := removed + 1;
        }
        i := i + 1;
      }
      assert list[i..] == [];
      outcome := Deleted(removed);
    }

    /** `handleCreateUser`, with the generated id as an input. */
    method CreateUser(id: string, teamName: string, email: string, password: string, userType: CodeType)
      returns (outcome: CreateOutcome)
      modifies this
      ensures outcome == CreateUserOutcome(old(users), id, teamName, email, password, userType)
      ensures users == if outcome.Created? then [outcome.user] + old(users) else old(users)
      ensures tickets == old(tickets)
    {
      var t := Trim(teamName);
      var e := Trim(email);
      var p := Trim(password);
      if t == "" || e == "" || p == "" {
        return MissingFields;
      }
      if EmailTaken(users, e) {
        return UserExists;
      }
      var u := DashUser(id, t, e, p, userType, 0);
      users := [u] + users;
      outcome := Created(u);
    }
  }
}
