/** Export of events as CSV (packages/backend/prisma/export-events-csv.ts). */
module CsvExport {
  import opened Prelude

  const BOM := "\U{FEFF}"

  // ----- Writing -----

  /** Every quote is written twice. */
  function DoubleQuotes(s: string): string {
    if s == "" then "" else (if s[0] == '"' then "\"\"" else [s[0]]) + DoubleQuotes(s[1..])
  }

  predicate NeedsQuotes(s: string) {
    ',' in s || '"' in s || '\n' in s
  }

  /** A value, already converted by `String`; None is null or undefined. */
  function EscapeCsv(value: Option<string>): string {
    if value.None? then ""
    else if NeedsQuotes(value.value) then "\"" + DoubleQuotes(value.value) + "\""
    else value.value
  }

  function JoinEscaped(row: seq<Option<string>>): string {
    if row == [] then ""
    else if |row| == 1 then EscapeCsv(row[0])
    else EscapeCsv(row[0]) + "," + JoinEscaped(row[1..])
  }

  function PrintRows(rows: seq<seq<Option<string>>>): string {
    if rows == [] then "" else JoinEscaped(rows[0]) + "\n" + PrintRows(rows[1..])
  }

  // ----- Reading: section 2 of RFC 4180, with LF at the end of a record -----

  /** A field and what follows it: a comma, the end of the record, or nothing. */
  type Parsed = Option<(string, string)>

  function Consed(c: char, p: Parsed): Parsed {
    if p.None? then None else Some(([c] + p.value.0, p.value.1))
  }

  /** The rest of a field that is not quoted: it has no comma, quote, line feed or carriage return. */
  function ReadPlain(s: string): (r: Parsed)
    ensures r.Some? ==> |r.value.1| <= |s|
  {
    if s == "" || s[0] == ',' || s[0] == '\n' then Some(("", s))
    else if s[0] == '"' || s[0] == '\r' then None
    else Consed(s[0], ReadPlain(s[1..]))
  }

  /** The rest of a quoted field: two quotes stand for one. */
  function ReadQuoted(s: string): (r: Parsed)
    ensures r.Some? ==> |r.value.1| < |s|
  {
    if s == "" then None
    else if s[0] != '"' then Consed(s[0], ReadQuoted(s[1..]))
    else if |s| > 1 && s[1] == '"' then Consed('"', ReadQuoted(s[2..]))
    else Some(("", s[1..]))
  }

  function ReadField(s: string): (r: Parsed)
    ensures r.Some? ==> |r.value.1| <= |s|
  {
    if s != "" && s[0] == '"' then ReadQuoted(s[1..]) else ReadPlain(s)
  }

  function ReadRecord(s: string): (r: Option<(seq<string>, string)>)
    ensures r.Some? ==> |r.value.1| < |s|
    decreases |s|
  {
    var field := ReadField(s);
    if field.None? || field.value.1 == "" then None
    else
      var (value, rest) := field.value;
      if rest[0] == '\n' then Some(([value], rest[1..]))
      else if rest[0] != ',' then None
      else
        var others := ReadRecord(rest[1..]);
        if others.None? then None else Some(([value] + others.value.0, others.value.1))
  }

  function ReadRows(s: string): Option<seq<seq<string>>>
    decreases |s|
  {
    if s == "" then Some([])
    else
      var record := ReadRecord(s);
      if record.None? then None
      else
        var others := ReadRows(record.value.1);
        if others.None? then None else Some([record.value.0] + others.value)
  }

  // ----- What is written is read back -----

  predicate EndsField(tail: string) {
    tail != "" && (tail[0] == ',' || tail[0] == '\n')
  }

  /** A carriage return that the writer does not put in quotes. */
  predicate BareReturn(v: string) {
    '\r' in v && !NeedsQuotes(v)
  }

  lemma {:induction false} PlainBack(v: string, tail: string)
    requires !NeedsQuotes(v) && EndsField(tail)
    ensures ReadPlain(v + tail) == if '\r' in v then None else Some((v, tail))
  {
    if v == "" {
      assert v + tail == tail;
    } else {
      assert (v + tail)[1..] == v[1..] + tail && (v + tail)[0] == v[0];
      assert v[0] in v && forall c :: c in v <==> c == v[0] || c in v[1..];
      PlainBack(v[1..], tail);
      assert [v[0]] + v[1..] == v;
    }
  }

  lemma {:induction false} QuotedBack(v: string, tail: string)
    requires EndsField(tail)
    ensures ReadQuoted(DoubleQuotes(v) + "\"" + tail) == Some((v, tail))
  {
    var s := DoubleQuotes(v) + "\"" + tail;
    if v == "" {
      assert s[0] == '"' && s[1..] == tail;
    } else {
      QuotedBack(v[1..], tail);
      var rest := DoubleQuotes(v[1..]) + "\"" + tail;
      if v[0] == '"' {
        assert s == "\"\"" + rest;
        assert s[1] == '"' && s[2..] == rest;
      } else {
        assert s == [v[0]] + rest;
      }
      assert [v[0]] + v[1..] == v;
    }
  }

  /** A field is read back unless it has a carriage return outside quotes; then nothing is read. */
  lemma FieldBack(value: Option<string>, tail: string)
    requires EndsField(tail)
    ensures ReadField(EscapeCsv(value) + tail)
         == if BareReturn(value.GetOr("")) then None else Some((value.GetOr(""), tail))
  {
    hide ReadQuoted, ReadPlain, DoubleQuotes;
    var v := value.GetOr("");
    if NeedsQuotes(v) {
      QuotedBack(v, tail);
      var s := DoubleQuotes(v) + "\"" + tail;
      assert EscapeCsv(value) + tail == "\"" + s;
      assert ("\"" + s)[1..] == s;
    } else {
      PlainBack(v, tail);
      assert EscapeCsv(value) == v;
      if v != "" {
        assert v[0] in v && (v + tail)[0] == v[0];
      } else {
        assert v + tail == tail;
      }
    }
  }

  /** A row as it is read: null is read as the empty string. */
  function Texts(row: seq<Option<string>>): (t: seq<string>)
    ensures |t| == |row| && forall i | 0 <= i < |row| :: t[i] == row[i].GetOr("")
  {
    seq(|row|, i requires 0 <= i < |row| => row[i].GetOr(""))
  }

  predicate Readable(row: seq<Option<string>>) {
    forall v | v in row :: !BareReturn(v.GetOr(""))
  }

  lemma FirstAndRest(row: seq<Option<string>>)
    requires row != []
    ensures Readable(row) <==> !BareReturn(row[0].GetOr("")) && Readable(row[1..])
    ensures Texts(row) == [row[0].GetOr("")] + Texts(row[1..])
  {
    hide BareReturn;
    assert forall v :: v in row <==> v == row[0] || v in row[1..];
  }

  lemma JoinFirst(row: seq<Option<string>>, tail: string)
    requires |row| > 1
    ensures JoinEscaped(row) + "\n" + tail == EscapeCsv(row[0]) + ("," + (JoinEscaped(row[1..]) + "\n" + tail))
  {
    hide EscapeCsv;
  }

  lemma {:induction false} RecordBack(row: seq<Option<string>>, tail: string)
    requires row != []
    ensures ReadRecord(JoinEscaped(row) + "\n" + tail) == if Readable(row) then Some((Texts(row), tail)) else None
  {
    hide EscapeCsv, ReadField, Texts, BareReturn, ReadRecord, Readable, JoinEscaped;
    if |row| == 1 {
      LastFieldBack(row[0], tail);
      OneField(row);
    } else {
      FirstAndRest(row);
      RecordBack(row[1..], tail);
      JoinFirst(row, tail);
      FieldThenRecord(row[0], JoinEscaped(row[1..]) + "\n" + tail);
    }
  }

  lemma OneField(row: seq<Option<string>>)
    requires |row| == 1
    ensures JoinEscaped(row) == EscapeCsv(row[0])
    ensures Texts(row) == [row[0].GetOr("")] && (Readable(row) <==> !BareReturn(row[0].GetOr("")))
  {
    hide EscapeCsv, BareReturn;
  }

  lemma LastFieldBack(value: Option<string>, tail: string)
    ensures ReadRecord(EscapeCsv(value) + "\n" + tail)
         == if BareReturn(value.GetOr("")) then None else Some(([value.GetOr("")], tail))
  {
    hide EscapeCsv, ReadField, BareReturn;
    FieldBack(value, "\n" + tail);
    assert EscapeCsv(value) + "\n" + tail == EscapeCsv(value) + ("\n" + tail);
    assert ("\n" + tail)[1..] == tail;
  }

  lemma FieldThenRecord(value: Option<string>, rest: string)
    ensures ReadRecord(EscapeCsv(value) + ("," + rest))
         == var others := ReadRecord(rest);
            if BareReturn(value.GetOr("")) || others.None? then None
            else Some(([value.GetOr("")] + others.value.0, others.value.1))
  {
    hide EscapeCsv, ReadField, BareReturn;
    FieldBack(value, "," + rest);
    assert ("," + rest)[1..] == rest;
  }

  function AllTexts(rows: seq<seq<Option<string>>>): seq<seq<string>> {
    if rows == [] then [] else [Texts(rows[0])] + AllTexts(rows[1..])
  }

  /**
    Reading the export gives back every row, whatever commas, quotes and line feeds it contains,
    exactly when no field has a carriage return outside quotes; otherwise the reader rejects it.
   */
  lemma {:induction false} RowsBack(rows: seq<seq<Option<string>>>)
    requires forall r | r in rows :: r != []
    ensures ReadRows(PrintRows(rows)) == if forall r | r in rows :: Readable(r) then Some(AllTexts(rows)) else None
  {
    hide ReadRecord, JoinEscaped, Texts, Readable;
    if rows != [] {
      assert rows[0] in rows && forall r :: r in rows <==> r == rows[0] || r in rows[1..];
      RecordBack(rows[0], PrintRows(rows[1..]));
      RowsBack(rows[1..]);
      PrintedNotEmpty(rows);
    }
  }

  lemma PrintedNotEmpty(rows: seq<seq<Option<string>>>)
    requires rows != []
    ensures PrintRows(rows) == JoinEscaped(rows[0]) + "\n" + PrintRows(rows[1..]) && PrintRows(rows) != ""
  {
  }

  // ----- The cursor loop -----

  datatype Record = Record(id: string, columns: seq<Option<string>>)

  const BATCH := 500

  const HEADERS: seq<string> := [
    "id", "tcEventId", "title", "slug", "city", "citySlug", "category", "source", "priceFrom", "isActive", "address",
    "lastSyncAt", "createdAt"]

  function PositionAfter(table: seq<Record>, cursor: string): (i: nat)
    ensures i <= |table|
  {
    if table == [] then 0 else if table[0].id == cursor then 1 else 1 + PositionAfter(table[1..], cursor)
  }

  /** A batch of rows in the order of the table: from its start, or after the row of the cursor. */
  function FindMany(table: seq<Record>, cursor: Option<string>): seq<Record> {
    var from := if cursor.Some? then PositionAfter(table, cursor.value) else 0;
    if |table| - from <= BATCH then table[from..] else table[from..from + BATCH]
  }

  predicate DistinctIds(table: seq<Record>) {
    && (forall i, j | 0 <= i < j < |table| :: table[i].id != table[j].id)
    && forall r | r in table :: r.id != ""
  }

  lemma {:induction false} PositionOf(table: seq<Record>, i: nat)
    requires DistinctIds(table) && i < |table|
    ensures PositionAfter(table, table[i].id) == i + 1
  {
    if i > 0 {
      assert forall r | r in table[1..] :: r in table;
      PositionOf(table[1..], i - 1);
    }
  }

  function Columns(table: seq<Record>): seq<seq<Option<string>>> {
    if table == [] then [] else [table[0].columns] + Columns(table[1..])
  }

  lemma {:induction false} PrintConcat(a: seq<Record>, b: seq<Record>)
    ensures PrintRows(Columns(a + b)) == PrintRows(Columns(a)) + PrintRows(Columns(b))
  {
    hide JoinEscaped;
    if a == [] {
      assert a + b == b;
    } else {
      PrintConcat(a[1..], b);
      assert (a + b)[1..] == a[1..] + b;
      assert Columns(a + b)[1..] == Columns(a[1..] + b) && Columns(a)[1..] == Columns(a[1..]);
    }
  }

  lemma PrintOne(r: Record)
    ensures PrintRows(Columns([r])) == JoinEscaped(r.columns) + "\n"
  {
    assert Columns([r]) == [r.columns] && [r.columns][1..] == [] && PrintRows([]) == "";
  }

  function HeaderLine(headers: seq<string>): string {
    if headers == [] then "" else if |headers| == 1 then headers[0] else headers[0] + "," + HeaderLine(headers[1..])
  }

  /** The rows of one batch, written one after the other. */
  method WriteBatch(batch: seq<Record>) returns (text: string, written: nat)
    ensures text == PrintRows(Columns(batch)) && written == |batch|
  {
    text, written := "", 0;
    assert batch[..0] == [] && PrintRows(Columns([])) == "";
    for i := 0 to |batch|
      invariant text == PrintRows(Columns(batch[..i])) && written == i
    {
      assert batch[..i + 1] == batch[..i] + [batch[i]];
      PrintConcat(batch[..i], [batch[i]]);
      PrintOne(batch[i]);
      text := text + (JoinEscaped(batch[i].columns) + "\n");
      written := written + 1;
    }
    assert batch[..|batch|] == batch;
  }

  /**
    The loop over a fixed table in a total order ends after writing each row once and in order; an
    undefined or empty cursor reads from the start.
   */
  method Export(table: seq<Record>) returns (file: string, total: nat)
    requires DistinctIds(table)
    ensures file == BOM + HeaderLine(HEADERS) + "\n" + PrintRows(Columns(table))
    ensures total == |table|
  {
    hide PrintRows, Columns, HeaderLine, FindMany, DistinctIds;
    var head := BOM + HeaderLine(HEADERS) + "\n";
    file := head;
    total := 0;
    var cursor: Option<string> := None;
    NothingPrinted(table);
    while true
      invariant total <= |table|
      invariant cursor == if total == 0 then None else Some(table[total - 1].id)
      invariant file == head + PrintRows(Columns(table[..total]))
      decreases |table| - total
    {
      BatchFollows(table, total);
      var batch := FindMany(table, if cursor.Some? && cursor.value != "" then cursor else None);
      var text, written := WriteBatch(batch);
      assert table[..total + written] == table[..total] + batch;
      PrintConcat(table[..total], batch);
      file := file + text;
      total := total + written;
      if |batch| == 0 {
        break;
      }
      cursor := Some(batch[|batch| - 1].id);
      if |batch| < BATCH {
        break;
      }
    }
    assert table[..total] == table;
  }

  /** The batch after the first `n` rows is the next rows of the table. */
  lemma BatchFollows(table: seq<Record>, n: nat)
    requires DistinctIds(table) && n <= |table|
    ensures n > 0 ==> table[n - 1].id != ""
    ensures FindMany(table, if n == 0 then None else Some(table[n - 1].id))
         == table[n..if |table| - n <= BATCH then |table| else n + BATCH]
  {
    if n > 0 {
      PositionOf(table, n - 1);
      assert table[n - 1] in table;
    }
  }

  lemma NothingPrinted(table: seq<Record>)
    ensures PrintRows(Columns(table[..0])) == ""
  {
  }

  function HeaderRow(headers: seq<string>): (row: seq<Option<string>>)
    ensures |row| == |headers| && forall i | 0 <= i < |headers| :: row[i] == Some(headers[i])
  {
    seq(|headers|, i requires 0 <= i < |headers| => Some(headers[i]))
  }

  lemma {:induction false} HeaderIsARow(headers: seq<string>)
    requires forall h | h in headers :: !NeedsQuotes(h)
    ensures HeaderLine(headers) == JoinEscaped(HeaderRow(headers))
  {
    hide NeedsQuotes;
    if headers != [] {
      assert headers[0] in headers && forall h | h in headers[1..] :: h in headers;
      HeaderIsARow(headers[1..]);
      assert HeaderRow(headers)[1..] == HeaderRow(headers[1..]);
    }
  }

  predicate OnlyLetters(s: string) {
    forall i | 0 <= i < |s| :: 'A' <= s[i] <= 'z'
  }

  lemma LettersArePlain(s: string)
    requires OnlyLetters(s)
    ensures !NeedsQuotes(s) && '\r' !in s
  {
  }

  lemma NamesAreLetters()
    ensures OnlyLetters("id") && OnlyLetters("tcEventId") && OnlyLetters("title") && OnlyLetters("slug")
    ensures OnlyLetters("city") && OnlyLetters("citySlug") && OnlyLetters("category") && OnlyLetters("source")
    ensures OnlyLetters("priceFrom") && OnlyLetters("isActive") && OnlyLetters("address")
    ensures OnlyLetters("lastSyncAt") && OnlyLetters("createdAt")
  {
  }

  lemma HeadersArePlain()
    ensures forall h | h in HEADERS :: !NeedsQuotes(h) && '\r' !in h
  {
    hide OnlyLetters, NeedsQuotes;
    NamesAreLetters();
    forall h | h in HEADERS
      ensures !NeedsQuotes(h) && '\r' !in h
    {
      assert OnlyLetters(h);
      LettersArePlain(h);
    }
  }

  /**
    A reader that drops the byte order mark gets the header and all rows back in order, exactly when
    no field of the table has a carriage return outside quotes.
   */
  lemma ExportIsReadable(table: seq<Record>)
    requires forall r | r in table :: r.columns != []
    ensures var file := BOM + HeaderLine(HEADERS) + "\n" + PrintRows(Columns(table));
            var read := ReadRows(file[|BOM|..]);
            if forall r | r in table :: Readable(r.columns) then read == Some([HEADERS] + AllTexts(Columns(table)))
            else read.None?
  {
    hide NeedsQuotes, ReadRows, JoinEscaped, HeaderLine, Columns;
    var rows := [HeaderRow(HEADERS)] + Columns(table);
    HeadersArePlain();
    HeaderIsARow(HEADERS);
    ColumnsFilled(table);
    PrintedNotEmpty(rows);
    assert rows[1..] == Columns(table);
    var file := BOM + HeaderLine(HEADERS) + "\n" + PrintRows(Columns(table));
    assert file[|BOM|..] == PrintRows(rows);
    RowsBack(rows);
    HeaderReadable();
    assert forall r :: r in rows <==> r == HeaderRow(HEADERS) || r in Columns(table);
    assert AllTexts(rows) == [Texts(HeaderRow(HEADERS))] + AllTexts(Columns(table));
    assert Texts(HeaderRow(HEADERS)) == HEADERS;
  }

  lemma HeaderReadable()
    ensures Readable(HeaderRow(HEADERS)) && HeaderRow(HEADERS) != []
  {
    hide NeedsQuotes;
    HeadersArePlain();
    var row := HeaderRow(HEADERS);
    forall v | v in row
      ensures !BareReturn(v.GetOr(""))
    {
      var i :| 0 <= i < |row| && row[i] == v;
      assert HEADERS[i] in HEADERS;
    }
  }

  lemma {:induction false} ColumnsFilled(table: seq<Record>)
    requires forall r | r in table :: r.columns != []
    ensures forall c | c in Columns(table) :: c != []
    ensures (forall c | c in Columns(table) :: Readable(c)) <==> forall r | r in table :: Readable(r.columns)
  {
    hide Readable;
    if table != [] {
      assert table[0] in table && forall r :: r in table <==> r == table[0] || r in table[1..];
      ColumnsFilled(table[1..]);
      assert forall c :: c in Columns(table) <==> c == table[0].columns || c in Columns(table[1..]);
    }
  }
}
