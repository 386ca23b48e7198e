/** The write-ahead log: records printed one a line into a file, and read back from it. */
module WriteAheadLog {
  import opened Decimal
  import opened Sequences

  type int32 = n: int | -0x8000_0000 <= n < 0x8000_0000
  type int64 = n: int | -0x8000_0000_0000_0000 <= n < 0x8000_0000_0000_0000

  /** What survives in the log of a record; its kind is an enumeration, whose underlying type has 32 bits. */
  datatype Entry = Entry(kind: int32, transactionId: int32, pageId: int32, oldData: string, newData: string)

  datatype LogRecord = LogRecord(entry: Entry, timestamp: int64)

  // ----- joining and splitting -----

  /** Every line is ended by the separator. */
  function Unlines(lines: seq<string>, sep: char): string {
    if lines == [] then [] else lines[0] + ([sep] + Unlines(lines[1..], sep))
  }

  /** The fields are separated by the separator. */
  function Join(fields: seq<string>, sep: char): string
    requires fields != []
  {
    if |fields| == 1 then fields[0] else fields[0] + ([sep] + Join(fields[1..], sep))
  }

  /** The position of the first separator, or the length. */
  function Find(s: string, sep: char): (i: nat)
    ensures i <= |s| && (i < |s| ==> s[i] == sep) && forall j :: 0 <= j < i ==> s[j] != sep
  {
    if s == [] || s[0] == sep then 0 else 1 + Find(s[1..], sep)
  }

  /** Repeated `getline`: a separator at the end starts no further piece. */
  function Split(s: string, sep: char): seq<string> {
    if s == [] then []
    else if Find(s, sep) == |s| then [s]
    else [s[..Find(s, sep)]] + Split(s[Find(s, sep) + 1..], sep)
  }

  predicate Free(s: string, c: char) {
    forall i :: 0 <= i < |s| ==> s[i] != c
  }

  lemma {:induction false} FindAt(s: string, sep: char, i: nat)
    requires i <= |s| && (i < |s| ==> s[i] == sep) && forall j :: 0 <= j < i ==> s[j] != sep
    ensures Find(s, sep) == i
  {
  }

  lemma {:induction false} SplitPiece(piece: string, rest: string, sep: char)
    requires Free(piece, sep)
    ensures Split(piece + ([sep] + rest), sep) == [piece] + Split(rest, sep)
  {
    var s := piece + ([sep] + rest);
    FindAt(s, sep, |piece|);
    assert s[..|piece|] == piece && s[|piece| + 1..] == rest;
  }

  lemma {:induction false} SplitUnlines(lines: seq<string>, sep: char)
    requires forall i :: 0 <= i < |lines| ==> Free(lines[i], sep)
    ensures Split(Unlines(lines, sep), sep) == lines
  {
    if lines == [] {
    } else {
      SplitUnlines(lines[1..], sep);
      SplitPiece(lines[0], Unlines(lines[1..], sep), sep);
    }
  }

  lemma {:induction false} SplitJoin(fields: seq<string>, sep: char)
    requires fields != [] && fields[|fields| - 1] != [] && forall i :: 0 <= i < |fields| ==> Free(fields[i], sep)
    ensures Split(Join(fields, sep), sep) == fields
  {
    if |fields| == 1 {
      FindAt(fields[0], sep, |fields[0]|);
    } else {
      SplitJoin(fields[1..], sep);
      SplitPiece(fields[0], Join(fields[1..], sep), sep);
    }
  }

  lemma {:induction false} UnlinesAppend(lines: seq<string>, line: string, sep: char)
    ensures Unlines(lines + [line], sep) == Unlines(lines, sep) + (line + [sep])
  {
    if lines == [] {
      assert Unlines([line], sep) == line + ([sep] + []);
    } else {
      assert (lines + [line])[1..] == lines[1..] + [line];
      UnlinesAppend(lines[1..], line, sep);
      Associate([sep], Unlines(lines[1..], sep), line + [sep]);
      Associate(lines[0], [sep] + Unlines(lines[1..], sep), line + [sep]);
    }
  }

  /** The pieces hold characters of the text and no separator. */
  lemma {:induction false} PieceFree(s: string, sep: char, c: char, k: nat)
    requires k < |Split(s, sep)| && (c == sep || Free(s, c))
    ensures Free(Split(s, sep)[k], c)
    decreases |s|
  {
    if Find(s, sep) < |s| && k > 0 {
      PieceFree(s[Find(s, sep) + 1..], sep, c, k - 1);
    }
  }

  // ----- records -----

  function Fields(r: LogRecord): seq<string> {
    [ToString(r.entry.kind), ToString(r.entry.transactionId), ToString(r.entry.pageId),
     r.entry.oldData, r.entry.newData, ToString(r.timestamp)]
  }

  function Line(r: LogRecord): string {
    Join(Fields(r), ',')
  }

  function Lines(records: seq<LogRecord>): seq<string> {
    seq(|records|, i requires 0 <= i < |records| => Line(records[i]))
  }

  /** The file after writing the records one after the other. */
  function Printed(records: seq<LogRecord>): string {
    Unlines(Lines(records), '\n')
  }

  function Entries(records: seq<LogRecord>): seq<Entry> {
    seq(|records|, i requires 0 <= i < |records| => records[i].entry)
  }

  function ParseInt32(s: string): (r: Result<int>)
    ensures r.Ok? ==> -0x8000_0000 <= r.value < 0x8000_0000
  {
    Parse(s, -0x8000_0000, 0x7fff_ffff)
  }

  function ParseInt64(s: string): Result<int> {
    Parse(s, -0x8000_0000_0000_0000, 0x7fff_ffff_ffff_ffff)
  }

  function FirstError(kind: Result<int>, tx: Result<int>, page: Result<int>, timestamp: Result<int>): Result<int> {
    if kind.Err? then kind else if tx.Err? then tx else if page.Err? then page else timestamp
  }

  function ParseSix(kind: string, tx: string, page: string,
                    oldData: string, newData: string, timestamp: string): Result<Entry>
  {
    var k, t, p := ParseInt32(kind), ParseInt32(tx), ParseInt32(page);
    var checked := FirstError(k, t, p, ParseInt64(timestamp));
    if checked.Err? then Err(checked.error) else Ok(Entry(k.value, t.value, p.value, oldData, newData))
  }

  function ParseFields(parts: seq<string>): Result<Entry> {
    if |parts| < 6 then Err(MissingField)
    else ParseSix(parts[0], parts[1], parts[2], parts[3], parts[4], parts[5])
  }

  function ParseLine(line: string): Result<Entry> {
    ParseFields(Split(line, ','))
  }

  /** The first line that does not parse ends the reading. */
  function Cons(first: Result<Entry>, rest: Result<seq<Entry>>): Result<seq<Entry>> {
    if first.Err? then Err(first.error) else Prefixed([first.value], rest)
  }

  function Prefixed(logs: seq<Entry>, rest: Result<seq<Entry>>): Result<seq<Entry>> {
    if rest.Err? then rest else Ok(logs + rest.value)
  }

  function ParseLines(lines: seq<string>): Result<seq<Entry>> {
    if lines == [] then Ok([]) else Cons(ParseLine(lines[0]), ParseLines(lines[1..]))
  }

  function Read(file: string): Result<seq<Entry>> {
    ParseLines(Split(file, '\n'))
  }

  /** A line of the file: kind, transaction, page, old and new data and the time, separated by commas. */
  lemma {:induction false} LineLayout(r: LogRecord)
    ensures Line(r) == ToString(r.entry.kind) + "," + ToString(r.entry.transactionId) + "," +
                       ToString(r.entry.pageId) + "," + r.entry.oldData + "," + r.entry.newData + "," +
                       ToString(r.timestamp)
  {
    var f := Fields(r);
    assert f[1..][1..] == f[2..] && f[2..][1..] == f[3..] && f[3..][1..] == f[4..] && f[4..][1..] == f[5..];
    JoinStep(f[4..], ',');
    JoinStep(f[3..], ',');
    JoinStep(f[2..], ',');
    JoinStep(f[1..], ',');
    JoinStep(f, ',');
  }

  /** A line parses exactly when it has six fields or more, the first three and the sixth numbers in range. */
  lemma {:induction false} ParsesIff(line: string)
    ensures var f := Split(line, ',');
            ParseLine(line).Ok? <==>
            |f| >= 6 && ParseInt32(f[0]).Ok? && ParseInt32(f[1]).Ok? && ParseInt32(f[2]).Ok? && ParseInt64(f[5]).Ok?
  {
  }

  lemma {:induction false} JoinStep(fields: seq<string>, sep: char)
    requires |fields| > 1
    ensures Join(fields, sep) == fields[0] + [sep] + Join(fields[1..], sep)
  {
    Associate(fields[0], [sep], Join(fields[1..], sep));
  }

  // ----- the round trip -----

  /** The data has no comma and no line break. */
  predicate Clean(e: Entry) {
    Free(e.oldData, ',') && Free(e.oldData, '\n') && Free(e.newData, ',') && Free(e.newData, '\n')
  }

  predicate AllClean(records: seq<LogRecord>) {
    forall i :: 0 <= i < |records| ==> Clean(records[i].entry)
  }

  lemma {:induction false} PrintedFree(n: int, c: char)
    requires c != '-' && !IsDigit(c)
    ensures Free(ToString(n), c) && ToString(n) != []
  {
    PrintedChars(n, c);
  }

  lemma {:induction false} FieldsFree(r: LogRecord, c: char)
    requires Clean(r.entry) && (c == ',' || c == '\n')
    ensures forall i :: 0 <= i < |Fields(r)| ==> Free(Fields(r)[i], c)
    ensures Fields(r)[5] != []
  {
    PrintedFree(r.entry.kind, c);
    PrintedFree(r.entry.transactionId, c);
    PrintedFree(r.entry.pageId, c);
    PrintedFree(r.timestamp, c);
  }

  lemma {:induction false} PrintedInt32(n: int32)
    ensures ParseInt32(ToString(n)) == Ok(n)
  {
    ParsePrinted(n, -0x8000_0000, 0x7fff_ffff);
  }

  lemma {:induction false} PrintedInt64(n: int64)
    ensures ParseInt64(ToString(n)) == Ok(n)
  {
    ParsePrinted(n, -0x8000_0000_0000_0000, 0x7fff_ffff_ffff_ffff);
  }

  lemma {:induction false} SixFields(kind: string, tx: string, page: string, oldData: string, newData: string,
                                     timestamp: string)
    ensures ParseFields([kind, tx, page, oldData, newData, timestamp]) ==
            ParseSix(kind, tx, page, oldData, newData, timestamp)
  {
  }

  lemma {:induction false} ParsePrintedFields(r: LogRecord)
    ensures ParseFields(Fields(r)) == Ok(r.entry)
  {
    var e := r.entry;
    PrintedInt32(e.kind);
    PrintedInt32(e.transactionId);
    PrintedInt32(e.pageId);
    PrintedInt64(r.timestamp);
    SixFields(ToString(e.kind), ToString(e.transactionId), ToString(e.pageId), e.oldData, e.newData,
              ToString(r.timestamp));
  }

  lemma {:induction false} ParsePrintedLine(r: LogRecord)
    requires Clean(r.entry)
    ensures ParseLine(Line(r)) == Ok(r.entry)
  {
    FieldsFree(r, ',');
    SplitJoin(Fields(r), ',');
    ParsePrintedFields(r);
  }

  lemma {:induction false} JoinFree(fields: seq<string>, sep: char, c: char)
    requires fields != [] && c != sep && forall i :: 0 <= i < |fields| ==> Free(fields[i], c)
    ensures Free(Join(fields, sep), c)
  {
    if |fields| == 1 {
    } else {
      JoinFree(fields[1..], sep, c);
    }
  }

  lemma {:induction false} LinesTail(records: seq<LogRecord>)
    requires records != []
    ensures Lines(records)[0] == Line(records[0]) && Lines(records)[1..] == Lines(records[1..])
    ensures Entries(records) == [records[0].entry] + Entries(records[1..])
  {
  }

  lemma {:induction false} ParsePrintedLines(records: seq<LogRecord>)
    requires AllClean(records)
    ensures ParseLines(Lines(records)) == Ok(Entries(records))
  {
    if records == [] {
      assert Lines(records) == [] && Entries(records) == [];
    } else {
      ParsePrintedLines(records[1..]);
      LinesTail(records);
      ParsePrintedLine(records[0]);
    }
  }

  lemma {:induction false} ReadPrinted(records: seq<LogRecord>)
    requires AllClean(records)
    ensures Read(Printed(records)) == Ok(Entries(records))
  {
    forall i | 0 <= i < |records| ensures Free(Lines(records)[i], '\n') {
      FieldsFree(records[i], '\n');
      JoinFree(Fields(records[i]), ',', '\n');
    }
    SplitUnlines(Lines(records), '\n');
    ParsePrintedLines(records);
  }

  lemma {:induction false} ParsedFieldsClean(line: string)
    requires Free(line, '\n') && ParseLine(line).Ok?
    ensures Clean(ParseLine(line).value)
  {
    forall k | 0 <= k < |Split(line, ',')| ensures Free(Split(line, ',')[k], ',') && Free(Split(line, ',')[k], '\n') {
      PieceFree(line, ',', ',', k);
      PieceFree(line, ',', '\n', k);
    }
  }

  lemma {:induction false} ConsParts(first: Result<Entry>, rest: Result<seq<Entry>>)
    requires Cons(first, rest).Ok?
    ensures first.Ok? && rest.Ok? && Cons(first, rest).value == [first.value] + rest.value
  {
  }

  lemma {:induction false} ParsedAt(lines: seq<string>, k: nat)
    requires ParseLines(lines).Ok? && k < |ParseLines(lines).value|
    ensures k < |lines| && ParseLine(lines[k]) == Ok(ParseLines(lines).value[k])
  {
    ConsParts(ParseLine(lines[0]), ParseLines(lines[1..]));
    if k == 0 {
    } else {
      ParsedAt(lines[1..], k - 1);
    }
  }

  /** Whatever is read from any file has clean data. */
  lemma {:induction false} ParsedIsClean(lines: seq<string>, k: nat)
    requires ParseLines(lines).Ok? && k < |ParseLines(lines).value|
    requires forall i :: 0 <= i < |lines| ==> Free(lines[i], '\n')
    ensures Clean(ParseLines(lines).value[k])
  {
    ParsedAt(lines, k);
    ParsedFieldsClean(lines[k]);
  }

  /** The log reads back as it was written exactly when no data holds a comma or a line break. */
  lemma {:induction false} RoundTripIff(records: seq<LogRecord>)
    ensures Read(Printed(records)) == Ok(Entries(records)) <==> AllClean(records)
  {
    if AllClean(records) {
      ReadPrinted(records);
    }
    if Read(Printed(records)) == Ok(Entries(records)) {
      var lines := Split(Printed(records), '\n');
      forall i | 0 <= i < |lines| ensures Free(lines[i], '\n') {
        PieceFree(Printed(records), '\n', '\n', i);
      }
      forall i | 0 <= i < |records| ensures Clean(records[i].entry) {
        ParsedIsClean(lines, i);
      }
    }
  }

  // ----- the log file -----

  method FindSeparator(text: string, sep: char) returns (i: nat)
    ensures i == Find(text, sep)
  {
    i := 0;
    while i < |text| && text[i] != sep
      invariant i <= |text| && forall j :: 0 <= j < i ==> text[j] != sep
    {
      i := i + 1;
    }
    FindAt(text, sep, i);
  }

  method SplitText(text: string, sep: char) returns (parts: seq<string>)
    ensures parts == Split(text, sep)
  {
    parts := [];
    var rest := text;
    assert [] + Split(text, sep) == Split(text, sep);
    while rest != []
      invariant Split(text, sep) == parts + Split(rest, sep)
      decreases |rest|
    {
      var i := FindSeparator(rest, sep);
      SplitStep(rest, sep, i);
      var piece := rest[..i];
      rest := if i < |rest| then rest[i + 1..] else [];
      Associate(parts, [piece], Split(rest, sep));
      parts := parts + [piece];
    }
    assert parts + [] == parts;
  }

  lemma {:induction false} SplitStep(s: string, sep: char, i: nat)
    requires s != [] && i == Find(s, sep)
    ensures Split(s, sep) == [s[..i]] + Split(if i < |s| then s[i + 1..] else [], sep)
  {
    if i == |s| {
      assert s[..i] == s && Split([], sep) == [];
      assert Split(s, sep) == [s];
    } else {
      assert Split(s, sep) == [s[..i]] + Split(s[i + 1..], sep);
    }
  }

  class Log {
    var file: string
    ghost var records: seq<LogRecord>

    /** The file holds the records written since it was last cleared. */
    ghost predicate Valid()
      reads this
    {
      file == Printed(records)
    }

    constructor ()
      ensures Valid() && records == []
    {
      file, records := [], [];
    }

    method WriteLog(r: LogRecord)
      requires Valid()
      modifies this
      ensures Valid() && records == old(records) + [r]
    {
      UnlinesAppend(Lines(records), Line(r), '\n');
      assert Lines(records + [r]) == Lines(records) + [Line(r)];
      file := file + (Line(r) + ['\n']);
      records := records + [r];
    }

    method ParseLogRecord(line: string) returns (result: Result<Entry>)
      ensures result == ParseLine(line)
    {
      var parts := SplitText(line, ',');
      result := ParseFields(parts);
    }

    /** Reads everything back; the answer is what was written exactly when all of it was clean. */
    method ReadLogs() returns (result: Result<seq<Entry>>)
      requires Valid()
      ensures result == Ok(Entries(records)) <==> AllClean(records)
    {
      RoundTripIff(records);
      var lines := SplitText(file, '\n');
      result := ParseAll(lines);
    }

    method ParseAll(lines: seq<string>) returns (result: Result<seq<Entry>>)
      ensures result == ParseLines(lines)
    {
      var logs := [];
      assert lines[0..] == lines;
      PrefixedNothing(ParseLines(lines));
      for i := 0 to |lines|
        invariant ParseLines(lines) == Prefixed(logs, ParseLines(lines[i..]))
      {
        var record := ParseLogRecord(lines[i]);
        assert lines[i..][1..] == lines[i + 1..];
        if record.Err? {
          return Err(record.error);
        }
        PrefixedStep(logs, record.value, ParseLines(lines[i + 1..]));
        logs := logs + [record.value];
      }
      assert lines[|lines|..] == [] && logs + [] == logs;
      result := Ok(logs);
    }

    method ClearLogs()
      modifies this
      ensures Valid() && records == []
    {
      file, records := [], [];
    }
  }

  lemma {:induction false} PrefixedNothing(rest: Result<seq<Entry>>)
    ensures Prefixed([], rest) == rest
  {
    if rest.Ok? {
      assert [] + rest.value == rest.value;
    }
  }

  lemma {:induction false} PrefixedStep(logs: seq<Entry>, e: Entry, rest: Result<seq<Entry>>)
    ensures Prefixed(logs, Cons(Ok(e), rest)) == Prefixed(logs + [e], rest)
  {
    if rest.Ok? {
      assert logs + ([e] + rest.value) == logs + [e] + rest.value;
    }
  }
}
