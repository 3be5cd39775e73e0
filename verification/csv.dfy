/** The comma-separated knowledge base reader of the search endpoint: a
    character scanner that toggles a quote flag, splits on commas outside
    quotes and trims every field; lines with fewer than seven fields are
    skipped and the first line is taken as the header. */
module Csv {
  import opened Seqs
  import opened Text

  /** One e-mail of the knowledge base, its seven positional columns. */
  datatype EmailRecord = EmailRecord(
    path: string,
    fileName: string,
    from: string,
    to: string,
    sent: string,
    subject: string,
    content: string)

  /** The scanner's state part-way through a line: the fields already closed,
      the field being built, and whether a quote is open. */
  datatype Scan = Scan(done: seq<string>, current: string, inQuotes: bool)

  const Start := Scan([], "", false)

  /** One character of the scan: a quote flips the flag and is dropped, a comma
      outside quotes closes the current field (trimmed), anything else is kept. */
  function Step(st: Scan, c: char): Scan {
    if c == '"' then st.(inQuotes := !st.inQuotes)
    else if c == ',' && !st.inQuotes then Scan(st.done + [Trim(st.current)], "", st.inQuotes)
    else st.(current := st.current + [c])
  }

  /** The state after scanning `s` from `st`, front to back. */
  function ScanFrom(st: Scan, s: string): Scan
    decreases |s|
  {
    if |s| == 0 then st else Step(ScanFrom(st, s[..|s| - 1]), s[|s| - 1])
  }

  /** The fields of one line: the closed ones and the last, trimmed. */
  function SplitFields(line: string): (r: seq<string>)
    ensures |r| >= 1
  {
    var st := ScanFrom(Start, line);
    st.done + [Trim(st.current)]
  }

  /** Scanning is compositional: a line can be scanned piece by piece. */
  lemma {:induction false} ScanAppend(st: Scan, a: string, b: string)
    ensures ScanFrom(st, a + b) == ScanFrom(ScanFrom(st, a), b)
    decreases |b|
  {
    if |b| == 0 {
      assert a + b == a;
    } else {
      assert (a + b)[..|a + b| - 1] == a + b[..|b| - 1];
      ScanAppend(st, a, b[..|b| - 1]);
    }
  }

  /** Number of double quotes in `s`. */
  function QuoteCount(s: string): nat
    decreases |s|
  {
    if |s| == 0 then 0
    else QuoteCount(s[..|s| - 1]) + (if s[|s| - 1] == '"' then 1 else 0)
  }

  /** Number of commas in `s` preceded by an even number of quotes, that is,
      commas that separate fields. */
  function SeparatorCount(s: string): nat
    decreases |s|
  {
    if |s| == 0 then 0
    else
      var init := s[..|s| - 1];
      SeparatorCount(init) + (if s[|s| - 1] == ',' && QuoteCount(init) % 2 == 0 then 1 else 0)
  }

  /** The scanner's state agrees with the counting definition: the quote flag is
      the parity of the quotes seen, and one field is closed per separator. */
  lemma {:induction false} ScanCounts(s: string)
    ensures ScanFrom(Start, s).inQuotes <==> QuoteCount(s) % 2 == 1
    ensures |ScanFrom(Start, s).done| == SeparatorCount(s)
    decreases |s|
  {
    if |s| > 0 {
      ScanCounts(s[..|s| - 1]);
    }
  }

  /** A line has one field more than it has separating commas. */
  lemma FieldCount(line: string)
    ensures |SplitFields(line)| == SeparatorCount(line) + 1
  {
    ScanCounts(line);
  }

  /** Nothing the scanner keeps is a double quote. */
  lemma {:induction false} ScanDropsQuotes(s: string)
    ensures var st := ScanFrom(Start, s);
      '"' !in st.current && forall k :: 0 <= k < |st.done| ==> '"' !in st.done[k]
    decreases |s|
  {
    if |s| > 0 {
      var prev := ScanFrom(Start, s[..|s| - 1]);
      var c := s[|s| - 1];
      ScanDropsQuotes(s[..|s| - 1]);
      assert ScanFrom(Start, s) == Step(prev, c);
      if c == ',' && !prev.inQuotes {
        TrimChars(prev.current);
        var done := prev.done + [Trim(prev.current)];
        forall k | 0 <= k < |done| ensures '"' !in done[k] {
          if k < |prev.done| {
            assert done[k] == prev.done[k];
          }
        }
      }
    }
  }

  /** Every field is trimmed and free of double quotes. */
  lemma FieldsClean(line: string)
    ensures forall k :: 0 <= k < |SplitFields(line)| ==> CleanField(SplitFields(line)[k])
  {
    ScanDropsQuotes(line);
    ScanTrims(line);
    var st := ScanFrom(Start, line);
    TrimChars(st.current);
    TrimIsTrimmed(st.current);
    AllCleanSnoc(st.done, Trim(st.current));
  }

  predicate CleanField(f: string) {
    IsTrimmed(f) && '"' !in f
  }

  lemma AllCleanSnoc(done: seq<string>, t: string)
    requires forall k :: 0 <= k < |done| ==> IsTrimmed(done[k]) && '"' !in done[k]
    requires CleanField(t)
    ensures forall k :: 0 <= k < |done + [t]| ==> CleanField((done + [t])[k])
  {
  }

  /** Trimming only removes characters. */
  lemma TrimChars(s: string)
    ensures forall c :: c in Trim(s) ==> c in s
  {
    var t := Trim(s);
    var n := Run(s, IsSpace);
    forall c | c in t ensures c in s {
      var i :| 0 <= i < |t| && t[i] == c;
      assert s[n + i] == c;
    }
  }

  /** Every closed field is trimmed. */
  lemma {:induction false} ScanTrims(s: string)
    ensures forall k :: 0 <= k < |ScanFrom(Start, s).done| ==> IsTrimmed(ScanFrom(Start, s).done[k])
    decreases |s|
  {
    if |s| > 0 {
      ScanTrims(s[..|s| - 1]);
      TrimIsTrimmed(ScanFrom(Start, s[..|s| - 1]).current);
    }
  }

  /** `"f"`: a field wrapped in double quotes, as a writer quoting every field
      produces it. */
  function Quote(f: string): string {
    ['"'] + f + ['"']
  }

  /** Text free of quotes scanned inside an open quote is kept as it is, commas included. */
  lemma {:induction false} ScanQuotedText(done: seq<string>, cur: string, f: string)
    requires forall i :: 0 <= i < |f| ==> f[i] != '"'
    ensures ScanFrom(Scan(done, cur, true), f) == Scan(done, cur + f, true)
    decreases |f|
  {
    if |f| > 0 {
      ScanQuotedText(done, cur, f[..|f| - 1]);
      assert cur + f[..|f| - 1] + [f[|f| - 1]] == cur + f;
    }
  }

  /** Text free of quotes and commas scanned outside quotes is kept as it is. */
  lemma {:induction false} ScanPlainText(done: seq<string>, cur: string, f: string)
    requires forall i :: 0 <= i < |f| ==> f[i] != '"' && f[i] != ','
    ensures ScanFrom(Scan(done, cur, false), f) == Scan(done, cur + f, false)
    decreases |f|
  {
    if |f| > 0 {
      ScanPlainText(done, cur, f[..|f| - 1]);
      assert cur + f[..|f| - 1] + [f[|f| - 1]] == cur + f;
    }
  }

  /** How a writer renders one field: quoted, or written as it is. */
  function Encode(f: string, quoted: bool): string {
    if quoted then Quote(f) else f
  }

  /** The fields a line can carry back unchanged: trimmed, no double quote, no
      line break, and no comma unless the field is quoted. */
  predicate Representable(f: string, quoted: bool) {
    && IsTrimmed(f)
    && (forall i :: 0 <= i < |f| ==> f[i] != '"' && f[i] != '\n')
    && (quoted || forall i :: 0 <= i < |f| ==> f[i] != ',')
  }

  /** The fields rendered and separated by commas. */
  function EncodeLine(fs: seq<string>, quoted: bool): string
    requires |fs| >= 1
  {
    JoinWith(seq(|fs|, i requires 0 <= i < |fs| => Encode(fs[i], quoted)), ',')
  }

  lemma ScanField(done: seq<string>, f: string, quoted: bool)
    requires Representable(f, quoted)
    ensures ScanFrom(Scan(done, "", false), Encode(f, quoted)) == Scan(done, f, false)
  {
    if quoted {
      var q := ['"'];
      ScanAppend(Scan(done, "", false), q + f, q);
      ScanAppend(Scan(done, "", false), q, f);
      assert ScanFrom(Scan(done, "", false), q) == Scan(done, "", true) by {
        assert q[..0] == [];
      }
      ScanQuotedText(done, "", f);
      assert "" + f == f;
      assert ScanFrom(Scan(done, f, true), q) == Scan(done, f, false) by {
        assert q[..0] == [];
      }
    } else {
      ScanPlainText(done, "", f);
      assert "" + f == f;
    }
  }

  /** The rendered line of several fields ends with a comma and the last field. */
  lemma EncodeLineSnoc(fs: seq<string>, quoted: bool)
    requires |fs| >= 2
    ensures EncodeLine(fs, quoted)
         == EncodeLine(fs[..|fs| - 1], quoted) + [','] + Encode(fs[|fs| - 1], quoted)
  {
    var es := seq(|fs|, i requires 0 <= i < |fs| => Encode(fs[i], quoted));
    var init := fs[..|fs| - 1];
    assert es[..|es| - 1] == seq(|init|, i requires 0 <= i < |init| => Encode(init[i], quoted));
  }

  /** A comma outside quotes closes a field that is already trimmed as it is. */
  lemma ScanComma(done: seq<string>, cur: string)
    requires IsTrimmed(cur)
    ensures ScanFrom(Scan(done, cur, false), [',']) == Scan(done + [cur], "", false)
  {
    assert [','][..0] == [];
    TrimOfTrimmed(cur);
  }

  lemma {:induction false} ScanEncodeLine(fs: seq<string>, quoted: bool)
    requires |fs| >= 1
    requires forall k :: 0 <= k < |fs| ==> Representable(fs[k], quoted)
    ensures ScanFrom(Start, EncodeLine(fs, quoted)) == Scan(fs[..|fs| - 1], fs[|fs| - 1], false)
    decreases |fs|
  {
    var last := fs[|fs| - 1];
    if |fs| == 1 {
      assert EncodeLine(fs, quoted) == Encode(last, quoted);
      ScanField([], last, quoted);
    } else {
      var init := fs[..|fs| - 1];
      var prev := init[|init| - 1];
      var head := EncodeLine(init, quoted);
      var enc := Encode(last, quoted);
      EncodeLineSnoc(fs, quoted);
      ScanEncodeLine(init, quoted);
      ScanAppend(Start, head, [',']);
      ScanComma(init[..|init| - 1], prev);
      InitLast(init);
      ScanAppend(Start, head + [','], enc);
      ScanField(init, last, quoted);
    }
  }

  /** Splitting recovers the fields a line was written from. */
  lemma SplitEncodeLine(fs: seq<string>, quoted: bool)
    requires |fs| >= 1
    requires forall k :: 0 <= k < |fs| ==> Representable(fs[k], quoted)
    ensures SplitFields(EncodeLine(fs, quoted)) == fs
  {
    ScanEncodeLine(fs, quoted);
    TrimOfTrimmed(fs[|fs| - 1]);
    InitLast(fs);
  }

  predicate QuoteFree(f: string) {
    forall i :: 0 <= i < |f| ==> f[i] != '"'
  }

  /** Every field trimmed, in order. */
  function TrimAll(fs: seq<string>): (r: seq<string>)
    ensures |r| == |fs|
  {
    seq(|fs|, i requires 0 <= i < |fs| => Trim(fs[i]))
  }

  /** A quoted field without quotes of its own is taken as it is, untrimmed
      until the comma or the end of the line closes it. */
  lemma ScanQuotedField(done: seq<string>, f: string)
    requires QuoteFree(f)
    ensures ScanFrom(Scan(done, "", false), Quote(f)) == Scan(done, f, false)
  {
    var q := ['"'];
    ScanAppend(Scan(done, "", false), q + f, q);
    ScanAppend(Scan(done, "", false), q, f);
    assert ScanFrom(Scan(done, "", false), q) == Scan(done, "", true) by {
      assert q[..0] == [];
    }
    ScanQuotedText(done, "", f);
    assert "" + f == f;
    assert ScanFrom(Scan(done, f, true), q) == Scan(done, f, false) by {
      assert q[..0] == [];
    }
  }

  /** A line of quoted, quote-free fields scans to the trimmed fields before
      the last one, with the last one still open. */
  lemma {:induction false} ScanQuotedLine(fs: seq<string>)
    requires |fs| >= 1
    requires forall k :: 0 <= k < |fs| ==> QuoteFree(fs[k])
    ensures ScanFrom(Start, EncodeLine(fs, true)) == Scan(TrimAll(fs[..|fs| - 1]), fs[|fs| - 1], false)
    decreases |fs|
  {
    var last := fs[|fs| - 1];
    if |fs| == 1 {
      assert EncodeLine(fs, true) == Quote(last);
      ScanQuotedField([], last);
      assert TrimAll(fs[..0]) == [];
    } else {
      var init := fs[..|fs| - 1];
      var prev := init[|init| - 1];
      var head := EncodeLine(init, true);
      var done := TrimAll(init[..|init| - 1]);
      EncodeLineSnoc(fs, true);
      ScanQuotedLine(init);
      ScanAppend(Start, head, [',']);
      assert ScanFrom(Scan(done, prev, false), [',']) == Scan(done + [Trim(prev)], "", false) by {
        assert [','][..0] == [];
      }
      assert done + [Trim(prev)] == TrimAll(init);
      ScanAppend(Start, head + [','], Quote(last));
      ScanQuotedField(TrimAll(init), last);
    }
  }

  /** Reading a line written with every field quoted gives back the fields
      trimmed, one per written field, whatever spaces they carry. */
  lemma SplitQuotedLine(fs: seq<string>)
    requires |fs| >= 1
    requires forall k :: 0 <= k < |fs| ==> QuoteFree(fs[k])
    ensures SplitFields(EncodeLine(fs, true)) == TrimAll(fs)
  {
    ScanQuotedLine(fs);
    assert TrimAll(fs[..|fs| - 1]) + [Trim(fs[|fs| - 1])] == TrimAll(fs);
  }

  /** A doubled quote, the standard escape for a quote character inside a quoted
      field, is lost: the scanner toggles its flag twice and keeps nothing, so
      the line reads as if the pair were not there. */
  lemma DoubledQuoteDropped(a: string, b: string)
    ensures SplitFields(a + "\"\"" + b) == SplitFields(a + b)
  {
    var st := ScanFrom(Start, a);
    var qq := "\"\"";
    ScanAppend(Start, a + qq, b);
    ScanAppend(Start, a, qq);
    ScanAppend(Start, a, b);
    ScanSnoc(st, [], '"');
    ScanSnoc(st, ['"'], '"');
    assert [] + ['"'] == ['"'] && ['"'] + ['"'] == qq;
    assert ScanFrom(st, qq) == st;
  }

  /** Scanning one more character is one more step. */
  lemma ScanSnoc(st: Scan, s: string, c: char)
    ensures ScanFrom(st, s + [c]) == Step(ScanFrom(st, s), c)
  {
    assert (s + [c])[..|s|] == s;
  }

  /** The positional record of a line with at least seven fields. */
  function ParseRecord(fields: seq<string>): (r: Option<EmailRecord>)
    ensures r.Some? <==> |fields| >= 7
    ensures r.Some? ==> Fields(r.value) == fields[..7]
  {
    if |fields| >= 7 then
      Some(EmailRecord(fields[0], fields[1], fields[2], fields[3], fields[4], fields[5], fields[6]))
    else None
  }

  /** The columns of a record, in order. */
  function Fields(e: EmailRecord): seq<string> {
    [e.path, e.fileName, e.from, e.to, e.sent, e.subject, e.content]
  }

  /** The records of the data lines, in order; short lines are skipped. */
  function ParseLines(lines: seq<string>): (r: seq<EmailRecord>)
    ensures |r| <= |lines|
    decreases |lines|
  {
    if |lines| == 0 then []
    else
      var rest := ParseLines(lines[1..]);
      match ParseRecord(SplitFields(lines[0]))
      case Some(e) => [e] + rest
      case None => rest
  }

  /** Trims the blob, splits it on line feeds and parses every line after the
      header; a blob of fewer than two lines holds no record. */
  function ParseCsv(csv: string): (r: seq<EmailRecord>)
    ensures forall k :: 0 <= k < |r| ==> Clean(r[k])
  {
    var lines := SplitWhere(Trim(csv), Is('\n'));
    if |lines| < 2 then [] else ParseLinesClean(lines[1..]); ParseLines(lines[1..])
  }

  /** A record whose every column is trimmed and free of double quotes. */
  predicate Clean(e: EmailRecord) {
    forall k :: 0 <= k < 7 ==> CleanField(Fields(e)[k])
  }

  lemma {:induction false} ParseLinesClean(lines: seq<string>)
    ensures forall k :: 0 <= k < |ParseLines(lines)| ==> Clean(ParseLines(lines)[k])
    decreases |lines|
  {
    if |lines| > 0 {
      ParseLinesClean(lines[1..]);
      var fs := SplitFields(lines[0]);
      FieldsClean(lines[0]);
      if |fs| >= 7 {
        var e := ParseRecord(fs).value;
        forall k | 0 <= k < 7 ensures CleanField(Fields(e)[k]) {
          assert Fields(e)[k] == fs[k];
        }
      }
    }
  }

  /** The records of the data lines are, in order, the records of exactly
      those lines that have seven or more fields: the k-th record comes from
      the k-th such line. */
  lemma {:induction false} ParseLinesExact(lines: seq<string>)
    ensures var q := Filter(lines, HasRecord);
      ParseLines(lines) == seq(|q|, k requires 0 <= k < |q| => RecordOf(q[k]))
    ensures |ParseLines(lines)| == |Filter(lines, HasRecord)|
    decreases |lines|
  {
    if |lines| > 0 {
      ParseLinesExact(lines[1..]);
      var q := Filter(lines[1..], HasRecord);
      var rs := ParseLines(lines[1..]);
      if HasRecord(lines[0]) {
        assert ParseLines(lines) == [RecordOf(lines[0])] + rs;
        assert Filter(lines, HasRecord) == [lines[0]] + q;
        RecordsCons(lines[0], q, rs);
      } else {
        assert ParseLines(lines) == rs;
        assert Filter(lines, HasRecord) == q;
      }
    }
  }

  lemma RecordsCons(line: string, q: seq<string>, rs: seq<EmailRecord>)
    requires HasRecord(line) && forall k :: 0 <= k < |q| ==> HasRecord(q[k])
    requires rs == seq(|q|, k requires 0 <= k < |q| => RecordOf(q[k]))
    ensures var q2 := [line] + q;
      [RecordOf(line)] + rs == seq(|q2|, k requires 0 <= k < |q2| => RecordOf(q2[k]))
  {
    var q2 := [line] + q;
    forall k | 1 <= k < |q2| ensures q2[k] == q[k - 1] {
    }
  }

  /** The record of a line that has one. */
  function RecordOf(line: string): EmailRecord
    requires HasRecord(line)
  {
    ParseRecord(SplitFields(line)).value
  }

  /** The blob's records: those of the lines after the first, in order, from
      each line of seven or more fields; the first line is the header and never
      yields one, and a blob of one line yields nothing. */
  lemma ParseCsvExact(csv: string)
    ensures var lines := SplitWhere(Trim(csv), Is('\n'));
      var q := if |lines| < 2 then [] else Filter(lines[1..], HasRecord);
      ParseCsv(csv) == seq(|q|, k requires 0 <= k < |q| => RecordOf(q[k]))
  {
    var lines := SplitWhere(Trim(csv), Is('\n'));
    if |lines| >= 2 {
      ParseLinesExact(lines[1..]);
    }
  }

  predicate HasRecord(line: string) {
    |SplitFields(line)| >= 7
  }

  /** A blob without a line feed between its first and last visible character
      holds no record, whatever that line says. */
  lemma SingleLineEmpty(csv: string)
    requires '\n' !in Trim(csv)
    ensures ParseCsv(csv) == []
  {
    SplitPlain(Trim(csv), Is('\n'));
  }

  /** The data lines a writer quoting every field produces, one per record. */
  function Body(recs: seq<EmailRecord>): (r: seq<string>)
    ensures |r| == |recs|
  {
    seq(|recs|, i requires 0 <= i < |recs| => EncodeLine(Fields(recs[i]), true))
  }

  /** The whole blob: the header line and the data lines, separated by line feeds. */
  function Serialize(header: string, recs: seq<EmailRecord>): string {
    JoinWith([header] + Body(recs), '\n')
  }

  predicate AllRepresentable(recs: seq<EmailRecord>) {
    forall k, j :: 0 <= k < |recs| && 0 <= j < 7 ==> Representable(Fields(recs[k])[j], true)
  }

  /** Reading what the writer produced gives back the records, in order, provided
      the header is a single line starting with a visible character and every
      column is trimmed, free of double quotes and on one line. */
  lemma ParseSerialize(header: string, recs: seq<EmailRecord>)
    requires |header| > 0 && !IsSpace(header[0]) && '\n' !in header
    requires AllRepresentable(recs)
    ensures ParseCsv(Serialize(header, recs)) == recs
  {
    if |recs| == 0 {
      var csv := Serialize(header, recs);
      assert [header] + Body(recs) == [header];
      TrimOfTrimmedLine(header);
      SingleLineEmpty(csv);
    } else {
      var body := Body(recs);
      SerializeLines(header, recs);
      assert ([header] + body)[1..] == body;
      ParseBody(recs);
    }
  }

  /** With at least one record, trimming and splitting the blob gives back its lines. */
  lemma SerializeLines(header: string, recs: seq<EmailRecord>)
    requires |header| > 0 && !IsSpace(header[0]) && '\n' !in header
    requires AllRepresentable(recs) && |recs| > 0
    ensures SplitWhere(Trim(Serialize(header, recs)), Is('\n')) == [header] + Body(recs)
  {
    var body := Body(recs);
    var lines := [header] + body;
    var csv := JoinWith(lines, '\n');
    BodyFree(recs);
    LinesFree(header, body);
    SplitJoin(lines, '\n', Is('\n'));
    JoinLast(lines, '\n');
    EncodeEndsWithQuote(Fields(recs[|recs| - 1]));
    JoinFirst(lines, '\n');
    TrimOfTrimmed(csv);
  }

  lemma BodyFree(recs: seq<EmailRecord>)
    requires AllRepresentable(recs)
    ensures forall k :: 0 <= k < |recs| ==> '\n' !in Body(recs)[k]
  {
    forall k | 0 <= k < |recs| ensures '\n' !in Body(recs)[k] {
      LineFree(Fields(recs[k]));
    }
  }

  lemma LinesFree(header: string, body: seq<string>)
    requires '\n' !in header
    requires forall k :: 0 <= k < |body| ==> '\n' !in body[k]
    ensures forall k, i :: 0 <= k < |[header] + body| && 0 <= i < |([header] + body)[k]| ==>
              !Is('\n')(([header] + body)[k][i])
  {
    var lines := [header] + body;
    forall k, i | 0 <= k < |lines| && 0 <= i < |lines[k]| ensures !Is('\n')(lines[k][i]) {
      if k > 0 {
        assert lines[k] == body[k - 1];
      }
    }
  }

  /** A header of one line is its own trimmed prefix up to its last visible
      character, so trimming the blob cannot split it. */
  lemma TrimOfTrimmedLine(header: string)
    requires '\n' !in header
    ensures '\n' !in Trim(header)
  {
    TrimChars(header);
  }

  lemma LineFree(fs: seq<string>)
    requires |fs| >= 1
    requires forall j :: 0 <= j < |fs| ==> Representable(fs[j], true)
    ensures '\n' !in EncodeLine(fs, true)
  {
    var es := seq(|fs|, i requires 0 <= i < |fs| => Encode(fs[i], true));
    forall k | 0 <= k < |es| ensures '\n' !in es[k] {
      assert es[k] == ['"'] + fs[k] + ['"'];
    }
    JoinNoSep(seq(|fs|, i requires 0 <= i < |fs| => Encode(fs[i], true)), ',', '\n');
  }

  /** Joining pieces free of `c` with a separator other than `c` leaves no `c`. */
  lemma {:induction false} JoinNoSep(ls: seq<string>, sep: char, c: char)
    requires |ls| >= 1 && sep != c
    requires forall k :: 0 <= k < |ls| ==> c !in ls[k]
    ensures c !in JoinWith(ls, sep)
    decreases |ls|
  {
    if |ls| > 1 {
      JoinNoSep(ls[..|ls| - 1], sep, c);
    }
  }

  lemma {:induction false} JoinFirst(ls: seq<string>, sep: char)
    requires |ls| >= 1 && |ls[0]| > 0
    ensures |JoinWith(ls, sep)| > 0 && JoinWith(ls, sep)[0] == ls[0][0]
    decreases |ls|
  {
    if |ls| > 1 {
      JoinFirst(ls[..|ls| - 1], sep);
    }
  }

  lemma JoinLast(ls: seq<string>, sep: char)
    requires |ls| >= 2
    ensures JoinWith(ls, sep) == JoinWith(ls[..|ls| - 1], sep) + [sep] + ls[|ls| - 1]
  {
  }

  lemma EncodeEndsWithQuote(fs: seq<string>)
    requires |fs| >= 1
    ensures |EncodeLine(fs, true)| > 0 && EncodeLine(fs, true)[|EncodeLine(fs, true)| - 1] == '"'
  {
    var es := seq(|fs|, i requires 0 <= i < |fs| => Encode(fs[i], true));
    if |fs| > 1 {
      JoinLast(es, ',');
    }
  }

  lemma {:induction false} ParseBody(recs: seq<EmailRecord>)
    requires AllRepresentable(recs)
    ensures ParseLines(Body(recs)) == recs
    decreases |recs|
  {
    if |recs| > 0 {
      var body := Body(recs);
      var tail := recs[1..];
      assert body[1..] == Body(tail);
      ParseBody(tail);
      SplitEncodeLine(Fields(recs[0]), true);
      HeadTail(recs);
    }
  }

  /** The scan of one line as a loop, character by character, as the source
      writes it. */
  method SplitLine(line: string) returns (values: seq<string>)
    ensures values == SplitFields(line)
    ensures |values| == SeparatorCount(line) + 1
  {
    values := [];
    var current := "";
    var inQuotes := false;
    var j := 0;
    while j < |line|
      invariant 0 <= j <= |line|
      invariant ScanFrom(Start, line[..j]) == Scan(values, current, inQuotes)
    {
      var c := line[j];
      assert line[..j + 1][..j] == line[..j];
      if c == '"' {
        inQuotes := !inQuotes;
      } else if c == ',' && !inQuotes {
        values := values + [Trim(current)];
        current := "";
      } else {
        current := current + [c];
      }
      j := j + 1;
    }
    assert line[..j] == line;
    values := values + [Trim(current)];
    FieldCount(line);
  }
}
