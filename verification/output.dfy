/**
  The result writers' decisions: which text each column of the plain-text
  table shows, how wide the columns are, the header and separator lines, and
  the fields of each CSV record before the CSV library quotes them.

  Go's `%-*s` pads with spaces on the right up to a width counted in runes;
  a rune is one `char` here, so `Pad` is exact. fmt refuses a `*` width above
  one million: it writes "%!(BADWIDTH)" and then the text unpadded, which
  `DomainCell` reproduces for the domain column. The domain column's width is
  the longest domain counted in UTF-8 bytes (`ByteLength`), as realIP measures it,
  so a non-ASCII domain can make that column wider than its longest entry.
 */
module Output {
  import opened Answers
  import opened Resolver
  import Lines

  /** The three writers the front end can choose. */
  datatype Format = Json | Csv | Text

  /** The number of bytes of `c` in UTF-8. */
  function Utf8Length(c: char): (n: nat)
    ensures 1 <= n <= 4
  {
    if c as int < 0x80 then 1
    else if c as int < 0x800 then 2
    else if c as int < 0x10000 then 3
    else 4
  }

  /** The length of `s` in bytes once encoded in UTF-8: what Go's `len` gives for a string. */
  function ByteLength(s: string): (n: nat)
    ensures |s| <= n <= 4 * |s|
  {
    if s == [] then 0 else Utf8Length(s[0]) + ByteLength(s[1..])
  }

  /** The byte length of a concatenation is the sum of the byte lengths. */
  lemma {:induction false} ByteLengthAppend(a: string, b: string)
    ensures ByteLength(a + b) == ByteLength(a) + ByteLength(b)
    decreases |a|
  {
    if a == [] {
      assert a + b == b;
    } else {
      assert (a + b)[0] == a[0];
      assert (a + b)[1..] == a[1..] + b;
      ByteLengthAppend(a[1..], b);
    }
  }

  /**
    The byte length equals the character count exactly when every character is
    ASCII; any other character makes the byte length larger.
   */
  lemma {:induction false} ByteLengthAscii(s: string)
    ensures ByteLength(s) == |s| <==> forall i :: 0 <= i < |s| ==> s[i] as int < 0x80
    decreases |s|
  {
    if s != [] {
      ByteLengthAscii(s[1..]);
      assert forall i :: 1 <= i < |s| ==> s[i] == s[1..][i - 1];
    }
  }

  /** The domain heading is two characters but six bytes wide. */
  lemma HeadingByteLength()
    ensures |HeaderRow.domain| == 2 && ByteLength(HeaderRow.domain) == 6
  {
    assert HeaderRow.domain[1..][1..] == [];
  }

  /** The widest domain in bytes; 0 when there are no results. */
  function MaxDomainLen(results: seq<Result>): (m: nat)
    ensures forall i :: 0 <= i < |results| ==> ByteLength(results[i].domain) <= m
    ensures m == 0 || exists i :: 0 <= i < |results| && ByteLength(results[i].domain) == m
    ensures results == [] ==> m == 0
  {
    if results == [] then 0
    else
      var rest := MaxDomainLen(results[1..]);
      var n := ByteLength(results[0].domain);
      assert forall i :: 1 <= i < |results| ==> results[i] == results[1..][i - 1];
      if n > rest then n else rest
  }

  /** A string of `count` copies of `c`. */
  function RepeatChar(c: char, count: nat): (r: string)
    ensures |r| == count
    ensures forall i :: 0 <= i < count ==> r[i] == c
  {
    seq(count, _ => c)
  }

  /** `s` left-justified in a field of `width` characters, as `%-*s` prints it; never truncated. */
  function Pad(s: string, width: nat): (r: string)
    ensures |r| == if |s| < width then width else |s|
    ensures r[..|s|] == s
    ensures forall i :: |s| <= i < |r| ==> r[i] == ' '
  {
    if |s| < width then s + RepeatChar(' ', width - |s|) else s
  }

  /** The largest width fmt takes from a `*` argument. */
  const MaxStarWidth: nat := 1000000

  /** What fmt writes in place of a `*` width it refuses. */
  const BadWidth: string := "%!(BADWIDTH)"

  /**
    The domain cell as `%-*s` prints it: padded to `width` when fmt accepts the
    width; otherwise the bad-width marker, then the domain with no padding.
   */
  function DomainCell(s: string, width: nat): string
  {
    if width <= MaxStarWidth then Pad(s, width) else BadWidth + s
  }

  /** Within fmt's limit the cell is the padded domain; past it, the marker and the bare domain. */
  lemma DomainCellShape(s: string, width: nat)
    ensures var r := DomainCell(s, width);
            && (width <= MaxStarWidth ==> |r| == (if |s| < width then width else |s|))
            && (width <= MaxStarWidth ==> r[..|s|] == s && forall i :: |s| <= i < |r| ==> r[i] == ' ')
            && (width > MaxStarWidth ==> |r| == |BadWidth| + |s| && r[..|BadWidth|] == BadWidth && r[|BadWidth|..] == s)
  {
  }

  const Gap: string := "  "
  const IPWidth: nat := 15
  const CNAMEWidth: nat := 8
  const StatusWidth: nat := 10

  /** The separator line is as long as the domain column plus 39. */
  function SeparatorLength(domainWidth: nat): nat
  {
    domainWidth + |Gap| + IPWidth + |Gap| + CNAMEWidth + |Gap| + StatusWidth
  }

  const Succeeded: string := "成功"
  const Failed: string := "失败"
  const Yes: string := "是"
  const No: string := "否"
  const NoAddress: string := "-"

  /** The four cells of one line of the text table. */
  datatype TextRow = TextRow(domain: string, ip: string, cname: string, status: string)

  /** The column headings. */
  const HeaderRow: TextRow := TextRow("域名", "IP地址", "CNAME", "状态")

  /**
    The cells shown for a result. The status depends only on the error text:
    a failed result shows "-" in place of its address; the CNAME cell is the
    flag, as yes or no.
   */
  function RowOf(res: Result): (row: TextRow)
    ensures row.domain == res.domain
    ensures row.status == Failed <==> res.error != ""
    ensures row.status == Succeeded <==> res.error == ""
    ensures row.ip == if res.error != "" then NoAddress else res.ip
    ensures row.cname == Yes <==> res.hasCNAME
    ensures row.cname == No <==> !res.hasCNAME
  {
    TextRow(
      res.domain,
      if res.error != "" then NoAddress else res.ip,
      if res.hasCNAME then Yes else No,
      if res.error != "" then Failed else Succeeded)
  }

  /** One table line, without its newline. */
  function RenderRow(domainWidth: nat, row: TextRow): string
  {
    DomainCell(row.domain, domainWidth) + Gap + Pad(row.ip, IPWidth) + Gap + Pad(row.cname, CNAMEWidth) + Gap + row.status
  }

  /**
    The lines of the text table: the header, the dashed separator, then one
    line per result, in the order of the results.
   */
  function TextLines(results: seq<Result>): (lines: seq<string>)
    ensures |lines| == |results| + 2
    ensures lines[0] == RenderRow(MaxDomainLen(results), HeaderRow)
    ensures |lines[1]| == MaxDomainLen(results) + 39
    ensures forall j :: 0 <= j < |lines[1]| ==> lines[1][j] == '-'
    ensures forall i :: 0 <= i < |results| ==> lines[i + 2] == RenderRow(MaxDomainLen(results), RowOf(results[i]))
  {
    var width := MaxDomainLen(results);
    [RenderRow(width, HeaderRow), RepeatChar('-', SeparatorLength(width))]
    + seq(|results|, i requires 0 <= i < |results| => RenderRow(width, RowOf(results[i])))
  }

  /**
    Past fmt's width limit the table loses its alignment: each row starts with
    the bad-width marker, then its domain unpadded, then straight away the gap
    before the IP column.
   */
  lemma WideTableUnpadded(results: seq<Result>, i: nat)
    requires MaxDomainLen(results) > MaxStarWidth
    requires i < |results|
    ensures var line := TextLines(results)[i + 2];
            var k := |BadWidth| + |results[i].domain|;
            && |line| >= k + |Gap|
            && line[..|BadWidth|] == BadWidth
            && line[|BadWidth|..k] == results[i].domain
            && line[k..k + |Gap|] == Gap
  {
    WideRowUnpadded(MaxDomainLen(results), RowOf(results[i]));
  }

  /** A row rendered past fmt's width limit: marker, bare domain, gap. */
  lemma WideRowUnpadded(width: nat, row: TextRow)
    requires width > MaxStarWidth
    ensures var line := RenderRow(width, row);
            var k := |BadWidth| + |row.domain|;
            && |line| >= k + |Gap|
            && line[..|BadWidth|] == BadWidth
            && line[|BadWidth|..k] == row.domain
            && line[k..k + |Gap|] == Gap
  {
    var p := BadWidth + row.domain + Gap;
    assert DomainCell(row.domain, width) + Gap == p;
    var x1 := p + Pad(row.ip, IPWidth);
    PrefixKept(p, Pad(row.ip, IPWidth), p);
    var x2 := x1 + Gap;
    PrefixKept(x1, Gap, p);
    var x3 := x2 + Pad(row.cname, CNAMEWidth);
    PrefixKept(x2, Pad(row.cname, CNAMEWidth), p);
    var x4 := x3 + Gap;
    PrefixKept(x3, Gap, p);
    PrefixKept(x4, row.status, p);
    var line := RenderRow(width, row);
    assert line == x4 + row.status;
    var k := |BadWidth| + |row.domain|;
    assert line[..|BadWidth|] == p[..|BadWidth|];
    assert line[|BadWidth|..k] == p[|BadWidth|..k];
    assert line[k..k + |Gap|] == p[k..k + |Gap|];
  }

  /** Appending to a string keeps any prefix it already has. */
  lemma PrefixKept(x: string, y: string, p: string)
    requires |p| <= |x| && x[..|p|] == p
    ensures |x + y| >= |p| && (x + y)[..|p|] == p
  {
    assert (x + y)[..|p|] == x[..|p|];
  }

  /** The text written by the plain-text writer: each line followed by '\n'. */
  function TextOutput(results: seq<Result>): string
  {
    Lines.Terminated(TextLines(results))
  }

  /** The loop that finds the widest domain, in bytes. */
  method MaxDomainLength(results: seq<Result>) returns (maxDomainLen: nat)
    ensures maxDomainLen == MaxDomainLen(results)
  {
    maxDomainLen := 0;
    var i := 0;
    while i < |results|
      invariant 0 <= i <= |results|
      invariant maxDomainLen == MaxDomainLen(results[..i])
    {
      var n := ByteLength(results[i].domain);
      MaxDomainLenStep(results, i, maxDomainLen, n);
      if n > maxDomainLen {
        maxDomainLen := n;
      }
      i := i + 1;
    }
    MaxDomainLenWhole(results);
  }

  lemma MaxDomainLenWhole(results: seq<Result>)
    ensures MaxDomainLen(results[..|results|]) == MaxDomainLen(results)
  {
    assert results[..|results|] == results;
  }

  /** One step of the loop, stated on plain values. */
  lemma MaxDomainLenStep(results: seq<Result>, i: nat, m: nat, n: nat)
    requires i < |results|
    requires m == MaxDomainLen(results[..i]) && n == ByteLength(results[i].domain)
    ensures MaxDomainLen(results[..i + 1]) == if n > m then n else m
  {
    MaxDomainLenPrefix(results, i);
  }

  lemma {:induction false} MaxDomainLenSnoc(results: seq<Result>, res: Result)
    ensures MaxDomainLen(results + [res])
            == if ByteLength(res.domain) > MaxDomainLen(results) then ByteLength(res.domain) else MaxDomainLen(results)
    decreases |results|
  {
    if results == [] {
      assert [] + [res] == [res];
      assert [res][1..] == [];
    } else {
      assert (results + [res])[1..] == results[1..] + [res];
      MaxDomainLenSnoc(results[1..], res);
    }
  }

  lemma MaxDomainLenPrefix(results: seq<Result>, i: nat)
    requires i < |results|
    ensures MaxDomainLen(results[..i + 1])
            == if ByteLength(results[i].domain) > MaxDomainLen(results[..i]) then ByteLength(results[i].domain)
               else MaxDomainLen(results[..i])
  {
    assert results[..i + 1] == results[..i] + [results[i]];
    MaxDomainLenSnoc(results[..i], results[i]);
  }

  lemma PadNoNewline(s: string, width: nat)
    requires Lines.Newline !in s
    ensures Lines.Newline !in Pad(s, width)
  {
    if |s| < width {
      var spaces := RepeatChar(' ', width - |s|);
      assert Lines.Newline !in spaces by {
        forall i | 0 <= i < |spaces| ensures spaces[i] != Lines.Newline {
        }
      }
    }
  }

  lemma RenderRowNoNewline(domainWidth: nat, row: TextRow)
    requires Lines.Newline !in row.domain && Lines.Newline !in row.ip
    requires Lines.Newline !in row.cname && Lines.Newline !in row.status
    ensures Lines.Newline !in RenderRow(domainWidth, row)
  {
    PadNoNewline(row.domain, domainWidth);
    assert Lines.Newline !in BadWidth;
    assert Lines.Newline !in DomainCell(row.domain, domainWidth);
    PadNoNewline(row.ip, IPWidth);
    PadNoNewline(row.cname, CNAMEWidth);
    assert Lines.Newline !in Gap;
  }

  /** No result puts a line break into the table's cells. */
  predicate PrintableResults(results: seq<Result>)
  {
    forall i :: 0 <= i < |results| ==> Lines.Newline !in results[i].domain && Lines.Newline !in results[i].ip
  }

  lemma FixedCellsNoNewline()
    ensures Lines.Newline !in Succeeded && Lines.Newline !in Failed
    ensures Lines.Newline !in Yes && Lines.Newline !in No && Lines.Newline !in NoAddress
    ensures Lines.Newline !in HeaderRow.domain && Lines.Newline !in HeaderRow.ip
    ensures Lines.Newline !in HeaderRow.cname && Lines.Newline !in HeaderRow.status
  {
  }

  lemma RowLineNoNewline(domainWidth: nat, res: Result)
    requires Lines.Newline !in res.domain && Lines.Newline !in res.ip
    ensures Lines.Newline !in RenderRow(domainWidth, RowOf(res))
  {
    FixedCellsNoNewline();
    RenderRowNoNewline(domainWidth, RowOf(res));
  }

  lemma HeaderNoNewline(domainWidth: nat)
    ensures Lines.Newline !in RenderRow(domainWidth, HeaderRow)
  {
    FixedCellsNoNewline();
    RenderRowNoNewline(domainWidth, HeaderRow);
  }

  lemma DashesNoNewline(s: string)
    requires forall j :: 0 <= j < |s| ==> s[j] == '-'
    ensures Lines.Newline !in s
  {
    assert forall j :: 0 <= j < |s| ==> s[j] != Lines.Newline;
  }

  lemma TextLinesNoNewline(results: seq<Result>)
    requires PrintableResults(results)
    ensures Lines.NoNewlines(TextLines(results))
  {
    var lines := TextLines(results);
    var width := MaxDomainLen(results);
    forall i | 0 <= i < |lines| ensures Lines.Newline !in lines[i] {
      if i == 0 {
        HeaderNoNewline(width);
      } else if i == 1 {
        DashesNoNewline(lines[1]);
      } else {
        RowLineNoNewline(width, results[i - 2]);
      }
    }
  }

  /**
    When no domain or address contains a newline, the written text splits back
    into exactly the table's lines: |results| + 2 of them, header first, then
    the separator, then the rows in the order of the results.
   */
  lemma TextOutputLines(results: seq<Result>)
    requires PrintableResults(results)
    ensures Lines.SplitLines(TextOutput(results)) == TextLines(results)
    ensures |Lines.SplitLines(TextOutput(results))| == |results| + 2
  {
    TextLinesNoNewline(results);
    Lines.SplitTerminated(TextLines(results));
  }

  /**
    For a result of the resolver, the table shows success exactly when the
    resolution accepted an address, and then shows that address; otherwise it
    shows failure and "-".
   */
  lemma RowShowsResolution(filterCNAME: bool, domain: string, obs: Observation)
    requires HostTextsNonEmpty(obs)
    ensures var res := ResolveSingle(filterCNAME, domain, obs);
            var r := Resolve(filterCNAME, domain, obs.cname, obs.addresses);
            && (RowOf(res).status == Succeeded <==> r.ip.Ok?)
            && (r.ip.Ok? ==> RowOf(res).ip == r.ip.value && RowOf(res).ip != "")
            && (r.ip.Err? ==> RowOf(res).ip == NoAddress)
            && (RowOf(res).cname == Yes <==> HasCNAME(domain, obs.cname))
  {
    ResolveSingleSettled(filterCNAME, domain, obs);
  }

  /** The CSV header record. */
  const CsvHeader: seq<string> := ["Domain", "IP", "Has_CNAME", "Timestamp", "Error"]

  /** `%v` of a boolean. */
  function BoolText(b: bool): string
  {
    if b then "true" else "false"
  }

  /** The fields of one CSV record, in header order. */
  function CsvRecord(res: Result): (rec: seq<string>)
    ensures |rec| == |CsvHeader|
  {
    [res.domain, res.ip, BoolText(res.hasCNAME), res.timestamp, res.error]
  }

  /** All records the CSV writer emits: the header, then one record per result in order. */
  function CsvRecords(results: seq<Result>): (recs: seq<seq<string>>)
    ensures |recs| == |results| + 1
    ensures recs[0] == CsvHeader
    ensures forall i :: 0 <= i < |results| ==> recs[i + 1] == CsvRecord(results[i])
  {
    [CsvHeader] + seq(|results|, i requires 0 <= i < |results| => CsvRecord(results[i]))
  }

  function ParseBool(s: string): Option<bool>
  {
    if s == "true" then Some(true) else if s == "false" then Some(false) else None
  }

  /** Reads a result back from a record's fields. */
  function ParseRecord(rec: seq<string>): Option<Result>
  {
    if |rec| != |CsvHeader| then None
    else match ParseBool(rec[2])
      case None => None
      case Some(hasCNAME) => Some(Result(rec[0], rec[1], rec[3], rec[4], hasCNAME))
  }

  function ParseRows(rows: seq<seq<string>>): Option<seq<Result>>
  {
    if rows == [] then Some([])
    else match (ParseRecord(rows[0]), ParseRows(rows[1..]))
      case (Some(res), Some(rest)) => Some([res] + rest)
      case _ => None
  }

  /** Reads the results back from a header and the records after it. */
  function ParseRecords(recs: seq<seq<string>>): Option<seq<Result>>
  {
    if recs == [] || recs[0] != CsvHeader then None else ParseRows(recs[1..])
  }

  /** A record holds every field of its result: reading it back gives the result. */
  lemma CsvRecordRoundTrip(res: Result)
    ensures ParseRecord(CsvRecord(res)) == Some(res)
  {
    assert "true" != "false" by { assert "true"[0] != "false"[0]; }
  }

  /** The records after the header: one per result, in order. */
  lemma CsvRecordsTail(results: seq<Result>)
    requires results != []
    ensures CsvRecords(results)[1..][0] == CsvRecord(results[0])
    ensures CsvRecords(results)[1..][1..] == CsvRecords(results[1..])[1..]
  {
    var rows := CsvRecords(results)[1..][1..];
    var rest := CsvRecords(results[1..])[1..];
    assert |rows| == |rest|;
    forall i | 0 <= i < |rows| ensures rows[i] == rest[i] {
      assert rows[i] == CsvRecord(results[i + 1]);
    }
  }

  /** Reading back the records after the header gives the results. */
  lemma {:induction false} ParseRowsRoundTrip(results: seq<Result>)
    ensures ParseRows(CsvRecords(results)[1..]) == Some(results)
    decreases |results|
  {
    if results != [] {
      var rows := CsvRecords(results)[1..];
      CsvRecordsTail(results);
      CsvRecordRoundTrip(results[0]);
      ParseRowsRoundTrip(results[1..]);
      ParseRowsCons(rows, results[0], results[1..]);
      assert [results[0]] + results[1..] == results;
    }
  }

  /** Rows read back one at a time: the first record, then the rest. */
  lemma ParseRowsCons(rows: seq<seq<string>>, first: Result, rest: seq<Result>)
    requires rows != []
    requires ParseRecord(rows[0]) == Some(first) && ParseRows(rows[1..]) == Some(rest)
    ensures ParseRows(rows) == Some([first] + rest)
  {
  }

  /** The CSV records hold the results, all of them and in order. */
  lemma CsvRoundTrip(results: seq<Result>)
    ensures ParseRecords(CsvRecords(results)) == Some(results)
  {
    ParseRowsRoundTrip(results);
  }
}
