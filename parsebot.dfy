/**
 * The lot-table scraper (parsebot/parse_goszakup.py): text cleaning, the
 * split of a lot-number cell, the customer pattern, and the row loop that
 * turns the rows of the `search-result` table into lot records. An HTML row is
 * the sequence of its `td` cells; each cell is its text and its first anchor.
 */
module ParseBot {
  import opened Wrappers
  import opened PyStrings
  import PyFloat

  // ---------------------------------------------------------------------------
  // clean_text

  /** A line as `strip` leaves it, and not blank. */
  predicate CleanLine(line: string)
  {
    line != [] && Strip(line) == line
  }

  /** `[l.strip() for l in lines if l.strip()]`. */
  function NonBlankLines(lines: seq<string>): (r: seq<string>)
    ensures |r| <= |lines|
    ensures forall k :: 0 <= k < |r| ==> CleanLine(r[k])
    decreases |lines|
  {
    if lines == [] then []
    else
      var t := Strip(lines[0]);
      var rest := NonBlankLines(lines[1..]);
      if t == [] then rest
      else
        assert CleanLine(t) by { StripIdempotent(lines[0]); }
        [t] + rest
  }

  /** The stripped non-blank lines of `text`. */
  function TextLines(text: string): seq<string>
  {
    NonBlankLines(Split(text, '\n'))
  }

  /** `clean_text`: the stripped non-blank lines, joined by a newline. */
  function CleanText(text: string): string
  {
    Join(TextLines(text), '\n')
  }

  lemma {:induction false} NonBlankLinesConcat(a: seq<string>, b: seq<string>)
    ensures NonBlankLines(a + b) == NonBlankLines(a) + NonBlankLines(b)
    decreases |a|
  {
    if a == [] {
      assert a + b == b;
    } else {
      assert (a + b)[0] == a[0];
      assert (a + b)[1..] == a[1..] + b;
      NonBlankLinesConcat(a[1..], b);
      var t := Strip(a[0]);
      if t != [] {
        assert [t] + (NonBlankLines(a[1..]) + NonBlankLines(b)) == ([t] + NonBlankLines(a[1..])) + NonBlankLines(b);
      }
    }
  }

  lemma {:induction false} NonBlankLinesNoNewline(lines: seq<string>)
    requires forall k :: 0 <= k < |lines| ==> '\n' !in lines[k]
    ensures forall k :: 0 <= k < |NonBlankLines(lines)| ==> '\n' !in NonBlankLines(lines)[k]
    decreases |lines|
  {
    if lines != [] {
      StripChars(lines[0], '\n');
      NonBlankLinesNoNewline(lines[1..]);
    }
  }

  /** No line `clean_text` keeps contains a newline. */
  lemma TextLinesNoNewline(text: string)
    ensures forall k :: 0 <= k < |TextLines(text)| ==> '\n' !in TextLines(text)[k]
  {
    SplitPiecesFree(text, '\n');
    NonBlankLinesNoNewline(Split(text, '\n'));
  }

  /** Leading whitespace, newlines included, does not change the lines. */
  lemma TextLinesSpaceCons(c: char, s: string)
    requires IsSpace(c)
    ensures TextLines([c] + s) == TextLines(s)
  {
    var p := Split(s, '\n');
    assert ([c] + s)[1..] == s;
    if c == '\n' {
      assert Split([c] + s, '\n') == [[]] + p;
      assert ([[]] + p)[1..] == p;
    } else {
      assert Split([c] + s, '\n') == [[c] + p[0]] + p[1..];
      StripSpaceCons(c, p[0]);
      assert ([[c] + p[0]] + p[1..])[1..] == p[1..];
      assert p == [p[0]] + p[1..];
    }
  }

  /** A line that starts with a non-blank character is kept. */
  lemma TextLinesNonSpaceCons(c: char, s: string)
    requires !IsSpace(c)
    ensures TextLines([c] + s) != []
  {
    var p := Split(s, '\n');
    assert ([c] + s)[1..] == s;
    assert c != '\n';
    var first := [c] + p[0];
    assert Split([c] + s, '\n') == [first] + p[1..];
    StripEmptyIff(first);
    assert first[0] == c;
  }

  lemma {:induction false} TextLinesLStrip(s: string)
    ensures TextLines(LStrip(s)) == TextLines(s)
    decreases |s|
  {
    if s != [] && IsSpace(s[0]) {
      TextLinesLStrip(s[1..]);
      TextLinesSpaceCons(s[0], s[1..]);
      assert [s[0]] + s[1..] == s;
    }
  }

  lemma NonBlankLinesOne(x: string)
    ensures NonBlankLines([x]) == if Strip(x) == [] then [] else [Strip(x)]
  {
    assert [x][1..] == [];
  }

  /** Trailing whitespace, newlines included, does not change the lines. */
  lemma TextLinesSpaceSnoc(s: string, c: char)
    requires IsSpace(c)
    ensures TextLines(s + [c]) == TextLines(s)
  {
    var p := Split(s, '\n');
    if c == '\n' {
      SplitSnocSep(s, '\n');
      calc {
        NonBlankLines(p + [[]]);
        { NonBlankLinesConcat(p, [[]]); }
        NonBlankLines(p) + NonBlankLines([[]]);
        { NonBlankLinesOne([]); }
        NonBlankLines(p);
      }
    } else {
      var init, last := SplitSnocOther(s, c, '\n');
      calc {
        NonBlankLines(init + [last + [c]]);
        { NonBlankLinesConcat(init, [last + [c]]); }
        NonBlankLines(init) + NonBlankLines([last + [c]]);
        { NonBlankLinesOne(last + [c]); NonBlankLinesOne(last); StripSpaceSnoc(last, c); }
        NonBlankLines(init) + NonBlankLines([last]);
        { NonBlankLinesConcat(init, [last]); }
        NonBlankLines(p);
      }
    }
  }

  lemma {:induction false} TextLinesRStrip(s: string)
    ensures TextLines(RStrip(s)) == TextLines(s)
    decreases |s|
  {
    if s != [] && IsSpace(s[|s| - 1]) {
      var init := s[..|s| - 1];
      assert init + [s[|s| - 1]] == s;
      TextLinesRStrip(init);
      TextLinesSpaceSnoc(init, s[|s| - 1]);
    }
  }

  lemma TextLinesStrip(s: string)
    ensures TextLines(Strip(s)) == TextLines(s)
  {
    TextLinesRStrip(LStrip(s));
    TextLinesLStrip(s);
  }

  /** `clean_text` keeps no line exactly when the text is all whitespace. */
  lemma {:induction false} TextLinesEmptyIff(s: string)
    ensures TextLines(s) == [] <==> AllSpace(s)
    decreases |s|
  {
    if s == [] {
      assert Split(s, '\n') == [[]];
      NonBlankLinesOne([]);
    } else {
      assert [s[0]] + s[1..] == s;
      if IsSpace(s[0]) {
        TextLinesEmptyIff(s[1..]);
        TextLinesSpaceCons(s[0], s[1..]);
        AllSpaceCons(s);
      } else {
        TextLinesNonSpaceCons(s[0], s[1..]);
      }
    }
  }

  lemma AllSpaceCons(s: string)
    requires s != [] && IsSpace(s[0])
    ensures AllSpace(s) <==> AllSpace(s[1..])
  {
    if AllSpace(s[1..]) {
      forall i | 1 <= i < |s| ensures IsSpace(s[i]) {
        assert s[i] == s[1..][i - 1];
      }
    }
  }

  lemma {:induction false} JoinEmptyIff(parts: seq<string>, sep: char)
    requires forall k :: 0 <= k < |parts| ==> parts[k] != []
    ensures Join(parts, sep) == [] <==> parts == []
  {
    if |parts| >= 2 {
      assert |Join(parts, sep)| >= |parts[0]|;
    }
  }

  /** `clean_text` gives "" exactly for all-whitespace input (the empty string included). */
  lemma CleanTextEmptyIff(s: string)
    ensures CleanText(s) == "" <==> AllSpace(s)
  {
    TextLinesEmptyIff(s);
    JoinEmptyIff(TextLines(s), '\n');
  }

  /** The lines of non-empty `clean_text` output are the lines it kept. */
  lemma CleanTextSplit(s: string)
    requires CleanText(s) != ""
    ensures Split(CleanText(s), '\n') == TextLines(s)
  {
    TextLinesNoNewline(s);
    SplitJoin(TextLines(s), '\n');
  }

  /** The lines of a cleaned text: none of them empty, none starting or ending with whitespace. */
  lemma CleanTextShape(s: string)
    ensures CleanText(s) != "" ==>
      forall line <- Split(CleanText(s), '\n') :: line != "" && Strip(line) == line
  {
    if CleanText(s) != "" {
      CleanTextSplit(s);
    }
  }

  /** Cleaning twice is cleaning once. */
  lemma CleanTextIdempotent(s: string)
    ensures CleanText(CleanText(s)) == CleanText(s)
  {
    var c := CleanText(s);
    var ls := TextLines(s);
    if c == "" {
      assert Split(c, '\n') == [[]];
      var blank: seq<string> := [[]];
      assert NonBlankLines(blank) == [] by { assert blank[1..] == []; }
    } else {
      CleanTextSplit(s);
      NonBlankLinesOfClean(ls);
    }
  }

  lemma {:induction false} NonBlankLinesOfClean(ls: seq<string>)
    requires forall k :: 0 <= k < |ls| ==> ls[k] != [] && Strip(ls[k]) == ls[k]
    ensures NonBlankLines(ls) == ls
    decreases |ls|
  {
    if ls != [] {
      NonBlankLinesOfClean(ls[1..]);
      assert [ls[0]] + ls[1..] == ls;
    }
  }

  /** An outer `strip()` before `clean_text` changes nothing. */
  lemma CleanTextStrip(s: string)
    ensures CleanText(Strip(s)) == CleanText(s)
  {
    TextLinesStrip(s);
  }

  /** A single stripped line is its own cleaning. */
  lemma CleanTextOfLine(s: string)
    requires '\n' !in s && Strip(s) == s
    ensures CleanText(s) == s
  {
    SplitNoSep(s, '\n');
    assert [s][1..] == [];
    if s == [] {
      assert TextLines(s) == [];
    } else {
      assert TextLines(s) == [s];
    }
  }

  // ---------------------------------------------------------------------------
  // clean_subject

  const HistoryLabel: string := "История"

  /** `clean_subject`: the cell text without the "История" link label, cleaned. */
  function CleanSubject(text: string): string
  {
    CleanText(Strip(Replace(text, HistoryLabel, "")))
  }

  /** The outer `strip()` of `clean_subject` is subsumed by `clean_text`. */
  lemma CleanSubjectIsCleanReplace(text: string)
    ensures CleanSubject(text) == CleanText(Replace(text, HistoryLabel, ""))
  {
    CleanTextStrip(Replace(text, HistoryLabel, ""));
  }

  /** Without the label, `clean_subject` is `clean_text`. */
  lemma CleanSubjectWithoutLabel(text: string)
    requires !Contains(text, HistoryLabel)
    ensures CleanSubject(text) == CleanText(text)
  {
    ReplaceAbsent(text, HistoryLabel, "");
    CleanTextStrip(text);
  }

  // ---------------------------------------------------------------------------
  // extract_customer: the leftmost "Заказчик:" after which, past any whitespace,
  // the rest of the text is one line up to trailing whitespace; that line is the customer.

  const CustomerMarker: string := "Заказчик:"

  /**
   * After a marker ending at `j` the pattern skips whitespace, then captures
   * lazily up to the first point after which only whitespace is left; '.' does
   * not match a newline, so the match exists exactly when the stripped rest of
   * the text is a single line, and that stripped rest is the group.
   */
  predicate UsableAt(text: string, j: nat)
    requires j <= |text|
  {
    '\n' !in Strip(text[j..])
  }

  /** The end of the leftmost marker occurrence at or after `i` at which the pattern matches. */
  function FirstMarkerMatch(text: string, marker: string, i: nat): (r: Option<nat>)
    requires i <= |text|
    ensures r.Some? ==>
      i + |marker| <= r.value <= |text| && MatchAt(text, marker, r.value - |marker|)
      && UsableAt(text, r.value)
    decreases |text| - i
  {
    if i + |marker| > |text| then None
    else if MatchAt(text, marker, i) && UsableAt(text, i + |marker|) then
      var j := i + |marker|;
      assert j - |marker| == i;
      Some(j)
    else FirstMarkerMatch(text, marker, i + 1)
  }

  /** Like `re.search`, the match found is the leftmost: no earlier marker occurrence matches. */
  lemma {:induction false} FirstMarkerMatchLeftmost(text: string, marker: string, i: nat, k: nat)
    requires i <= k && MatchAt(text, marker, k)
    requires FirstMarkerMatch(text, marker, i).Some? ==> k + |marker| < FirstMarkerMatch(text, marker, i).value
    ensures !UsableAt(text, k + |marker|)
    decreases |text| - i
  {
    if i < k {
      FirstMarkerMatchLeftmost(text, marker, i + 1, k);
    }
  }

  /** `extract_customer`: the single line after the first usable marker, cleaned; "" when there is none. */
  function ExtractCustomer(text: string): (r: string)
    ensures '\n' !in r && Strip(r) == r
  {
    match FirstMarkerMatch(text, CustomerMarker, 0)
    case None => ""
    case Some(j) =>
      var group := Strip(text[j..]);
      StripIdempotent(text[j..]);
      CleanTextOfLine(group);
      CleanText(group)
  }

  /** Without the marker there is no customer. */
  lemma ExtractCustomerNoMarker(text: string)
    requires !Contains(text, CustomerMarker)
    ensures ExtractCustomer(text) == ""
  {
  }

  /** With a usable marker, the customer is the stripped rest of the text after the first one. */
  lemma ExtractCustomerRest(text: string, j: nat)
    requires FirstMarkerMatch(text, CustomerMarker, 0) == Some(j)
    ensures ExtractCustomer(text) == Strip(text[j..])
  {
    StripIdempotent(text[j..]);
    CleanTextOfLine(Strip(text[j..]));
  }

  /** The announcement text of cell 1: what precedes the first marker, stripped. */
  function AnnouncementBody(text: string): (r: string)
    ensures !Contains(text, CustomerMarker) ==> r == Strip(text)
    ensures Contains(text, CustomerMarker) ==> r == Strip(text[..Find(text, CustomerMarker).value])
  {
    match Find(text, CustomerMarker)
    case None => Strip(text)
    case Some(i) => Strip(text[..i])
  }

  // ---------------------------------------------------------------------------
  // parse_lot_number

  datatype LotInfo = LotInfo(lotId: string, lotName: string, lotStatus: string, additionalInfo: seq<string>)

  /** `parse_lot_number`: the first three non-blank stripped lines and the rest. */
  function ParseLotNumber(lotText: string): LotInfo
  {
    InfoOf(TextLines(lotText))
  }

  /** The dictionary `parse_lot_number` builds from its list of parts. */
  function InfoOf(parts: seq<string>): LotInfo
  {
    LotInfo(
      if |parts| > 0 then parts[0] else "",
      if |parts| > 1 then parts[1] else "",
      if |parts| > 2 then parts[2] else "",
      if |parts| > 3 then parts[3..] else [])
  }

  /** The `k`-th line, or "" when there are fewer lines. */
  function LineOr(lines: seq<string>, k: nat): string
  {
    if k < |lines| then lines[k] else ""
  }

  /** The lines of a cleaned text, none when it is empty. */
  function LinesOf(cleaned: string): seq<string>
  {
    if cleaned == "" then [] else Split(cleaned, '\n')
  }

  /** The non-empty fields of a `LotInfo` followed by its additional lines. */
  function Fields(info: LotInfo): seq<string>
  {
    (if info.lotId == "" then [] else [info.lotId])
    + (if info.lotName == "" then [] else [info.lotName])
    + (if info.lotStatus == "" then [] else [info.lotStatus])
    + info.additionalInfo
  }

  lemma TextLinesAreLinesOfClean(s: string)
    ensures TextLines(s) == LinesOf(CleanText(s))
  {
    CleanTextEmptyIff(s);
    TextLinesEmptyIff(s);
    if CleanText(s) != "" {
      CleanTextSplit(s);
    }
  }

  /** The three fields are the first three lines of `clean_text(lot_text)` and the rest is what follows. */
  lemma ParseLotNumberLines(lotText: string)
    ensures var lines := LinesOf(CleanText(lotText)); var info := ParseLotNumber(lotText);
      info.lotId == LineOr(lines, 0) && info.lotName == LineOr(lines, 1) && info.lotStatus == LineOr(lines, 2)
      && info.additionalInfo == (if |lines| > 3 then lines[3..] else [])
  {
    TextLinesAreLinesOfClean(lotText);
  }

  /** The non-empty fields and the additional lines, joined by newlines, give back `clean_text(lot_text)`. */
  lemma ParseLotNumberRejoins(lotText: string)
    ensures Join(Fields(ParseLotNumber(lotText)), '\n') == CleanText(lotText)
  {
    FieldsOfInfo(TextLines(lotText));
  }

  lemma FieldsOfInfo(parts: seq<string>)
    requires forall k :: 0 <= k < |parts| ==> parts[k] != []
    ensures Fields(InfoOf(parts)) == parts
  {
    if |parts| > 3 {
      assert parts == [parts[0], parts[1], parts[2]] + parts[3..];
    } else if |parts| == 3 {
      assert parts == [parts[0], parts[1], parts[2]];
    } else if |parts| == 2 {
      assert parts == [parts[0], parts[1]];
    } else if |parts| == 1 {
      assert parts == [parts[0]];
    }
  }

  /** `lot_id` is "" exactly when the cell has no non-blank line. */
  lemma ParseLotNumberEmptyId(lotText: string)
    ensures ParseLotNumber(lotText).lotId == "" <==> AllSpace(lotText)
  {
    TextLinesEmptyIff(lotText);
  }

  // ---------------------------------------------------------------------------
  // Rows and records

  datatype Anchor = Anchor(href: Option<string>)

  /** A `td` cell: its text and its first `a` element, if any. */
  datatype Cell = Cell(text: string, anchor: Option<Anchor>)

  type Row = seq<Cell>

  /** One scraped lot; `subjectLink` is `None` where Python stores `None` (an anchor without `href`). */
  datatype Lot = Lot(
    lotId: string, announcement: string, customer: string, subject: string, subjectLink: Option<string>,
    quantity: string, amount: string, purchaseType: string, status: string)

  /** `cell.find('a').get('href') if cell.find('a') else ""`. */
  function Href(cell: Cell): Option<string>
  {
    match cell.anchor
    case None => Some("")
    case Some(a) => a.href
  }

  /**
   * The record built from the cells of one row. The fields named `announcement`
   * and `customer` take lines 2 and 3 of cell 0, as the source's own mapping
   * does; the announcement and customer it computes from cell 1 are not stored.
   */
  function RowToLot(cols: Row): Lot
    requires |cols| >= 6
  {
    var info := ParseLotNumber(cols[0].text);
    Lot(
      info.lotId, info.lotName, info.lotStatus,
      CleanSubject(cols[2].text), Href(cols[2]),
      CleanText(cols[3].text), CleanText(cols[4].text), CleanText(cols[5].text),
      if |cols| > 6 then CleanText(cols[6].text) else "")
  }

  /** What the record's fields are, in terms of the cells. */
  lemma RowToLotFields(cols: Row)
    requires |cols| >= 6
    ensures var lot := RowToLot(cols); var lines := LinesOf(CleanText(cols[0].text));
      lot.lotId == LineOr(lines, 0) && lot.announcement == LineOr(lines, 1) && lot.customer == LineOr(lines, 2)
      && (lot.lotId == "" <==> AllSpace(cols[0].text))
      && lot.subject == CleanText(Replace(cols[2].text, HistoryLabel, ""))
      && (cols[2].anchor.None? ==> lot.subjectLink == Some(""))
      && (cols[2].anchor.Some? ==> lot.subjectLink == cols[2].anchor.value.href)
      && lot.quantity == CleanText(cols[3].text) && lot.amount == CleanText(cols[4].text)
      && lot.purchaseType == CleanText(cols[5].text)
      && (|cols| == 6 ==> lot.status == "")
      && (|cols| > 6 ==> lot.status == CleanText(cols[6].text))
  {
    ParseLotNumberLines(cols[0].text);
    ParseLotNumberEmptyId(cols[0].text);
    CleanSubjectIsCleanReplace(cols[2].text);
  }

  /** Cell 1 does not reach the record. */
  lemma RowToLotIgnoresCell1(cols: Row, c: Cell)
    requires |cols| >= 6
    ensures RowToLot(cols[1 := c]) == RowToLot(cols)
  {
  }

  /** The records of a run of data rows, in row order; rows with fewer than six cells give none. */
  function Extracted(rows: seq<Row>): (r: seq<Lot>)
    ensures |r| <= |rows|
    decreases |rows|
  {
    if rows == [] then []
    else
      var last := rows[|rows| - 1];
      Extracted(rows[..|rows| - 1]) + (if |last| >= 6 then [RowToLot(last)] else [])
  }

  /** Records keep row order: the records of two runs of rows are the records of each, one after the other. */
  lemma {:induction false} ExtractedConcat(a: seq<Row>, b: seq<Row>)
    ensures Extracted(a + b) == Extracted(a) + Extracted(b)
    decreases |b|
  {
    if b == [] {
      assert a + b == a;
    } else {
      var init, last := b[..|b| - 1], b[|b| - 1];
      assert b == init + [last];
      assert a + b == (a + init) + [last];
      ExtractedConcat(a, init);
      ExtractedSnoc(a + init, last);
      ExtractedSnoc(init, last);
      var tail := if |last| >= 6 then [RowToLot(last)] else [];
      assert (Extracted(a) + Extracted(init)) + tail == Extracted(a) + (Extracted(init) + tail);
    }
  }

  lemma ExtractedSnoc(rows: seq<Row>, row: Row)
    ensures Extracted(rows + [row]) == Extracted(rows) + if |row| >= 6 then [RowToLot(row)] else []
  {
    assert (rows + [row])[..|rows|] == rows;
  }

  /** One row gives one record when it has six cells or more, and nothing otherwise. */
  lemma ExtractedOne(row: Row)
    ensures Extracted([row]) == if |row| >= 6 then [RowToLot(row)] else []
  {
    assert [row][..0] == [];
  }

  /** The records, in the order of the table: the `k`-th record comes from the `k`-th row with six cells or more. */
  lemma {:induction false} ExtractedAt(rows: seq<Row>, i: nat)
    requires i < |rows| && |rows[i]| >= 6
    ensures var before := Extracted(rows[..i]);
      |before| < |Extracted(rows)| && Extracted(rows)[|before|] == RowToLot(rows[i])
  {
    assert rows == rows[..i] + [rows[i]] + rows[i + 1..];
    ExtractedConcat(rows[..i] + [rows[i]], rows[i + 1..]);
    ExtractedConcat(rows[..i], [rows[i]]);
    ExtractedOne(rows[i]);
  }

  /** The data rows of a table: everything after the header row (`rows[1:]`). */
  function DataRows(rows: seq<Row>): seq<Row>
  {
    if rows == [] then [] else rows[1..]
  }

  /** The first row is never turned into a record, whatever it holds. */
  lemma HeaderNeverEmitted(header: Row, rows: seq<Row>)
    ensures Extracted(DataRows([header] + rows)) == Extracted(rows)
  {
    assert ([header] + rows)[1..] == rows;
  }

  // ---------------------------------------------------------------------------
  // parse_goszakup and main

  /** What one GET of the search page brings: a request failure, or a page with or without the result table. */
  datatype Response = RequestFailed | Page(table: Option<seq<Row>>)

  /** `parse_goszakup`: `None` on a request failure or without the `search-result` table, else the records. */
  method ParseGoszakup(response: Response) returns (data: Option<seq<Lot>>)
    ensures response.RequestFailed? ==> data == None
    ensures response.Page? && response.table.None? ==> data == None
    ensures response.Page? && response.table.Some? ==> data == Some(Extracted(DataRows(response.table.value)))
  {
    if response.RequestFailed? || response.table.None? {
      return None;
    }
    var rows := response.table.value;
    var body := DataRows(rows);
    var lots: seq<Lot> := [];
    var i := 0;
    while i < |body|
      invariant 0 <= i <= |body|
      invariant lots == Extracted(body[..i])
    {
      var cols := body[i];
      ExtractedSnoc(body[..i], cols);
      assert body[..i] + [cols] == body[..i + 1];
      if |cols| >= 6 {
        lots := lots + [RowToLot(cols)];
      }
      i := i + 1;
    }
    assert body[..|body|] == body;
    return Some(lots);
  }

  const BaseUrl: string := "https://goszakup.gov.kz/ru/search/lots"

  /** The URL `main` requests: `count_record` first, then `page`. */
  function QueryUrl(page: int, countRecord: int): string
  {
    BaseUrl + "?count_record=" + IntToString(countRecord) + "&page=" + IntToString(page)
  }

  /** Different (page, count) pairs give different URLs. */
  lemma QueryUrlInjective(p1: int, c1: int, p2: int, c2: int)
    requires QueryUrl(p1, c1) == QueryUrl(p2, c2)
    ensures p1 == p2 && c1 == c2
  {
    var prefix := BaseUrl + "?count_record=";
    var a1, a2 := IntToString(c1), IntToString(c2);
    var b1, b2 := "&page=" + IntToString(p1), "&page=" + IntToString(p2);
    UrlParts(p1, c1);
    UrlParts(p2, c2);
    DropPrefix(prefix, a1 + b1, a2 + b2);
    NoAmpersand(c1);
    NoAmpersand(c2);
    CutAtAmpersand(a1, b1, a2, b2);
    DropPrefix("&page=", IntToString(p1), IntToString(p2));
    PyFloat.IntToStringInjective(c1, c2);
    PyFloat.IntToStringInjective(p1, p2);
  }

  lemma UrlParts(page: int, countRecord: int)
    ensures QueryUrl(page, countRecord)
      == (BaseUrl + "?count_record=") + (IntToString(countRecord) + ("&page=" + IntToString(page)))
  {
  }

  lemma DropPrefix(prefix: string, x: string, y: string)
    requires prefix + x == prefix + y
    ensures x == y
  {
    assert x == (prefix + x)[|prefix|..];
    assert y == (prefix + y)[|prefix|..];
  }

  lemma NoAmpersand(n: int)
    ensures '&' !in IntToString(n)
  {
    var t := IntToString(n);
    assert forall i :: 0 <= i < |t| ==> t[i] == '-' || '0' <= t[i] <= '9';
  }

  /** Two ways of writing one string as an `&`-free part followed by a part that starts with `&` are the same. */
  lemma CutAtAmpersand(a1: string, b1: string, a2: string, b2: string)
    requires '&' !in a1 && '&' !in a2
    requires |b1| > 0 && |b2| > 0 && b1[0] == '&' && b2[0] == '&'
    requires a1 + b1 == a2 + b2
    ensures a1 == a2 && b1 == b2
  {
    IndexOfAt(a1, b1, '&');
    IndexOfAt(a2, b2, '&');
    assert a1 == (a1 + b1)[..|a1|] && a2 == (a2 + b2)[..|a2|];
    assert b1 == (a1 + b1)[|a1|..] && b2 == (a2 + b2)[|a2|..];
  }

  /** `main`'s default arguments: `page=1`, `count_record=2000`. */
  const DefaultPage := 1
  const DefaultCountRecord := 2000

  /** `main()` without arguments requests the first page of 2000 records. */
  lemma DefaultQueryUrl()
    ensures QueryUrl(DefaultPage, DefaultCountRecord) == BaseUrl + "?count_record=2000&page=1"
  {
    DefaultArgumentText(DefaultPage, DefaultCountRecord);
    var prefix := BaseUrl + "?count_record=";
    assert QueryUrl(DefaultPage, DefaultCountRecord) == prefix + "2000" + "&page=" + "1";
  }

  lemma DefaultArgumentText(page: int, countRecord: int)
    requires page == 1 && countRecord == 2000
    ensures IntToString(page) == "1" && IntToString(countRecord) == "2000"
  {
    assert NatToString(2) == "2";
    assert NatToString(20) == "2" + "0";
    assert NatToString(200) == "20" + "0";
    assert NatToString(2000) == "200" + "0";
  }

  /**
   * `main(page, count_record)`: request the page and parse it; a failed request
   * or a page without the table gives the empty list, never `None`.
   */
  method ScrapePage(page: int, countRecord: int, fetch: string -> Response) returns (data: seq<Lot>)
    ensures var response := fetch(QueryUrl(page, countRecord));
      data == if response.Page? && response.table.Some? then Extracted(DataRows(response.table.value)) else []
  {
    var url := QueryUrl(page, countRecord);
    var parsed := ParseGoszakup(fetch(url));
    if parsed.Some? && |parsed.value| > 0 {
      data := parsed.value;
    } else {
      data := [];
    }
  }
}
