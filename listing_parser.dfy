/** WrittenQuestionListingParser of parliament/tools/fetch_written_questions.py:
    the handlers of an HTML parser that collect the rows of a written-question
    listing table. HTML tokenisation itself is not modelled; the parser is
    driven by an abstract sequence of start-tag, end-tag and text events. */
module ListingParser {
  import opened Values
  import opened Text

  /** An attribute as the tokeniser reports it: a name and a value that may
      be absent (`<td nowrap>`). */
  type Attr = (string, Option<string>)

  datatype Event =
    | StartTag(tag: string, attrs: seq<Attr>)
    | EndTag(tag: string)
    | Data(text: string)

  type Row = map<string, string>

  /** HEADER_TEXT_MAP */
  function TextKey(header: string): Option<string>
  {
    if header == "SHITSUMON.NUMBER" then Some("number")
    else if header == "SHITSUMON.KENMEI" then Some("title")
    else if header == "SHITSUMON.TEISHUTSUSHA" then Some("submitter")
    else if header == "SHITSUMON.STATUS" then Some("status")
    else None
  }

  /** HEADER_LINK_MAP */
  function LinkKey(header: string): Option<string>
  {
    if header == "SHITSUMON.KLINK" then Some("history_url")
    else if header == "SHITSUMON.SLINK" then Some("question_html_url")
    else if header == "SHITSUMON.SLINKPDF" then Some("question_pdf_url")
    else if header == "SHITSUMON.TLINK" then Some("answer_html_url")
    else if header == "SHITSUMON.TLINKPDF" then Some("answer_pdf_url")
    else None
  }

  predicate IsTextField(key: string)
  {
    key in {"number", "title", "submitter", "status"}
  }

  predicate IsLinkField(key: string)
  {
    key in {"history_url", "question_html_url", "question_pdf_url", "answer_html_url", "answer_pdf_url"}
  }

  /** The two header maps never claim the same header, and their field
      names are apart, so a text cell can never overwrite a link and back. */
  lemma HeaderMapsDisjoint(header: string)
    ensures TextKey(header).None? || LinkKey(header).None?
    ensures TextKey(header).Some? ==> IsTextField(TextKey(header).value) && !IsLinkField(TextKey(header).value)
    ensures LinkKey(header).Some? ==> IsLinkField(LinkKey(header).value) && !IsTextField(LinkKey(header).value)
  {
  }

  /** `{k.lower(): v for k, v in attrs}.get(name)`: the value of the last
      attribute of that name; absent and valueless attributes both read as
      None. */
  function AttrGet(attrs: seq<Attr>, name: string): (v: Option<string>)
    ensures (forall k :: 0 <= k < |attrs| ==> LowerAscii(attrs[k].0) != name) ==> v.None?
    ensures v.Some? ==> exists k :: 0 <= k < |attrs| && LowerAscii(attrs[k].0) == name && attrs[k].1 == v
                                    && forall j :: k < j < |attrs| ==> LowerAscii(attrs[j].0) != name
    decreases |attrs|
  {
    if attrs == [] then None
    else
      var init, last := attrs[..|attrs| - 1], attrs[|attrs| - 1];
      if LowerAscii(last.0) == name then last.1
      else
        var v := AttrGet(init, name);
        assert forall k :: 0 <= k < |init| ==> init[k] == attrs[k];
        v
  }

  predicate Stripped(s: string)
  {
    s == [] || (!IsSpace(s[0]) && !IsSpace(s[|s| - 1]))
  }

  function NonEmpty(chunks: seq<string>): (r: seq<string>)
    ensures forall k :: 0 <= k < |r| ==> r[k] != ""
    decreases |chunks|
  {
    if chunks == [] then []
    else (if chunks[0] != "" then [chunks[0]] else []) + NonEmpty(chunks[1..])
  }

  /** `" ".join(chunk for chunk in chunks if chunk).strip()` */
  function CellText(chunks: seq<string>): (text: string)
    ensures Stripped(text)
  {
    Strip(JoinWith(NonEmpty(chunks), " "))
  }

  /** A row as stored: only fields of the two maps, and text fields are
      non-empty stripped text. */
  predicate WellFormedRow(row: Row)
  {
    forall key :: key in row ==>
      (IsTextField(key) || IsLinkField(key))
      && (IsTextField(key) ==> row[key] != "" && Stripped(row[key]))
  }

  predicate HasTitle(row: Row)
  {
    "title" in row && row["title"] != ""
  }

  // ---------------------------------------------------------------------
  // The parser's state as a value, and the handlers as functions on it

  /** The mutable fields of the parser. */
  datatype PState = PState(rows: seq<Row>, inTr: bool, currentRow: Row,
                           currentHeader: Option<string>, textChunks: seq<string>)

  /** The state `__init__` sets up. */
  const InitialState := PState([], false, map[], None, [])

  /** Outside a row nothing is pending; a header, when set, is non-empty
      and only inside a row; chunks are only collected under a header;
      every collected row is well formed and has a title. */
  predicate ValidState(s: PState)
  {
    && (!s.inTr ==> s.currentRow == map[] && s.currentHeader.None? && s.textChunks == [])
    && (s.currentHeader.Some? ==> s.inTr && s.currentHeader.value != "")
    && (s.currentHeader.None? ==> s.textChunks == [])
    && WellFormedRow(s.currentRow)
    && (forall k :: 0 <= k < |s.rows| ==> WellFormedRow(s.rows[k]) && HasTitle(s.rows[k]))
  }

  /** A current header that is set and non-empty (Python's truthiness). */
  predicate InCell(s: PState)
  {
    s.inTr && s.currentHeader.Some? && s.currentHeader.value != ""
  }

  /** handle_starttag on a state value. */
  function StartTagStep(s: PState, tag: string, attrs: seq<Attr>,
                        baseUrl: string, urlJoin: (string, string) -> string): PState
  {
    var t := LowerAscii(tag);
    if t == "tr" then PState(s.rows, true, map[], None, [])
    else if s.inTr && t == "td" then
      var h := AttrGet(attrs, "headers");
      s.(currentHeader := if h.Some? && h.value != "" then Some(UpperAscii(h.value)) else None,
         textChunks := [])
    else if t == "a" && InCell(s) then
      var href := AttrGet(attrs, "href");
      var key := LinkKey(s.currentHeader.value);
      if href.Some? && href.value != "" && key.Some? && key.value !in s.currentRow
      then s.(currentRow := s.currentRow[key.value := urlJoin(baseUrl, href.value)])
      else s
    else if t == "br" && InCell(s) then s.(textChunks := s.textChunks + ["\n"])
    else s
  }

  /** handle_endtag on a state value. */
  function EndTagStep(s: PState, tag: string): PState
  {
    var t := LowerAscii(tag);
    if t == "td" && InCell(s) then
      var key := TextKey(s.currentHeader.value);
      var text := CellText(s.textChunks);
      s.(currentRow := if key.Some? && text != "" then s.currentRow[key.value := text] else s.currentRow,
         currentHeader := None, textChunks := [])
    else if t == "tr" && s.inTr then
      PState(s.rows + (if HasTitle(s.currentRow) then [s.currentRow] else []), false, map[], None, [])
    else s
  }

  /** handle_data on a state value. */
  function DataStep(s: PState, data: string): PState
  {
    if InCell(s) && Strip(data) != "" then s.(textChunks := s.textChunks + [Strip(data)]) else s
  }

  function Step(s: PState, e: Event, baseUrl: string, urlJoin: (string, string) -> string): PState
  {
    match e
    case StartTag(tag, attrs) => StartTagStep(s, tag, attrs, baseUrl, urlJoin)
    case EndTag(tag) => EndTagStep(s, tag)
    case Data(text) => DataStep(s, text)
  }

  /** The state after the handlers have seen every event, in order. */
  function Run(s: PState, events: seq<Event>, baseUrl: string, urlJoin: (string, string) -> string): PState
    decreases |events|
  {
    if events == [] then s
    else Step(Run(s, events[..|events| - 1], baseUrl, urlJoin), events[|events| - 1], baseUrl, urlJoin)
  }

  class Parser {
    const baseUrl: string
    /** `urllib.parse.urljoin`, taken as given. */
    const urlJoin: (string, string) -> string

    var rows: seq<Row>
    var inTr: bool
    var currentRow: Row
    var currentHeader: Option<string>
    var textChunks: seq<string>

    function State(): PState
      reads this
    {
      PState(rows, inTr, currentRow, currentHeader, textChunks)
    }

    predicate Valid()
      reads this
    {
      ValidState(State())
    }

    constructor (baseUrl: string, urlJoin: (string, string) -> string)
      ensures Valid()
      ensures this.baseUrl == baseUrl && this.urlJoin == urlJoin
      ensures rows == [] && !inTr
      ensures State() == InitialState
    {
      this.baseUrl := baseUrl;
      this.urlJoin := urlJoin;
      rows := [];
      inTr := false;
      currentRow := map[];
      currentHeader := None;
      textChunks := [];
    }

    method StartRow()
      requires Valid()
      modifies this
      ensures Valid()
      ensures inTr && currentRow == map[] && currentHeader.None? && textChunks == []
      ensures rows == old(rows)
    {
      inTr := true;
      currentRow := map[];
      currentHeader := None;
      textChunks := [];
    }

    /** Keeps the pending row only when it has a non-empty title, then
        resets all per-row state. */
    method FinalizeRow()
      requires Valid()
      modifies this
      ensures Valid()
      ensures rows == old(rows) + (if HasTitle(old(currentRow)) then [old(currentRow)] else [])
      ensures !inTr && currentRow == map[] && currentHeader.None? && textChunks == []
    {
      if "title" in currentRow && currentRow["title"] != "" {
        rows := rows + [currentRow];
      }
      inTr := false;
      currentRow := map[];
      currentHeader := None;
      textChunks := [];
    }

    /** Stores the cell text under the text field of the current header;
        empty text or a header outside HEADER_TEXT_MAP stores nothing. */
    method StoreText()
      requires Valid()
      modifies this
      ensures Valid()
      ensures var key := if old(currentHeader).Some? then TextKey(old(currentHeader).value) else None;
              var text := CellText(old(textChunks));
              currentRow == if key.Some? && text != "" then old(currentRow)[key.value := text] else old(currentRow)
      ensures rows == old(rows) && inTr == old(inTr) && currentHeader == old(currentHeader) && textChunks == old(textChunks)
    {
      if currentHeader.None? || currentHeader.value == "" {
        return;
      }
      var key := TextKey(currentHeader.value);
      if key.None? {
        return;
      }
      var text := CellText(textChunks);
      if text != "" {
        HeaderMapsDisjoint(currentHeader.value);
        currentRow := currentRow[key.value := text];
      }
    }

    /** Stores the resolved link under the link field of the current header,
        unless that field already holds one (`setdefault`). */
    method StoreLink(href: string)
      requires Valid()
      modifies this
      ensures Valid()
      ensures var key := if old(currentHeader).Some? then LinkKey(old(currentHeader).value) else None;
              currentRow == if key.Some? && key.value !in old(currentRow)
                            then old(currentRow)[key.value := urlJoin(baseUrl, href)]
                            else old(currentRow)
      ensures rows == old(rows) && inTr == old(inTr) && currentHeader == old(currentHeader) && textChunks == old(textChunks)
    {
      if currentHeader.None? || currentHeader.value == "" {
        return;
      }
      var key := LinkKey(currentHeader.value);
      if key.None? {
        return;
      }
      if key.value !in currentRow {
        HeaderMapsDisjoint(currentHeader.value);
        currentRow := currentRow[key.value := urlJoin(baseUrl, href)];
      }
    }

    method HandleStartTag(tag: string, attrs: seq<Attr>)
      requires Valid()
      modifies this
      ensures Valid()
      ensures State() == StartTagStep(old(State()), tag, attrs, baseUrl, urlJoin)
      ensures rows == old(rows)
      ensures LowerAscii(tag) == "tr" ==> inTr && currentRow == map[] && currentHeader.None? && textChunks == []
      ensures LowerAscii(tag) == "td" && old(inTr) ==>
                var h := AttrGet(attrs, "headers");
                && currentHeader == (if h.Some? && h.value != "" then Some(UpperAscii(h.value)) else None)
                && textChunks == [] && currentRow == old(currentRow) && inTr
      ensures LowerAscii(tag) == "a" && old(inTr) && old(currentHeader).Some? ==>
                var href := AttrGet(attrs, "href");
                var key := LinkKey(old(currentHeader).value);
                && currentRow == (if href.Some? && href.value != "" && key.Some? && key.value !in old(currentRow)
                                  then old(currentRow)[key.value := urlJoin(baseUrl, href.value)]
                                  else old(currentRow))
                && currentHeader == old(currentHeader) && textChunks == old(textChunks) && inTr
      ensures LowerAscii(tag) == "br" && old(inTr) && old(currentHeader).Some? ==>
                textChunks == old(textChunks) + ["\n"] && currentRow == old(currentRow) && currentHeader == old(currentHeader) && inTr
      ensures LowerAscii(tag) != "tr" && !old(inTr) ==>
                currentRow == old(currentRow) && currentHeader == old(currentHeader) && textChunks == old(textChunks) && inTr == old(inTr)
      ensures LowerAscii(tag) != "tr" && LowerAscii(tag) != "td" && LowerAscii(tag) != "a" && LowerAscii(tag) != "br" ==>
                unchanged(this)
      ensures (LowerAscii(tag) == "a" || LowerAscii(tag) == "br") && old(currentHeader).None? ==>
                unchanged(this)
    {
      var t := LowerAscii(tag);
      if t == "tr" {
        StartRow();
      } else if inTr && t == "td" {
        var header := AttrGet(attrs, "headers");
        currentHeader := if header.Some? && header.value != "" then Some(UpperAscii(header.value)) else None;
        textChunks := [];
      } else if inTr && t == "a" && currentHeader.Some? && currentHeader.value != "" {
        var href := AttrGet(attrs, "href");
        if href.Some? && href.value != "" {
          StoreLink(href.value);
        }
      } else if inTr && t == "br" && currentHeader.Some? && currentHeader.value != "" {
        textChunks := textChunks + ["\n"];
      }
    }

    method HandleEndTag(tag: string)
      requires Valid()
      modifies this
      ensures Valid()
      ensures State() == EndTagStep(old(State()), tag)
      ensures LowerAscii(tag) == "td" && old(inTr) && old(currentHeader).Some? ==>
                var key := TextKey(old(currentHeader).value);
                var text := CellText(old(textChunks));
                && currentRow == (if key.Some? && text != "" then old(currentRow)[key.value := text] else old(currentRow))
                && currentHeader.None? && textChunks == [] && inTr && rows == old(rows)
      ensures LowerAscii(tag) == "tr" && old(inTr) ==>
                && rows == old(rows) + (if HasTitle(old(currentRow)) then [old(currentRow)] else [])
                && !inTr && currentRow == map[]
      ensures !old(inTr) ==> unchanged(this)
      ensures LowerAscii(tag) != "td" && LowerAscii(tag) != "tr" ==> unchanged(this)
      ensures LowerAscii(tag) == "td" && old(currentHeader).None? ==> unchanged(this)
      ensures rows == old(rows) || rows == old(rows) + [old(currentRow)]
    {
      var t := LowerAscii(tag);
      if t == "td" && inTr && currentHeader.Some? && currentHeader.value != "" {
        StoreText();
        currentHeader := None;
        textChunks := [];
      } else if t == "tr" && inTr {
        FinalizeRow();
      }
    }

    /** Text counts only inside a row and under a cell header; it is
        stripped and kept when non-empty. */
    method HandleData(data: string)
      requires Valid()
      modifies this
      ensures Valid()
      ensures State() == DataStep(old(State()), data)
      ensures textChunks == if inTr && currentHeader.Some? && Strip(data) != "" then old(textChunks) + [Strip(data)] else old(textChunks)
      ensures rows == old(rows) && inTr == old(inTr) && currentRow == old(currentRow) && currentHeader == old(currentHeader)
    {
      if inTr && currentHeader.Some? && currentHeader.value != "" {
        var stripped := Strip(data);
        if stripped != "" {
          textChunks := textChunks + [stripped];
        }
      }
    }

    /** `feed`: the handlers applied to each event in turn. Rows are only
        ever added. */
    method Feed(events: seq<Event>)
      requires Valid()
      modifies this
      ensures Valid()
      ensures State() == Run(old(State()), events, baseUrl, urlJoin)
      ensures |old(rows)| <= |rows| && rows[..|old(rows)|] == old(rows)
    {
      ghost var before := rows;
      ghost var start := State();
      assert events[..0] == [];
      for k := 0 to |events|
        invariant Valid()
        invariant State() == Run(start, events[..k], baseUrl, urlJoin)
        invariant |before| <= |rows| && rows[..|before|] == before
      {
        ghost var prev := rows;
        assert events[..k + 1][..k] == events[..k];
        match events[k]
        case StartTag(tag, attrs) => HandleStartTag(tag, attrs);
        case EndTag(tag) => HandleEndTag(tag);
        case Data(text) => HandleData(text);
        assert rows[..|prev|] == prev;
        assert rows[..|before|] == prev[..|before|];
      }
      assert events[..|events|] == events;
    }
  }

  // ---------------------------------------------------------------------
  // What a run of the handlers guarantees

  /** A row is added only by `</tr>` inside a row whose title is set, and
      then it is exactly the pending row; no other event touches the rows. */
  lemma RowsOnlyAtRowEnd(s: PState, e: Event, baseUrl: string, urlJoin: (string, string) -> string)
    ensures var r := Step(s, e, baseUrl, urlJoin);
            r.rows == s.rows ||
            (e.EndTag? && LowerAscii(e.tag) == "tr" && s.inTr && HasTitle(s.currentRow) && r.rows == s.rows + [s.currentRow])
  {
  }

  /** One event keeps the state valid and only appends rows. */
  lemma StepValid(s: PState, e: Event, baseUrl: string, urlJoin: (string, string) -> string)
    requires ValidState(s)
    ensures var r := Step(s, e, baseUrl, urlJoin);
            ValidState(r) && |s.rows| <= |r.rows| && r.rows[..|s.rows|] == s.rows
  {
    match e
    case StartTag(tag, attrs) =>
      if LowerAscii(tag) != "tr" && LowerAscii(tag) != "td" && LowerAscii(tag) == "a" && InCell(s) {
        HeaderMapsDisjoint(s.currentHeader.value);
      }
    case EndTag(tag) =>
      if LowerAscii(tag) == "td" && InCell(s) {
        HeaderMapsDisjoint(s.currentHeader.value);
      }
    case Data(_) =>
  }

  /** Any run of events keeps the state valid and only appends rows; from
      the initial state, every collected row has a title and is well
      formed. */
  lemma {:induction false} RunValid(s: PState, events: seq<Event>, baseUrl: string, urlJoin: (string, string) -> string)
    requires ValidState(s)
    ensures var r := Run(s, events, baseUrl, urlJoin);
            ValidState(r) && |s.rows| <= |r.rows| && r.rows[..|s.rows|] == s.rows
    decreases |events|
  {
    if events != [] {
      var init := events[..|events| - 1];
      RunValid(s, init, baseUrl, urlJoin);
      var mid := Run(s, init, baseUrl, urlJoin);
      StepValid(mid, events[|events| - 1], baseUrl, urlJoin);
      var r := Run(s, events, baseUrl, urlJoin);
      assert r.rows[..|s.rows|] == r.rows[..|mid.rows|][..|s.rows|];
    }
  }

  /** Feeding in two parts is feeding the whole: `feed` may be called on
      consecutive pieces of a document. */
  lemma {:induction false} RunAppend(s: PState, a: seq<Event>, b: seq<Event>, baseUrl: string, urlJoin: (string, string) -> string)
    ensures Run(s, a + b, baseUrl, urlJoin) == Run(Run(s, a, baseUrl, urlJoin), b, baseUrl, urlJoin)
    decreases |b|
  {
    if b == [] {
      assert a + b == a;
    } else {
      var b' := b[..|b| - 1];
      assert (a + b)[..|a + b| - 1] == a + b';
      RunAppend(s, a, b', baseUrl, urlJoin);
    }
  }

  /** Case folding of the tag names the examples use. */
  lemma TagNames()
    ensures LowerAscii("tr") == "tr" && LowerAscii("td") == "td"
  {
    assert LowerAscii("tr")[0] == 't' && LowerAscii("tr")[1] == 'r';
    assert LowerAscii("td")[0] == 't' && LowerAscii("td")[1] == 'd';
  }

  /** The prefix form of `Run` unfolded at its last event. */
  lemma RunSnoc(s: PState, events: seq<Event>, e: Event, baseUrl: string, urlJoin: (string, string) -> string)
    ensures Run(s, events + [e], baseUrl, urlJoin) == Step(Run(s, events, baseUrl, urlJoin), e, baseUrl, urlJoin)
  {
    assert (events + [e])[..|events|] == events;
  }

  /** The events of `<tr><td headers="h">text</td></tr>`. */
  function OneCellRow(h: string, text: string): seq<Event>
  {
    [StartTag("tr", []), StartTag("td", [("headers", Some(h))]), Data(text), EndTag("td"), EndTag("tr")]
  }

  /** A cell holding one stripped chunk has that chunk as its text. */
  lemma SingleCellText(text: string)
    requires text != "" && Strip(text) == text
    ensures CellText([text]) == text
  {
    assert NonEmpty([text]) == [text];
  }

  // The five steps of a one-cell row, each on its own.

  lemma RowOpens(rows: seq<Row>, baseUrl: string, urlJoin: (string, string) -> string)
    ensures Step(PState(rows, false, map[], None, []), StartTag("tr", []), baseUrl, urlJoin)
            == PState(rows, true, map[], None, [])
  {
    TagNames();
  }

  lemma CellOpens(rows: seq<Row>, h: string, baseUrl: string, urlJoin: (string, string) -> string)
    requires h != ""
    ensures Step(PState(rows, true, map[], None, []), StartTag("td", [("headers", Some(h))]), baseUrl, urlJoin)
            == PState(rows, true, map[], Some(UpperAscii(h)), [])
  {
    TagNames();
    assert LowerAscii("headers") == "headers";
  }

  lemma CellCollects(rows: seq<Row>, header: string, text: string, baseUrl: string, urlJoin: (string, string) -> string)
    requires header != "" && text != "" && Strip(text) == text
    ensures Step(PState(rows, true, map[], Some(header), []), Data(text), baseUrl, urlJoin)
            == PState(rows, true, map[], Some(header), [text])
  {
  }

  lemma CellCloses(rows: seq<Row>, header: string, text: string, baseUrl: string, urlJoin: (string, string) -> string)
    requires header != "" && text != "" && Strip(text) == text
    ensures Step(PState(rows, true, map[], Some(header), [text]), EndTag("td"), baseUrl, urlJoin)
            == PState(rows, true, if TextKey(header).Some? then map[TextKey(header).value := text] else map[], None, [])
  {
    TagNames();
    SingleCellText(text);
  }

  lemma RowCloses(rows: seq<Row>, row: Row, baseUrl: string, urlJoin: (string, string) -> string)
    ensures Step(PState(rows, true, row, None, []), EndTag("tr"), baseUrl, urlJoin)
            == PState(rows + (if HasTitle(row) then [row] else []), false, map[], None, [])
  {
    TagNames();
  }

  /** A one-cell row, read outside any row, is collected exactly when its
      (upper-cased) header is the title header, and then it holds that
      title only. */
  lemma OneCellRowRun(rows: seq<Row>, h: string, text: string, baseUrl: string, urlJoin: (string, string) -> string)
    requires h != "" && text != "" && Strip(text) == text
    ensures Run(PState(rows, false, map[], None, []), OneCellRow(h, text), baseUrl, urlJoin)
            == PState(rows + (if TextKey(UpperAscii(h)) == Some("title") then [map["title" := text]] else []),
                      false, map[], None, [])
  {
    var e0, e1, e2, e3, e4 := StartTag("tr", []), StartTag("td", [("headers", Some(h))]), Data(text), EndTag("td"), EndTag("tr");
    var s0 := PState(rows, false, map[], None, []);
    var H := UpperAscii(h);
    var key := TextKey(H);
    var row: Row := if key.Some? then map[key.value := text] else map[];
    var s1, s2, s3 := PState(rows, true, map[], None, []), PState(rows, true, map[], Some(H), []),
                      PState(rows, true, map[], Some(H), [text]);
    var s4 := PState(rows, true, row, None, []);
    RowOpens(rows, baseUrl, urlJoin);
    CellOpens(rows, h, baseUrl, urlJoin);
    CellCollects(rows, H, text, baseUrl, urlJoin);
    CellCloses(rows, H, text, baseUrl, urlJoin);
    RowCloses(rows, row, baseUrl, urlJoin);
    RunSnoc(s0, [], e0, baseUrl, urlJoin);
    assert [] + [e0] == [e0];
    RunSnoc(s0, [e0], e1, baseUrl, urlJoin);
    assert [e0] + [e1] == [e0, e1];
    RunSnoc(s0, [e0, e1], e2, baseUrl, urlJoin);
    assert [e0, e1] + [e2] == [e0, e1, e2];
    RunSnoc(s0, [e0, e1, e2], e3, baseUrl, urlJoin);
    assert [e0, e1, e2] + [e3] == [e0, e1, e2, e3];
    RunSnoc(s0, [e0, e1, e2, e3], e4, baseUrl, urlJoin);
    assert [e0, e1, e2, e3] + [e4] == OneCellRow(h, text);
    assert HasTitle(row) <==> key == Some("title");
    assert HasTitle(row) ==> row == map["title" := text];
  }

  /** Upper-casing leaves the listing's own header names as they are, and
      folds their lower-case spelling into them. */
  lemma HeaderNames()
    ensures UpperAscii("SHITSUMON.KENMEI") == "SHITSUMON.KENMEI"
    ensures UpperAscii("shitsumon.number") == "SHITSUMON.NUMBER"
  {
    var a := UpperAscii("SHITSUMON.KENMEI");
    assert a == "SHITSUMON.KENMEI" by {
      forall k | 0 <= k < 16
        ensures a[k] == "SHITSUMON.KENMEI"[k]
      {
      }
    }
    var b := UpperAscii("shitsumon.number");
    assert b == "SHITSUMON.NUMBER" by {
      forall k | 0 <= k < 16
        ensures b[k] == "SHITSUMON.NUMBER"[k]
      {
      }
    }
  }

  /** `<tr><td headers="SHITSUMON.KENMEI">X</td></tr>` gives one row with
      title "X". */
  lemma TitleRowExample(baseUrl: string, urlJoin: (string, string) -> string)
    ensures Run(InitialState, OneCellRow("SHITSUMON.KENMEI", "X"), baseUrl, urlJoin).rows == [map["title" := "X"]]
  {
    HeaderNames();
    assert Strip("X") == "X";
    OneCellRowRun([], "SHITSUMON.KENMEI", "X", baseUrl, urlJoin);
  }

  /** `<tr><td headers="shitsumon.number">5</td></tr>`: the header is read
      case-insensitively, but a row without a title is dropped. */
  lemma UntitledRowExample(baseUrl: string, urlJoin: (string, string) -> string)
    ensures Run(InitialState, OneCellRow("shitsumon.number", "5"), baseUrl, urlJoin).rows == []
  {
    HeaderNames();
    assert Strip("5") == "5";
    OneCellRowRun([], "shitsumon.number", "5", baseUrl, urlJoin);
  }

  /** parse_listing: the rows the handlers collect from the events, each
      well formed and with a non-empty title. */
  method ParseListing(events: seq<Event>, url: string, urlJoin: (string, string) -> string)
    returns (rows: seq<Row>)
    ensures rows == Run(InitialState, events, url, urlJoin).rows
    ensures forall k :: 0 <= k < |rows| ==> HasTitle(rows[k]) && WellFormedRow(rows[k])
  {
    var parser := new Parser(url, urlJoin);
    parser.Feed(events);
    rows := parser.rows;
  }
}
