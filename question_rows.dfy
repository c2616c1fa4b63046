/** The listing rows of parliament/tools/fetch_written_questions.py after
    parsing: their dedup key, the dedup pass that merges keyword lists, and
    the serialisation into JSON objects sorted for output. */
module QuestionRows {
  import opened Values
  import opened Text
  import opened Lists
  import opened Sorting
  import opened QuestionSearch
  import opened QuestionIds

  /** ListingRow */
  datatype ListingRow = ListingRow(
    number: Option<int>,
    title: string,
    submitter: Option<string>,
    status: Option<string>,
    historyUrl: Option<string>,
    questionHtmlUrl: Option<string>,
    questionPdfUrl: Option<string>,
    answerHtmlUrl: Option<string>,
    answerPdfUrl: Option<string>,
    sourceListingUrl: string,
    session: Option<int>,
    matchedKeywords: seq<string>)

  /** `f"{value}"` of an optional integer. */
  function ShowOpt(n: Option<int>): string
  {
    if n.None? then "None" else Decimal(n.value)
  }

  /** The dedup key: the question id, or "session:number:normalised title"
      when the row has none (an id is never empty, so `not key` only holds
      for the missing one). */
  function DedupKey(row: ListingRow): string
  {
    match ComputeQuestionId(row.questionHtmlUrl)
    case Some(id) => id
    case None => ShowOpt(row.session) + ":" + ShowOpt(row.number) + ":" + NormalizeForSearch(row.title)
  }

  /** Two rows of the same question (by id) share a key, and a row without
      an id shares its key only with rows that agree on session, number and
      normalised title. */
  lemma DedupKeyOfId(a: ListingRow, b: ListingRow)
    requires ComputeQuestionId(a.questionHtmlUrl).Some?
    ensures ComputeQuestionId(a.questionHtmlUrl) == ComputeQuestionId(b.questionHtmlUrl) ==>
              DedupKey(a) == DedupKey(b)
    ensures DedupKey(a) != DedupKey(b.(questionHtmlUrl := None))
  {
    var id := ComputeQuestionId(a.questionHtmlUrl).value;
    var c := b.(questionHtmlUrl := None);
    // an id is a letter and six digits, a composite key has a ':'
    CompositeKeyColon(c);
    assert forall k :: 0 <= k < |id| ==> id[k] != ':';
  }

  lemma CompositeKeyColon(c: ListingRow)
    requires c.questionHtmlUrl.None?
    ensures |ShowOpt(c.session)| < |DedupKey(c)| && DedupKey(c)[|ShowOpt(c.session)|] == ':'
  {
    var rest := ":" + ShowOpt(c.number) + ":" + NormalizeForSearch(c.title);
    assert DedupKey(c) == ShowOpt(c.session) + rest;
  }

  // The dedup pass depends on the key only through the fact that merging
  // keywords leaves a row's key alone; it is stated for any such key.

  type KeyFn = ListingRow -> string

  ghost predicate IgnoresKeywords(keyOf: KeyFn)
  {
    forall r: ListingRow, kws: seq<string> :: keyOf(r.(matchedKeywords := kws)) == keyOf(r)
  }

  lemma DedupKeyIgnoresKeywords()
    ensures IgnoresKeywords(DedupKey)
  {
  }

  function KeysOf(rows: seq<ListingRow>, keyOf: KeyFn): (keys: seq<string>)
    ensures |keys| == |rows|
  {
    seq(|rows|, k requires 0 <= k < |rows| => keyOf(rows[k]))
  }

  /** The first index of a row with `key`, or |rows| when there is none. */
  function FindKey(rows: seq<ListingRow>, keyOf: KeyFn, key: string): (i: nat)
    ensures i <= |rows|
    ensures i < |rows| ==> keyOf(rows[i]) == key
    ensures forall j :: 0 <= j < i ==> keyOf(rows[j]) != key
    decreases |rows|
  {
    if rows == [] then 0
    else if keyOf(rows[0]) == key then 0
    else 1 + FindKey(rows[1..], keyOf, key)
  }

  /** The inner loop of a merge: each added keyword not yet in the list is
      appended to it. */
  function MergeKeywords(kept: seq<string>, added: seq<string>): (r: seq<string>)
    ensures |kept| <= |r| && r[..|kept|] == kept
    ensures forall kw :: kw in r <==> kw in kept || kw in added
    ensures forall k :: |kept| <= k < |r| ==> r[k] !in r[..k]
    decreases |added|
  {
    if added == [] then kept
    else
      var m := MergeKeywords(kept, added[..|added| - 1]);
      var kw := added[|added| - 1];
      assert added == added[..|added| - 1] + [kw];
      if kw in m then m
      else
        assert (m + [kw])[..|m|] == m;
        assert forall k :: 0 <= k < |m| ==> (m + [kw])[..k] == m[..k];
        m + [kw]
  }

  /** One step of the dedup pass on the kept rows `out`. */
  function AddRow(out: seq<ListingRow>, keyOf: KeyFn, row: ListingRow): seq<ListingRow>
  {
    var i := FindKey(out, keyOf, keyOf(row));
    if i == |out| then out + [row]
    else out[i := out[i].(matchedKeywords := MergeKeywords(out[i].matchedKeywords, row.matchedKeywords))]
  }

  /** What the dedup pass returns for `rows`. */
  function Deduplicated(rows: seq<ListingRow>, keyOf: KeyFn): seq<ListingRow>
    decreases |rows|
  {
    if rows == [] then [] else AddRow(Deduplicated(rows[..|rows| - 1], keyOf), keyOf, rows[|rows| - 1])
  }

  /** deduplicate_rows: a dict from key to the index of the kept row, and a
      keyword merge into the kept row on every later duplicate. */
  method DeduplicateRows(rows: seq<ListingRow>) returns (out: seq<ListingRow>)
    ensures out == Deduplicated(rows, DedupKey)
  {
    DedupKeyIgnoresKeywords();
    out := DeduplicateBy(rows, DedupKey);
  }

  /** The loop of deduplicate_rows, for any key that ignores keywords. */
  method DeduplicateBy(rows: seq<ListingRow>, keyOf: KeyFn) returns (out: seq<ListingRow>)
    requires IgnoresKeywords(keyOf)
    ensures out == Deduplicated(rows, keyOf)
  {
    out := [];
    var seen: map<string, nat> := map[];
    for k := 0 to |rows|
      invariant out == Deduplicated(rows[..k], keyOf)
      invariant forall key :: key in seen ==> seen[key] < |out| && keyOf(out[seen[key]]) == key
      invariant forall j :: 0 <= j < |out| ==> keyOf(out[j]) in seen
    {
      DedupStep(rows, k, keyOf);
      var row := rows[k];
      var key := keyOf(row);
      DedupKeys(rows[..k], keyOf);
      ghost var prev := out;
      if key !in seen {
        assert FindKey(out, keyOf, key) == |out|;
        seen := seen[key := |out|];
        out := out + [row];
      } else {
        var i := seen[key];
        FindKeyIs(out, keyOf, key, i);
        var existing := out[i];
        var kws := MergeInto(existing.matchedKeywords, row.matchedKeywords);
        out := out[i := existing.(matchedKeywords := kws)];
        assert keyOf(out[i]) == key;
      }
      assert out == AddRow(prev, keyOf, row);
    }
    assert rows[..|rows|] == rows;
  }

  lemma DedupStep(rows: seq<ListingRow>, k: nat, keyOf: KeyFn)
    requires k < |rows|
    ensures Deduplicated(rows[..k + 1], keyOf) == AddRow(Deduplicated(rows[..k], keyOf), keyOf, rows[k])
  {
    assert rows[..k + 1][..k] == rows[..k];
  }

  /** The keyword loop of a merge. */
  method MergeInto(kept: seq<string>, added: seq<string>) returns (kws: seq<string>)
    ensures kws == MergeKeywords(kept, added)
  {
    kws := kept;
    for j := 0 to |added|
      invariant kws == MergeKeywords(kept, added[..j])
    {
      assert added[..j + 1][..j] == added[..j];
      if added[j] !in kws {
        kws := kws + [added[j]];
      }
    }
    assert added[..|added|] == added;
  }

  /** With distinct keys, the first row with a key is the only one. */
  lemma FindKeyIs(rows: seq<ListingRow>, keyOf: KeyFn, key: string, i: nat)
    requires NoDuplicates(KeysOf(rows, keyOf))
    requires i < |rows| && keyOf(rows[i]) == key
    ensures FindKey(rows, keyOf, key) == i
  {
    forall j | 0 <= j < i ensures keyOf(rows[j]) != key {
      assert KeysOf(rows, keyOf)[j] != KeysOf(rows, keyOf)[i];
    }
  }

  /** The kept rows carry the first occurrences of the input's keys, in
      first-seen order: no key twice, every input key present, and no more
      rows than the input. */
  lemma {:induction false} DedupKeys(rows: seq<ListingRow>, keyOf: KeyFn)
    requires IgnoresKeywords(keyOf)
    ensures KeysOf(Deduplicated(rows, keyOf), keyOf) == Dedup(KeysOf(rows, keyOf))
    ensures NoDuplicates(KeysOf(Deduplicated(rows, keyOf), keyOf))
    ensures forall key :: key in KeysOf(Deduplicated(rows, keyOf), keyOf) <==> key in KeysOf(rows, keyOf)
    ensures |Deduplicated(rows, keyOf)| <= |rows|
    decreases |rows|
  {
    if rows != [] {
      var init, r := rows[..|rows| - 1], rows[|rows| - 1];
      DedupKeys(init, keyOf);
      assert rows == init + [r];
      KeysOfAppend(init, keyOf, r);
      DedupAppend(KeysOf(init, keyOf), keyOf(r));
      KeysOfAddRow(Deduplicated(init, keyOf), keyOf, r);
    }
  }

  lemma KeysOfAppend(rows: seq<ListingRow>, keyOf: KeyFn, r: ListingRow)
    ensures KeysOf(rows + [r], keyOf) == KeysOf(rows, keyOf) + [keyOf(r)]
  {
  }

  /** A row with a new key adds its key at the end; any other row leaves
      the keys as they are. */
  lemma KeysOfAddRow(out: seq<ListingRow>, keyOf: KeyFn, r: ListingRow)
    requires IgnoresKeywords(keyOf)
    ensures KeysOf(AddRow(out, keyOf, r), keyOf) ==
              if keyOf(r) in KeysOf(out, keyOf) then KeysOf(out, keyOf) else KeysOf(out, keyOf) + [keyOf(r)]
  {
    var key := keyOf(r);
    var i := FindKey(out, keyOf, key);
    if i == |out| {
      assert key !in KeysOf(out, keyOf);
      KeysOfAppend(out, keyOf, r);
    } else {
      assert KeysOf(out, keyOf)[i] == key;
      var o := out[i].(matchedKeywords := MergeKeywords(out[i].matchedKeywords, r.matchedKeywords));
      assert keyOf(o) == keyOf(out[i]);
      assert KeysOf(out[i := o], keyOf) == KeysOf(out, keyOf);
    }
  }

  /** The first row with a key stays first when a row is appended. */
  lemma FindKeyAppend(rows: seq<ListingRow>, keyOf: KeyFn, r: ListingRow, key: string)
    ensures FindKey(rows + [r], keyOf, key) ==
              if FindKey(rows, keyOf, key) < |rows| || keyOf(r) == key then FindKey(rows, keyOf, key)
              else |rows| + 1
  {
    var s := rows + [r];
    var f, g := FindKey(rows, keyOf, key), FindKey(s, keyOf, key);
    assert forall j :: 0 <= j < |rows| ==> s[j] == rows[j];
    assert s[|rows|] == r;
  }

  /** `o` is what the dedup pass keeps for its key: the first input row
      with that key, except that its keyword list starts with that row's
      keywords and holds exactly the keywords of all input rows with the
      key. */
  ghost predicate KeptRow(rows: seq<ListingRow>, keyOf: KeyFn, o: ListingRow)
  {
    var f := FindKey(rows, keyOf, keyOf(o));
    && f < |rows|
    && o.(matchedKeywords := rows[f].matchedKeywords) == rows[f]
    && |rows[f].matchedKeywords| <= |o.matchedKeywords|
    && o.matchedKeywords[..|rows[f].matchedKeywords|] == rows[f].matchedKeywords
    && forall kw :: kw in o.matchedKeywords <==>
         exists j :: 0 <= j < |rows| && keyOf(rows[j]) == keyOf(o) && kw in rows[j].matchedKeywords
  }

  /** Every row the dedup pass returns is the kept row of its key. */
  lemma {:induction false} DedupRowContent(rows: seq<ListingRow>, keyOf: KeyFn, i: nat)
    requires IgnoresKeywords(keyOf)
    requires i < |Deduplicated(rows, keyOf)|
    ensures KeptRow(rows, keyOf, Deduplicated(rows, keyOf)[i])
    decreases |rows|
  {
    var init, r := rows[..|rows| - 1], rows[|rows| - 1];
    var out := Deduplicated(init, keyOf);
    var key := keyOf(r);
    assert rows == init + [r];
    DedupKeys(init, keyOf);
    var n := FindKey(out, keyOf, key);
    if i < |out| && i != n {
      DedupRowContent(init, keyOf, i);
      assert keyOf(out[i]) != key by {
        if n < |out| {
          assert KeysOf(out, keyOf)[i] == keyOf(out[i]) && KeysOf(out, keyOf)[n] == key;
        }
      }
      KeptAppendOther(init, keyOf, r, out[i]);
    } else if i == |out| {
      assert key !in KeysOf(out, keyOf);
      KeptAppendNew(init, keyOf, r);
    } else {
      DedupRowContent(init, keyOf, n);
      KeptAppendMerge(init, keyOf, r, out[n]);
    }
  }

  /** A row with another key leaves a kept row as it is. */
  lemma KeptAppendOther(rows: seq<ListingRow>, keyOf: KeyFn, r: ListingRow, o: ListingRow)
    requires KeptRow(rows, keyOf, o) && keyOf(r) != keyOf(o)
    ensures KeptRow(rows + [r], keyOf, o)
  {
    var s := rows + [r];
    FindKeyAppend(rows, keyOf, r, keyOf(o));
    var f := FindKey(rows, keyOf, keyOf(o));
    assert s[f] == rows[f];
    forall kw ensures kw in o.matchedKeywords <==>
        exists j :: 0 <= j < |s| && keyOf(s[j]) == keyOf(o) && kw in s[j].matchedKeywords {
      if kw in o.matchedKeywords {
        var j :| 0 <= j < |rows| && keyOf(rows[j]) == keyOf(o) && kw in rows[j].matchedKeywords;
        assert s[j] == rows[j];
      }
      if exists j :: 0 <= j < |s| && keyOf(s[j]) == keyOf(o) && kw in s[j].matchedKeywords {
        var j :| 0 <= j < |s| && keyOf(s[j]) == keyOf(o) && kw in s[j].matchedKeywords;
        assert j < |rows| && rows[j] == s[j];
      }
    }
  }

  /** A row with a key not seen before is kept as it is. */
  lemma KeptAppendNew(rows: seq<ListingRow>, keyOf: KeyFn, r: ListingRow)
    requires keyOf(r) !in KeysOf(rows, keyOf)
    ensures KeptRow(rows + [r], keyOf, r)
  {
    var s := rows + [r];
    forall j | 0 <= j < |rows| ensures keyOf(s[j]) != keyOf(r) {
      assert KeysOf(rows, keyOf)[j] == keyOf(rows[j]) == keyOf(s[j]);
    }
    FindKeyAppend(rows, keyOf, r, keyOf(r));
    assert s[|rows|] == r;
  }

  /** A later row with the kept row's key adds its missing keywords. */
  lemma KeptAppendMerge(rows: seq<ListingRow>, keyOf: KeyFn, r: ListingRow, o: ListingRow)
    requires IgnoresKeywords(keyOf)
    requires KeptRow(rows, keyOf, o) && keyOf(r) == keyOf(o)
    ensures KeptRow(rows + [r], keyOf, o.(matchedKeywords := MergeKeywords(o.matchedKeywords, r.matchedKeywords)))
  {
    var s := rows + [r];
    var m := MergeKeywords(o.matchedKeywords, r.matchedKeywords);
    var o' := o.(matchedKeywords := m);
    assert keyOf(o') == keyOf(o);
    FindKeyAppend(rows, keyOf, r, keyOf(o));
    var f := FindKey(rows, keyOf, keyOf(o));
    assert s[f] == rows[f];
    var p := |rows[f].matchedKeywords|;
    assert m[..|o.matchedKeywords|][..p] == m[..p];
    forall kw ensures kw in m <==>
        exists j :: 0 <= j < |s| && keyOf(s[j]) == keyOf(o) && kw in s[j].matchedKeywords {
      if kw in o.matchedKeywords {
        var j :| 0 <= j < |rows| && keyOf(rows[j]) == keyOf(o) && kw in rows[j].matchedKeywords;
        assert s[j] == rows[j];
      } else if kw in r.matchedKeywords {
        assert s[|rows|] == r;
      }
      if exists j :: 0 <= j < |s| && keyOf(s[j]) == keyOf(o) && kw in s[j].matchedKeywords {
        var j :| 0 <= j < |s| && keyOf(s[j]) == keyOf(o) && kw in s[j].matchedKeywords;
        if j < |rows| {
          assert rows[j] == s[j];
        }
      }
    }
  }

  // serialisation

  function OptInt(v: Option<int>): Json
  {
    if v.None? then Null else Int(v.value)
  }

  function OptStr(v: Option<string>): Json
  {
    if v.None? then Null else Str(v.value)
  }

  function StrList(s: seq<string>): Json
  {
    List(seq(|s|, k requires 0 <= k < |s| => Str(s[k])))
  }

  /** The keys every payload has, and those it has only when derivable or
      truthy. */
  const FixedKeys: set<string> :=
    {"session", "number", "title", "submitter", "status", "matched_keywords", "source_listing_url"}
  const UrlKeys: set<string> :=
    {"history_url", "question_html_url", "question_pdf_url", "answer_html_url", "answer_pdf_url"}

  lemma KeySetsDisjoint()
    ensures FixedKeys !! UrlKeys
    ensures "question_id" !in FixedKeys && "question_id" !in UrlKeys
  {
  }

  function FixedPart(row: ListingRow): (p: Dict)
    ensures p.Keys == FixedKeys
  {
    map[
      "session" := OptInt(row.session),
      "number" := OptInt(row.number),
      "title" := Str(row.title),
      "submitter" := OptStr(row.submitter),
      "status" := OptStr(row.status),
      "matched_keywords" := StrList(row.matchedKeywords),
      "source_listing_url" := Str(row.sourceListingUrl)]
  }

  function IdPart(row: ListingRow): (p: Dict)
    ensures p.Keys <= {"question_id"}
  {
    match ComputeQuestionId(row.questionHtmlUrl)
    case Some(id) => map["question_id" := Str(id)]
    case None => map[]
  }

  /** The row's value for a URL key. */
  function UrlOf(row: ListingRow, key: string): Option<string>
  {
    if key == "history_url" then row.historyUrl
    else if key == "question_html_url" then row.questionHtmlUrl
    else if key == "question_pdf_url" then row.questionPdfUrl
    else if key == "answer_html_url" then row.answerHtmlUrl
    else row.answerPdfUrl
  }

  /** `if value: payload[key] = value`, for each URL key. */
  function UrlPart(row: ListingRow): (p: Dict)
    ensures p.Keys <= UrlKeys
  {
    map key | key in UrlKeys && UrlOf(row, key).Some? && UrlOf(row, key).value != "" :: Str(UrlOf(row, key).value)
  }

  /** The payload of one row in serialize_rows (the parts have disjoint
      keys, so this is the dict the tool builds). */
  function Payload(row: ListingRow): Dict
  {
    FixedPart(row) + IdPart(row) + UrlPart(row)
  }

  /** A fixed key reads its fixed value. */
  lemma PayloadFixed(row: ListingRow, key: string)
    requires key in FixedKeys
    ensures key in Payload(row) && Payload(row)[key] == FixedPart(row)[key]
  {
    KeySetsDisjoint();
    assert key !in UrlPart(row) && key !in IdPart(row);
  }

  /** The question id is there exactly when it is derivable. */
  lemma PayloadQuestionId(row: ListingRow)
    ensures "question_id" in Payload(row) <==> ComputeQuestionId(row.questionHtmlUrl).Some?
    ensures "question_id" in Payload(row) ==>
              Payload(row)["question_id"] == Str(ComputeQuestionId(row.questionHtmlUrl).value)
              && IsQuestionId(ComputeQuestionId(row.questionHtmlUrl).value)
  {
    KeySetsDisjoint();
    assert "question_id" !in UrlPart(row);
  }

  /** A URL appears exactly when it is truthy, with its value. */
  lemma PayloadUrls(row: ListingRow)
    ensures ReadUrl(Payload(row), "history_url") == Some(Drop(row.historyUrl))
    ensures ReadUrl(Payload(row), "question_html_url") == Some(Drop(row.questionHtmlUrl))
    ensures ReadUrl(Payload(row), "question_pdf_url") == Some(Drop(row.questionPdfUrl))
    ensures ReadUrl(Payload(row), "answer_html_url") == Some(Drop(row.answerHtmlUrl))
    ensures ReadUrl(Payload(row), "answer_pdf_url") == Some(Drop(row.answerPdfUrl))
  {
    PayloadUrl(row, "history_url");
    PayloadUrl(row, "question_html_url");
    PayloadUrl(row, "question_pdf_url");
    PayloadUrl(row, "answer_html_url");
    PayloadUrl(row, "answer_pdf_url");
  }

  lemma PayloadUrl(row: ListingRow, key: string)
    requires key in UrlKeys
    ensures ReadUrl(Payload(row), key) == Some(Drop(UrlOf(row, key)))
  {
    KeySetsDisjoint();
    var u := UrlPart(row);
    assert key in Payload(row) <==> key in u;
    assert key in u ==> Payload(row)[key] == u[key];
  }

  /** The fields a payload leaves out when empty, in their row form. */
  predicate OnlyIfTruthy(v: Option<string>)
  {
    v.None? || v.value != ""
  }

  /** The row with each empty URL read as missing: what a payload keeps of it. */
  function Kept(row: ListingRow): (r: ListingRow)
    ensures OnlyIfTruthy(r.historyUrl) && OnlyIfTruthy(r.questionHtmlUrl) && OnlyIfTruthy(r.questionPdfUrl)
    ensures OnlyIfTruthy(r.answerHtmlUrl) && OnlyIfTruthy(r.answerPdfUrl)
  {
    row.(historyUrl := Drop(row.historyUrl), questionHtmlUrl := Drop(row.questionHtmlUrl),
         questionPdfUrl := Drop(row.questionPdfUrl), answerHtmlUrl := Drop(row.answerHtmlUrl),
         answerPdfUrl := Drop(row.answerPdfUrl))
  }

  function Drop(v: Option<string>): Option<string>
  {
    if v == Some("") then None else v
  }

  // reading a payload back

  function ReadInt(v: Json): Option<Option<int>>
  {
    match v
    case Null => Some(None)
    case Int(n) => Some(Some(n))
    case _ => None
  }

  function ReadStr(v: Json): Option<Option<string>>
  {
    match v
    case Null => Some(None)
    case Str(s) => Some(Some(s))
    case _ => None
  }

  function ReadStrs(items: seq<Json>): Option<seq<string>>
    decreases |items|
  {
    if items == [] then Some([])
    else
      match (items[0], ReadStrs(items[1..]))
      case (Str(s), Some(rest)) => Some([s] + rest)
      case _ => None
  }

  /** A URL key a payload may omit. */
  function ReadUrl(p: Dict, key: string): Option<Option<string>>
  {
    if key !in p then Some(None)
    else match p[key]
      case Str(s) => Some(Some(s))
      case _ => None
  }

  /** The row a payload describes (the question id is derived, so not read). */
  function ReadRow(p: Dict): Option<ListingRow>
  {
    var session := ReadInt(Get(p, "session"));
    var number := ReadInt(Get(p, "number"));
    var submitter := ReadStr(Get(p, "submitter"));
    var status := ReadStr(Get(p, "status"));
    var history := ReadUrl(p, "history_url");
    var qHtml := ReadUrl(p, "question_html_url");
    var qPdf := ReadUrl(p, "question_pdf_url");
    var aHtml := ReadUrl(p, "answer_html_url");
    var aPdf := ReadUrl(p, "answer_pdf_url");
    var title, source, kws := Get(p, "title"), Get(p, "source_listing_url"), Get(p, "matched_keywords");
    if session.None? || number.None? || submitter.None? || status.None? || history.None?
       || qHtml.None? || qPdf.None? || aHtml.None? || aPdf.None? || !title.Str? || !source.Str? || !kws.List?
    then None
    else
      match ReadStrs(kws.items)
      case None => None
      case Some(keywords) =>
        Some(ListingRow(number.value, title.s, submitter.value, status.value, history.value,
                        qHtml.value, qPdf.value, aHtml.value, aPdf.value, source.s, session.value, keywords))
  }

  lemma {:induction false} ReadStrsList(s: seq<string>)
    ensures ReadStrs(StrList(s).items) == Some(s)
    decreases |s|
  {
    if s != [] {
      ReadStrsList(s[1..]);
      assert StrList(s).items[1..] == StrList(s[1..]).items;
      assert s == [s[0]] + s[1..];
    }
  }

  /** A payload holds everything of its row except the empty URLs (the
      question id is derived, so not read back). */
  lemma PayloadRoundTrip(row: ListingRow)
    ensures ReadRow(Payload(row)) == Some(Kept(row))
  {
    var p := Payload(row);
    PayloadUrls(row);
    PayloadFixedFields(row);
    ReadStrsList(row.matchedKeywords);
    ReadRowFrom(p, row);
  }

  /** The fixed keys of a payload read back as the row's fields. */
  lemma PayloadFixedFields(row: ListingRow)
    ensures var p := Payload(row);
            && Get(p, "session") == OptInt(row.session) && Get(p, "number") == OptInt(row.number)
            && Get(p, "title") == Str(row.title) && Get(p, "source_listing_url") == Str(row.sourceListingUrl)
            && Get(p, "submitter") == OptStr(row.submitter) && Get(p, "status") == OptStr(row.status)
            && Get(p, "matched_keywords") == StrList(row.matchedKeywords)
  {
    PayloadFixed(row, "session");
    PayloadFixed(row, "number");
    PayloadFixed(row, "title");
    PayloadFixed(row, "submitter");
    PayloadFixed(row, "status");
    PayloadFixed(row, "matched_keywords");
    PayloadFixed(row, "source_listing_url");
  }

  lemma ReadRowFrom(p: Dict, row: ListingRow)
    requires Get(p, "session") == OptInt(row.session) && Get(p, "number") == OptInt(row.number)
    requires Get(p, "title") == Str(row.title) && Get(p, "source_listing_url") == Str(row.sourceListingUrl)
    requires Get(p, "submitter") == OptStr(row.submitter) && Get(p, "status") == OptStr(row.status)
    requires Get(p, "matched_keywords") == StrList(row.matchedKeywords)
    requires ReadStrs(StrList(row.matchedKeywords).items) == Some(row.matchedKeywords)
    requires ReadUrl(p, "history_url") == Some(Drop(row.historyUrl))
    requires ReadUrl(p, "question_html_url") == Some(Drop(row.questionHtmlUrl))
    requires ReadUrl(p, "question_pdf_url") == Some(Drop(row.questionPdfUrl))
    requires ReadUrl(p, "answer_html_url") == Some(Drop(row.answerHtmlUrl))
    requires ReadUrl(p, "answer_pdf_url") == Some(Drop(row.answerPdfUrl))
    ensures ReadRow(p) == Some(Kept(row))
  {
  }

  // the output order

  /** The number behind `value or 0` for the integers and nulls a payload holds. */
  function NumberOf(v: Json): int
  {
    if v.Int? then v.i else 0
  }

  /** `(-(session or 0), number or 0, title or "")` */
  function SortKey(item: Dict): (int, int, string)
  {
    (-NumberOf(Or(Get(item, "session"), Int(0))),
     NumberOf(Or(Get(item, "number"), Int(0))),
     TextOf(Or(Get(item, "title"), Str(""))))
  }

  /** Python's tuple order on sort keys. */
  predicate KeyLe(a: (int, int, string), b: (int, int, string))
  {
    a.0 < b.0 || (a.0 == b.0 && (a.1 < b.1 || (a.1 == b.1 && LexLe(a.2, b.2))))
  }

  predicate PayloadLe(a: Dict, b: Dict)
  {
    KeyLe(SortKey(a), SortKey(b))
  }

  lemma PayloadLeTotalPreorder()
    ensures TotalPreorder(PayloadLe)
  {
    forall a: Dict, b: Dict ensures PayloadLe(a, b) || PayloadLe(b, a) {
      LexLeTotal(SortKey(a).2, SortKey(b).2);
    }
    forall a: Dict, b: Dict, c: Dict | PayloadLe(a, b) && PayloadLe(b, c) ensures PayloadLe(a, c) {
      var ka, kb, kc := SortKey(a), SortKey(b), SortKey(c);
      if ka.0 == kb.0 == kc.0 && ka.1 == kb.1 == kc.1 {
        LexLeTransitive(ka.2, kb.2, kc.2);
      }
    }
  }

  /** The key of a payload in row terms: a missing session or number sorts
      as 0. */
  lemma PayloadSortKey(row: ListingRow)
    ensures SortKey(Payload(row)) ==
              (-(if row.session.Some? then row.session.value else 0),
               if row.number.Some? then row.number.value else 0,
               row.title)
  {
    PayloadFixed(row, "session");
    PayloadFixed(row, "number");
    PayloadFixed(row, "title");
    SortKeyFrom(Payload(row), row);
  }

  lemma SortKeyFrom(p: Dict, row: ListingRow)
    requires Get(p, "session") == OptInt(row.session) && Get(p, "number") == OptInt(row.number)
    requires Get(p, "title") == Str(row.title)
    ensures SortKey(p) ==
              (-(if row.session.Some? then row.session.value else 0),
               if row.number.Some? then row.number.value else 0,
               row.title)
  {
  }

  function Payloads(rows: seq<ListingRow>): (ps: seq<Dict>)
    ensures |ps| == |rows|
    ensures forall k :: 0 <= k < |rows| ==> ps[k] == Payload(rows[k])
  {
    seq(|rows|, k requires 0 <= k < |rows| => Payload(rows[k]))
  }

  /** serialize_rows: the payloads, sorted stably by session descending,
      then number, then title. */
  function SerializeRows(rows: seq<ListingRow>): (r: seq<Dict>)
    ensures multiset(r) == multiset(Payloads(rows))
    ensures SortedBy(r, PayloadLe)
  {
    PayloadLeTotalPreorder();
    SortSorted(Payloads(rows), PayloadLe);
    Sort(Payloads(rows), PayloadLe)
  }

  /** Payloads with equal sort keys keep the order of their rows. */
  lemma SerializeStable(rows: seq<ListingRow>, x: Dict)
    ensures EqualKeys(SerializeRows(rows), x, PayloadLe) == EqualKeys(Payloads(rows), x, PayloadLe)
  {
    PayloadLeTotalPreorder();
    SortStable(Payloads(rows), x, PayloadLe);
  }

  /** In the output, sessions never increase; within a session numbers never
      decrease; within both, titles are in string order. */
  lemma SerializeOrder(rows: seq<ListingRow>, i: nat, j: nat)
    requires i < j < |SerializeRows(rows)|
    ensures var a, b := SortKey(SerializeRows(rows)[i]), SortKey(SerializeRows(rows)[j]);
            && -a.0 >= -b.0
            && (a.0 == b.0 ==> a.1 <= b.1)
            && (a.0 == b.0 && a.1 == b.1 ==> LexLe(a.2, b.2))
  {
  }

  /** Every output object is the payload of an input row. */
  lemma SerializeMembers(rows: seq<ListingRow>, i: nat)
    requires i < |SerializeRows(rows)|
    ensures exists k :: 0 <= k < |rows| && SerializeRows(rows)[i] == Payload(rows[k])
  {
    var r := SerializeRows(rows);
    assert r[i] in multiset(Payloads(rows));
  }
}
