/** The speech collector of parliament/tools/fetch_member_speeches.py: the
    file-name slug of a member, the filter that drops procedural records,
    the per-keyword collection loop over search results, and the grouping
    of collected speeches into meetings. The search API is not modelled:
    the loop takes the records each keyword's searches returned. */
module MemberSpeeches {
  import opened Values
  import opened Text
  import opened Lists
  import opened Sorting
  import opened SpeechHeader
  import opened OrderedDicts
  import NameSlug

  // ---------------------------------------------------------------------
  // slugify

  /** `[ch for ch in name if ch.isascii() and ch.isalnum()]` */
  function AsciiAlnums(name: string): (kept: string)
    ensures forall k :: 0 <= k < |kept| ==> IsAsciiAlnum(kept[k])
    ensures kept == [] <==> forall k :: 0 <= k < |name| ==> !IsAsciiAlnum(name[k])
    decreases |name|
  {
    if name == [] then []
    else if IsAsciiAlnum(name[0]) then [name[0]] + AsciiAlnums(name[1..])
    else
      assert forall k :: 1 <= k < |name| ==> name[k] == name[1..][k - 1];
      AsciiAlnums(name[1..])
  }

  /** slugify: the name's ASCII letters and digits, lower-cased; a name
      without any becomes "member-" and its hexadecimal code points. */
  function Slugify(name: string): (slug: string)
    ensures slug != []
  {
    var kept := AsciiAlnums(name);
    if kept != [] then LowerAscii(kept) else NameSlug.HexPrefix + HexCodepoints(name)
  }

  lemma {:induction false} AsciiAlnumsOfAlnum(s: string)
    requires forall k :: 0 <= k < |s| ==> IsAsciiAlnum(s[k])
    ensures AsciiAlnums(s) == s
    decreases |s|
  {
    if s != [] {
      AsciiAlnumsOfAlnum(s[1..]);
      assert s == [s[0]] + s[1..];
    }
  }

  /** ASCII path: the slug is lower-case letters and digits only, and
      slugifying it again changes nothing. */
  lemma SlugifyAscii(name: string)
    requires AsciiAlnums(name) != []
    ensures var slug := Slugify(name);
            && (forall k :: 0 <= k < |slug| ==> IsLowerAlnum(slug[k]))
            && Slugify(slug) == slug
  {
    var kept := AsciiAlnums(name);
    var slug := LowerAscii(kept);
    forall k | 0 <= k < |slug| ensures IsLowerAlnum(slug[k]) {
      assert IsAsciiAlnum(kept[k]);
    }
    AsciiAlnumsOfAlnum(slug);
    assert LowerAscii(slug) == slug;
  }

  /** Hex path: the slug is "member-" and one hexadecimal part per
      character, which reads back as that character's code point. */
  lemma SlugifyHex(name: string)
    requires AsciiAlnums(name) == [] && name != []
    ensures var slug := Slugify(name);
            && StartsWith(slug, NameSlug.HexPrefix)
            && var parts := SplitOn(slug[|NameSlug.HexPrefix|..], '-');
               |parts| == |name| && forall k :: 0 <= k < |name| ==> ParseHex(parts[k]) == name[k] as int
  {
    var slug := Slugify(name);
    assert slug[|NameSlug.HexPrefix|..] == HexCodepoints(name);
    HexCodepointsReversible(name);
  }

  // ---------------------------------------------------------------------
  // should_skip_record

  /** The words that mark a chair or a minister. */
  const ChairWords: seq<string> := ["委員長", "議長", "大臣"]

  /** The speaker's position, stripped, names a chair or a minister. */
  predicate SkippedByPosition(record: Dict)
  {
    var position := Strip(StrField(record, "speakerPosition"));
    position != "" && MentionsAny(position, ChairWords)
  }

  /** The speech opens with a speaker mark whose raw header names a chair
      or a minister. */
  predicate SkippedByHead(record: Dict)
  {
    var head := HeadOf(StrField(record, "speech"));
    head.Some? && MentionsAny(head.value, ChairWords)
  }

  /** should_skip_record */
  predicate ShouldSkipRecord(record: Dict)
  {
    SkippedByPosition(record) || SkippedByHead(record)
  }

  lemma ChairWordsSpaceless()
    ensures forall k :: 0 <= k < |ChairWords| ==> ChairWords[k] != [] && NoSpace(ChairWords[k])
  {
    assert NoSpace("委員長") && NoSpace("議長") && NoSpace("大臣");
  }

  /** Stripping does not change which words a text mentions. */
  lemma MentionsAnyStripped(s: string)
    ensures MentionsAny(Strip(s), ChairWords) <==> MentionsAny(s, ChairWords)
  {
    ChairWordsSpaceless();
    forall k | 0 <= k < |ChairWords| ensures Contains(Strip(s), ChairWords[k]) <==> Contains(s, ChairWords[k]) {
      StripKeepsWords(s, ChairWords[k]);
    }
  }

  /** The position test reads the same with or without its strip, and the
      head test is the same as a test on the header the minister tools
      extract (which is stripped as well). */
  lemma SkipRulesUnstripped(record: Dict)
    ensures SkippedByPosition(record) <==> MentionsAny(StrField(record, "speakerPosition"), ChairWords)
    ensures var header := ExtractHeader(StrField(record, "speech"));
            SkippedByHead(record) <==> header.Some? && MentionsAny(header.value, ChairWords)
  {
    var position := StrField(record, "speakerPosition");
    MentionsAnyStripped(position);
    if Strip(position) == "" {
      NothingMentioned(Strip(position));
    }
    var head := HeadOf(StrField(record, "speech"));
    if head.Some? {
      MentionsAnyStripped(head.value);
    }
  }

  lemma ChairMention(s: string)
    ensures MentionsAny(s, ChairWords) <==> Contains(s, "委員長") || Contains(s, "議長") || Contains(s, "大臣")
  {
    if Contains(s, "委員長") { assert Contains(s, ChairWords[0]); }
    if Contains(s, "議長") { assert Contains(s, ChairWords[1]); }
    if Contains(s, "大臣") { assert Contains(s, ChairWords[2]); }
  }

  lemma NothingMentioned(s: string)
    requires s == ""
    ensures !MentionsAny(s, ChairWords)
  {
    forall k | 0 <= k < |ChairWords| ensures !Contains(s, ChairWords[k]) {
      assert ChairWords[k] != [];
    }
  }

  /** A record the collector keeps has no "大臣" in its header, so of the
      minister tools' roles only "政務官" and "長官" can still flag it. */
  lemma KeptRecordRoles(record: Dict)
    requires !ShouldSkipRecord(record)
    ensures var header := ExtractHeader(StrField(record, "speech"));
            IsMinisterial(header) ==>
              !Contains(header.value, "大臣") &&
              (Contains(header.value, "政務官") || Contains(header.value, "長官"))
  {
    var header := ExtractHeader(StrField(record, "speech"));
    SkipRulesUnstripped(record);
    MinisterialRoles(header);
    if header.Some? {
      ChairMention(header.value);
    }
  }

  // ---------------------------------------------------------------------
  // The collection loop of fetch_member_speeches

  /** The record survives the three filters of the loop: not a plenary
      sitting, not procedural, and carrying a speech id. */
  predicate Accepted(record: Dict)
  {
    Get(record, "nameOfMeeting") != Str("本会議") && !ShouldSkipRecord(record) && Truthy(Get(record, "speechID"))
  }

  /** The collection spec below is stated for any record filter, and the
      loop uses `Accepted`. */
  type Filter = Dict -> bool

  function SpeechId(record: Dict): Json
  {
    Get(record, "speechID")
  }

  /** The records the filter keeps, in order. */
  function AcceptedOf(records: seq<Dict>, keep: Filter): (acc: seq<Dict>)
    ensures |acc| <= |records|
    ensures forall k :: 0 <= k < |acc| ==> keep(acc[k])
    ensures forall r :: r in acc <==> r in records && keep(r)
    decreases |records|
  {
    if records == [] then []
    else
      var init := AcceptedOf(records[..|records| - 1], keep);
      var last := records[|records| - 1];
      assert records == records[..|records| - 1] + [last];
      if keep(last) then init + [last] else init
  }

  lemma {:induction false} AcceptedOfAppend(a: seq<Dict>, b: seq<Dict>, keep: Filter)
    ensures AcceptedOf(a + b, keep) == AcceptedOf(a, keep) + AcceptedOf(b, keep)
    decreases |b|
  {
    if b != [] {
      var b' := b[..|b| - 1];
      AcceptedOfAppend(a, b', keep);
      assert (a + b)[..|a + b| - 1] == a + b';
    } else {
      assert a + b == a;
    }
  }

  function Flatten(batches: seq<seq<Dict>>): seq<Dict>
    decreases |batches|
  {
    if batches == [] then [] else Flatten(batches[..|batches| - 1]) + batches[|batches| - 1]
  }

  lemma FlattenAppend(batches: seq<seq<Dict>>, batch: seq<Dict>)
    ensures Flatten(batches + [batch]) == Flatten(batches) + batch
  {
    assert (batches + [batch])[..|batches|] == batches;
  }

  function IdsOf(records: seq<Dict>): (ids: seq<Json>)
    ensures |ids| == |records|
    ensures forall k :: 0 <= k < |records| ==> ids[k] == SpeechId(records[k])
  {
    seq(|records|, k requires 0 <= k < |records| => SpeechId(records[k]))
  }

  lemma IdsOfAppend(init: seq<Dict>, last: Dict)
    ensures IdsOf(init + [last]) == IdsOf(init) + [SpeechId(last)]
  {
  }

  /** The last record with the given id: later records overwrite earlier
      ones in the collector's dictionary. */
  function LastWith(id: Json, records: seq<Dict>): Dict
    decreases |records|
  {
    if records == [] then map[]
    else
      var last := records[|records| - 1];
      if SpeechId(last) == id then last else LastWith(id, records[..|records| - 1])
  }

  /** For an id that occurs, `LastWith` is the record at its last
      occurrence. */
  lemma {:induction false} LastWithIsLast(id: Json, records: seq<Dict>)
    requires id in IdsOf(records)
    ensures exists i :: 0 <= i < |records| && records[i] == LastWith(id, records) && SpeechId(records[i]) == id &&
              forall j :: i < j < |records| ==> SpeechId(records[j]) != id
    decreases |records|
  {
    var n := |records| - 1;
    if SpeechId(records[n]) != id {
      var init := records[..n];
      assert records == init + [records[n]];
      IdsOfAppend(init, records[n]);
      LastWithIsLast(id, init);
      var i :| 0 <= i < |init| && init[i] == LastWith(id, init) && SpeechId(init[i]) == id &&
                forall j :: i < j < |init| ==> SpeechId(init[j]) != id;
      assert records[i] == init[i];
    }
  }

  /** The collector's dictionary after the kept records `acc`:
      `speeches[speech_id] = record` for each in turn. */
  function Store(acc: seq<Dict>): (d: ODict<Json, Dict>)
    ensures WellFormed(d)
    decreases |acc|
  {
    if acc == [] then Empty()
    else
      var last := acc[|acc| - 1];
      Put(Store(acc[..|acc| - 1]), SpeechId(last), last)
  }

  /** `list(speeches.values())` after the loop. */
  function Collected(records: seq<Dict>, keep: Filter): seq<Dict>
  {
    ValuesOf(Store(AcceptedOf(records, keep)))
  }

  function Counts(batches: seq<seq<Dict>>, keep: Filter): (counts: seq<nat>)
    ensures |counts| == |batches|
    ensures forall k :: 0 <= k < |batches| ==> counts[k] == |AcceptedOf(batches[k], keep)|
  {
    seq(|batches|, k requires 0 <= k < |batches| => |AcceptedOf(batches[k], keep)|)
  }

  /** The collection loop. `batches[k]` holds the records the searches for
      the k-th keyword returned, over all speaker names, in search order. */
  method CollectSpeeches(batches: seq<seq<Dict>>) returns (speeches: seq<Dict>, counts: seq<nat>)
    ensures speeches == Collected(Flatten(batches), Accepted)
    ensures counts == Counts(batches, Accepted)
  {
    var store: ODict<Json, Dict> := Empty();
    counts := [];
    ghost var done: seq<Dict> := [];
    ghost var acc: seq<Dict> := [];
    assert batches[..0] == [];
    for k := 0 to |batches|
      invariant done == Flatten(batches[..k])
      invariant acc == AcceptedOf(done, Accepted)
      invariant store == Store(acc)
      invariant counts == Counts(batches[..k], Accepted)
    {
      var batch := batches[k];
      var count := 0;
      assert done + batch[..0] == done;
      for j := 0 to |batch|
        invariant acc == AcceptedOf(done + batch[..j], Accepted)
        invariant store == Store(acc)
        invariant count == |AcceptedOf(batch[..j], Accepted)|
      {
        var record := batch[j];
        CollectStep(done, batch, j, Accepted);
        if Accepted(record) {
          assert (acc + [record])[..|acc|] == acc;
          store := Put(store, SpeechId(record), record);
          count := count + 1;
          acc := acc + [record];
        }
      }
      assert batch[..|batch|] == batch;
      assert batches[..k + 1] == batches[..k] + [batch];
      FlattenAppend(batches[..k], batch);
      CountsAppend(batches[..k], batch, Accepted);
      done := done + batch;
      counts := counts + [count];
    }
    assert batches[..|batches|] == batches;
    speeches := ValuesOf(store);
  }

  /** One record further into a batch: the kept records overall and in
      the batch grow by the record exactly when the filter keeps it. */
  lemma CollectStep(done: seq<Dict>, batch: seq<Dict>, j: nat, keep: Filter)
    requires j < |batch|
    ensures var record := batch[j];
            && AcceptedOf(done + batch[..j + 1], keep) ==
               AcceptedOf(done + batch[..j], keep) + (if keep(record) then [record] else [])
            && |AcceptedOf(batch[..j + 1], keep)| == |AcceptedOf(batch[..j], keep)| + (if keep(record) then 1 else 0)
  {
    var record := batch[j];
    assert batch[..j + 1] == batch[..j] + [record];
    assert done + batch[..j + 1] == (done + batch[..j]) + [record];
    AcceptedOfStep(done + batch[..j], record, keep);
    AcceptedOfStep(batch[..j], record, keep);
  }

  lemma AcceptedOfStep(records: seq<Dict>, record: Dict, keep: Filter)
    ensures AcceptedOf(records + [record], keep) ==
            if keep(record) then AcceptedOf(records, keep) + [record] else AcceptedOf(records, keep)
  {
    assert (records + [record])[..|records|] == records;
  }

  lemma CountsAppend(batches: seq<seq<Dict>>, batch: seq<Dict>, keep: Filter)
    ensures Counts(batches + [batch], keep) == Counts(batches, keep) + [|AcceptedOf(batch, keep)|]
  {
  }

  /** The dictionary keys are the ids in first-seen order, and each id maps
      to its last record. */
  lemma StoreContents(acc: seq<Dict>)
    ensures Store(acc).keys == Dedup(IdsOf(acc))
    ensures forall id :: id in Store(acc).entries ==> Store(acc).entries[id] == LastWith(id, acc)
  {
    StoreKeys(acc);
    StoreEntries(acc);
  }

  lemma {:induction false} StoreKeys(acc: seq<Dict>)
    ensures Store(acc).keys == Dedup(IdsOf(acc))
    decreases |acc|
  {
    if acc != [] {
      var init := acc[..|acc| - 1];
      var last := acc[|acc| - 1];
      StoreKeys(init);
      assert acc == init + [last];
      IdsOfAppend(init, last);
      StoreKeysStep(Store(init), IdsOf(init), SpeechId(last), last);
    }
  }

  /** A new id goes last in the key order; a repeated one keeps its place. */
  lemma StoreKeysStep(d: ODict<Json, Dict>, ids: seq<Json>, id: Json, record: Dict)
    requires WellFormed(d) && d.keys == Dedup(ids)
    ensures Put(d, id, record).keys == Dedup(ids + [id])
  {
    DedupAppend(ids, id);
    assert id in d.entries <==> id in ids;
  }

  lemma {:induction false} StoreEntries(acc: seq<Dict>)
    ensures forall id :: id in Store(acc).entries ==> Store(acc).entries[id] == LastWith(id, acc)
    decreases |acc|
  {
    if acc != [] {
      var init := acc[..|acc| - 1];
      var last := acc[|acc| - 1];
      StoreEntries(init);
      assert acc == init + [last];
      StoreEntriesStep(Store(init), init, last);
    }
  }

  /** One assignment `speeches[id] = record` keeps every entry the last
      record with its id. */
  lemma StoreEntriesStep(d: ODict<Json, Dict>, init: seq<Dict>, last: Dict)
    requires forall id :: id in d.entries ==> d.entries[id] == LastWith(id, init)
    ensures var r := Put(d, SpeechId(last), last);
            forall id :: id in r.entries ==> r.entries[id] == LastWith(id, init + [last])
  {
    assert (init + [last])[..|init + [last]| - 1] == init;
  }

  /** The collected records carry the kept ids once each, in first-seen
      order; each is a kept input record, and it is the last kept record
      with its id. */
  lemma CollectedSpec(records: seq<Dict>, keep: Filter)
    ensures var acc := AcceptedOf(records, keep);
            var out := Collected(records, keep);
            && IdsOf(out) == Dedup(IdsOf(acc))
            && NoDuplicates(IdsOf(out))
            && (forall k :: 0 <= k < |out| ==> out[k] in records && keep(out[k]))
            && (forall k :: 0 <= k < |out| ==>
                  exists i :: 0 <= i < |acc| && acc[i] == out[k] &&
                    forall j :: i < j < |acc| ==> SpeechId(acc[j]) != SpeechId(out[k]))
  {
    var acc := AcceptedOf(records, keep);
    StoredValues(acc);
    var out := ValuesOf(Store(acc));
    forall k | 0 <= k < |out| ensures out[k] in records && keep(out[k]) {
      var i :| 0 <= i < |acc| && acc[i] == out[k] &&
                forall j :: i < j < |acc| ==> SpeechId(acc[j]) != SpeechId(out[k]);
      assert acc[i] in acc;
    }
  }

  /** The values of the collector's dictionary after `acc`: the ids once
      each in first-seen order, each the last record of `acc` with its id. */
  lemma StoredValues(acc: seq<Dict>)
    ensures var out := ValuesOf(Store(acc));
            && IdsOf(out) == Dedup(IdsOf(acc))
            && NoDuplicates(IdsOf(out))
            && (forall k :: 0 <= k < |out| ==>
                  exists i :: 0 <= i < |acc| && acc[i] == out[k] &&
                    forall j :: i < j < |acc| ==> SpeechId(acc[j]) != SpeechId(out[k]))
  {
    var ids := Dedup(IdsOf(acc));
    var out := ValuesOf(Store(acc));
    StoreContents(acc);
    forall k | 0 <= k < |out|
      ensures SpeechId(out[k]) == ids[k]
      ensures exists i :: 0 <= i < |acc| && acc[i] == out[k] &&
                forall j :: i < j < |acc| ==> SpeechId(acc[j]) != SpeechId(out[k])
    {
      assert ids[k] in ids;
      LastWithIsLast(ids[k], acc);
    }
  }

  function Sum(counts: seq<nat>): nat
    decreases |counts|
  {
    if counts == [] then 0 else Sum(counts[..|counts| - 1]) + counts[|counts| - 1]
  }

  /** The per-keyword counts add up to every kept record, repeats
      included. */
  lemma {:induction false} CountsTotal(batches: seq<seq<Dict>>, keep: Filter)
    ensures Sum(Counts(batches, keep)) == |AcceptedOf(Flatten(batches), keep)|
    decreases |batches|
  {
    if batches != [] {
      var init := batches[..|batches| - 1];
      var last := batches[|batches| - 1];
      CountsTotal(init, keep);
      AcceptedOfAppend(Flatten(init), last, keep);
      var c := Counts(batches, keep);
      assert c[..|init|] == Counts(init, keep);
      assert Sum(c) == Sum(Counts(init, keep)) + c[|init|];
    }
  }

  /** So the counts bound the number of distinct speeches collected. */
  lemma CollectedAtMostCounts(batches: seq<seq<Dict>>, keep: Filter)
    ensures |Collected(Flatten(batches), keep)| <= Sum(Counts(batches, keep))
  {
    CountsTotal(batches, keep);
    StoreContents(AcceptedOf(Flatten(batches), keep));
  }
  // ---------------------------------------------------------------------
  // group_by_meeting

  /** `f"{value}"` for the scalar JSON values a record holds. */
  function Show(v: Json): string
  {
    match v
    case Null => "None"
    case Bool(b) => if b then "True" else "False"
    case Int(i) => Decimal(i)
    case Str(s) => s
    case List(_) => ""
    case Obj(_) => ""
  }

  /** The meeting a speech belongs to: its issue id when that is set, else
      "<date>_<name of meeting>". */
  function MeetingKey(speech: Dict): Json
  {
    var issue := Get(speech, "issueID");
    if Truthy(issue) then issue else Str(Show(Get(speech, "date")) + "_" + Show(Get(speech, "nameOfMeeting")))
  }

  const MeetingFields: set<string> := {"issueID", "date", "nameOfMeeting", "issue", "session"}
  const SpeechFields: set<string> := {"speechID", "speechOrder", "speaker", "speech", "speechURL"}

  /** The meeting record a speech opens: the speech's meeting fields, absent
      ones as null, and no speeches yet. */
  function NewMeeting(speech: Dict): Dict
  {
    (map k | k in MeetingFields :: Get(speech, k))["speeches" := List([])]
  }

  /** The speech as a meeting stores it: the five speech fields, absent
      ones as null. */
  function Project(speech: Dict): Dict
  {
    map k | k in SpeechFields :: Get(speech, k)
  }

  function SpeechesIn(meeting: Dict): seq<Json>
  {
    var v := Get(meeting, "speeches");
    if v.List? then v.items else []
  }

  /** `meeting["speeches"].append(...)` */
  function AddSpeech(meeting: Dict, speech: Dict): Dict
  {
    meeting["speeches" := List(SpeechesIn(meeting) + [Obj(Project(speech))])]
  }

  /** One pass of the first loop: `setdefault` the speech's meeting, then
      append the speech to it. */
  function GroupStep(groups: ODict<Json, Dict>, speech: Dict): ODict<Json, Dict>
  {
    var key := MeetingKey(speech);
    var d := SetDefault(groups, key, NewMeeting(speech));
    Put(d, key, AddSpeech(d.entries[key], speech))
  }

  /** The meetings dictionary after the first loop has seen `speeches`. */
  function Meetings(speeches: seq<Dict>): (d: ODict<Json, Dict>)
    ensures WellFormed(d)
    decreases |speeches|
  {
    if speeches == [] then Empty()
    else GroupStep(Meetings(speeches[..|speeches| - 1]), speeches[|speeches| - 1])
  }

  /** `s.get("speechOrder") or 0` for a stored speech; a non-integer order
      counts as 0. */
  function OrderOf(speech: Json): int
  {
    var v := if speech.Obj? then Or(Get(speech.fields, "speechOrder"), Int(0)) else Int(0);
    if v.Int? then v.i else 0
  }

  predicate OrderLe(a: Json, b: Json)
  {
    OrderOf(a) <= OrderOf(b)
  }

  /** `meeting["speeches"].sort(key=...)` */
  function SortSpeeches(meeting: Dict): Dict
  {
    meeting["speeches" := List(Sort(SpeechesIn(meeting), OrderLe))]
  }

  /** `m.get("date") or ""` */
  function DateOf(meeting: Dict): string
  {
    StrField(meeting, "date")
  }

  /** `reverse=True` on the date: `a` may come before `b` when its date is
      not earlier. */
  predicate LaterOrSame(a: Dict, b: Dict)
  {
    LexLe(DateOf(b), DateOf(a))
  }

  /** group_by_meeting's result. */
  function Grouped(speeches: seq<Dict>): seq<Dict>
  {
    Sort(SortEach(ValuesOf(Meetings(speeches))), LaterOrSame)
  }

  /** Every meeting with its speeches sorted. */
  function SortEach(meetings: seq<Dict>): (r: seq<Dict>)
    ensures |r| == |meetings|
    decreases |meetings|
  {
    if meetings == [] then []
    else SortEach(meetings[..|meetings| - 1]) + [SortSpeeches(meetings[|meetings| - 1])]
  }

  /** The second loop of group_by_meeting: each meeting's speeches sorted
      by their order. */
  method SortEachMeeting(values: seq<Dict>) returns (sorted: seq<Dict>)
    ensures sorted == SortEach(values)
  {
    sorted := [];
    assert values[..0] == [];
    for i := 0 to |values|
      invariant sorted == SortEach(values[..i])
    {
      assert values[..i + 1][..i] == values[..i];
      sorted := sorted + [SortSpeeches(values[i])];
    }
    assert values[..|values|] == values;
  }

  /** group_by_meeting: the speeches grouped by meeting, each meeting's
      speeches in order, the meetings latest first. */
  method GroupByMeeting(speeches: seq<Dict>) returns (meetings: seq<Dict>)
    ensures meetings == Grouped(speeches)
  {
    var groups: ODict<Json, Dict> := Empty();
    assert speeches[..0] == [];
    for k := 0 to |speeches|
      invariant groups == Meetings(speeches[..k])
    {
      var speech := speeches[k];
      assert speeches[..k + 1][..k] == speeches[..k];
      var key := MeetingKey(speech);
      groups := SetDefault(groups, key, NewMeeting(speech));
      groups := Put(groups, key, AddSpeech(groups.entries[key], speech));
    }
    assert speeches[..|speeches|] == speeches;
    var sorted := SortEachMeeting(ValuesOf(groups));
    meetings := Sort(sorted, LaterOrSame);
  }

  // What the grouping keeps

  function KeysOf(speeches: seq<Dict>): (keys: seq<Json>)
    ensures |keys| == |speeches|
    ensures forall i :: 0 <= i < |speeches| ==> keys[i] == MeetingKey(speeches[i])
  {
    seq(|speeches|, i requires 0 <= i < |speeches| => MeetingKey(speeches[i]))
  }

  /** The stored form of the speeches of one meeting, in input order. */
  function Members(key: Json, speeches: seq<Dict>): seq<Json>
    decreases |speeches|
  {
    if speeches == [] then []
    else
      var last := speeches[|speeches| - 1];
      Members(key, speeches[..|speeches| - 1]) + (if MeetingKey(last) == key then [Obj(Project(last))] else [])
  }

  /** The first speech of a meeting. */
  function FirstWith(key: Json, speeches: seq<Dict>): Dict
    decreases |speeches|
  {
    if speeches == [] then map[]
    else
      var init := speeches[..|speeches| - 1];
      if key in KeysOf(init) then FirstWith(key, init) else speeches[|speeches| - 1]
  }

  /** The meeting record for `key`: the meeting fields of its first speech
      and its speeches in input order. */
  function MeetingOf(key: Json, speeches: seq<Dict>): Dict
  {
    NewMeeting(FirstWith(key, speeches))["speeches" := List(Members(key, speeches))]
  }

  lemma KeysOfAppend(speeches: seq<Dict>, x: Dict)
    ensures KeysOf(speeches + [x]) == KeysOf(speeches) + [MeetingKey(x)]
  {
  }

  lemma {:induction false} MembersAbsent(key: Json, speeches: seq<Dict>)
    requires key !in KeysOf(speeches)
    ensures Members(key, speeches) == []
    decreases |speeches|
  {
    if speeches != [] {
      var init := speeches[..|speeches| - 1];
      KeysOfAppend(init, speeches[|speeches| - 1]);
      assert speeches == init + [speeches[|speeches| - 1]];
      MembersAbsent(key, init);
    }
  }

  /** The meetings are keyed in the order their keys first occur. */
  lemma {:induction false} MeetingsKeys(speeches: seq<Dict>)
    ensures Meetings(speeches).keys == Dedup(KeysOf(speeches))
    decreases |speeches|
  {
    if speeches != [] {
      var init := speeches[..|speeches| - 1];
      var last := speeches[|speeches| - 1];
      MeetingsKeys(init);
      assert speeches == init + [last];
      KeysOfAppend(init, last);
      DedupAppend(KeysOf(init), MeetingKey(last));
    }
  }

  /** Each meeting holds the meeting fields of its first speech and all its
      speeches, in input order. */
  lemma {:induction false} MeetingAt(speeches: seq<Dict>, key: Json)
    requires key in KeysOf(speeches)
    ensures key in Meetings(speeches).entries
    ensures Meetings(speeches).entries[key] == MeetingOf(key, speeches)
    decreases |speeches|
  {
    var init := speeches[..|speeches| - 1];
    var last := speeches[|speeches| - 1];
    assert speeches == init + [last];
    KeysOfAppend(init, last);
    MeetingsKeys(init);
    if key in KeysOf(init) {
      MeetingAt(init, key);
    }
    if MeetingKey(last) == key {
      MeetingAtLast(init, last);
    } else {
      MeetingAtOther(init, last, key);
    }
  }

  /** A speech of another meeting leaves this one as it was. */
  lemma MeetingAtOther(init: seq<Dict>, last: Dict, key: Json)
    requires key != MeetingKey(last) && key in KeysOf(init)
    requires key in Meetings(init).entries && Meetings(init).entries[key] == MeetingOf(key, init)
    ensures key in Meetings(init + [last]).entries
    ensures Meetings(init + [last]).entries[key] == MeetingOf(key, init + [last])
  {
    MeetingsStep(init, last);
    GroupStepOther(Meetings(init), last, key);
    MembersStep(key, init, last);
    FirstWithStep(key, init, last);
  }

  lemma GroupStepOther(groups: ODict<Json, Dict>, speech: Dict, key: Json)
    requires key != MeetingKey(speech) && key in groups.entries
    ensures key in GroupStep(groups, speech).entries
    ensures GroupStep(groups, speech).entries[key] == groups.entries[key]
  {
  }

  lemma MeetingAtLast(init: seq<Dict>, last: Dict)
    requires MeetingKey(last) in Meetings(init).entries <==> MeetingKey(last) in KeysOf(init)
    requires MeetingKey(last) in KeysOf(init) ==>
               MeetingKey(last) in Meetings(init).entries &&
               Meetings(init).entries[MeetingKey(last)] == MeetingOf(MeetingKey(last), init)
    ensures Meetings(init + [last]).entries[MeetingKey(last)] == MeetingOf(MeetingKey(last), init + [last])
  {
    var key := MeetingKey(last);
    var d0 := Meetings(init);
    MembersStep(key, init, last);
    var m := if key in d0.entries then d0.entries[key] else NewMeeting(last);
    MeetingBefore(d0, key, init, last);
    AddToMeeting(m, FirstWith(key, init + [last]), Members(key, init), last);
    MeetingsStep(init, last);
    GroupStepAt(d0, last);
  }

  /** The meeting the speech joins: the one already open for its key, or a
      new one from the speech itself, which is then the meeting's first. */
  lemma MeetingBefore(d0: ODict<Json, Dict>, key: Json, init: seq<Dict>, last: Dict)
    requires key == MeetingKey(last)
    requires key in d0.entries <==> key in KeysOf(init)
    requires key in KeysOf(init) ==> key in d0.entries && d0.entries[key] == MeetingOf(key, init)
    ensures (if key in d0.entries then d0.entries[key] else NewMeeting(last)) ==
            NewMeeting(FirstWith(key, init + [last]))["speeches" := List(Members(key, init))]
  {
    FirstWithStep(key, init, last);
    if key !in KeysOf(init) {
      MembersAbsent(key, init);
    }
  }

  lemma MeetingsStep(init: seq<Dict>, last: Dict)
    ensures Meetings(init + [last]) == GroupStep(Meetings(init), last)
  {
    assert (init + [last])[..|init|] == init;
  }

  lemma MembersStep(key: Json, init: seq<Dict>, last: Dict)
    ensures MeetingKey(last) == key ==> Members(key, init + [last]) == Members(key, init) + [Obj(Project(last))]
    ensures MeetingKey(last) != key ==> Members(key, init + [last]) == Members(key, init)
  {
    assert (init + [last])[..|init|] == init;
  }

  lemma FirstWithStep(key: Json, init: seq<Dict>, last: Dict)
    ensures FirstWith(key, init + [last]) == if key in KeysOf(init) then FirstWith(key, init) else last
  {
    assert (init + [last])[..|init|] == init;
  }

  lemma AddToMeeting(m: Dict, first: Dict, members: seq<Json>, speech: Dict)
    requires m == NewMeeting(first)["speeches" := List(members)]
    ensures AddSpeech(m, speech) == NewMeeting(first)["speeches" := List(members + [Obj(Project(speech))])]
  {
    assert SpeechesIn(m) == members;
  }

  /** The speech joins its meeting, which `setdefault` opens first when it
      is new. */
  lemma GroupStepAt(groups: ODict<Json, Dict>, speech: Dict)
    ensures var key := MeetingKey(speech);
            var m := if key in groups.entries then groups.entries[key] else NewMeeting(speech);
            GroupStep(groups, speech).entries[key] == AddSpeech(m, speech)
  {
  }

  /** The meeting of a key opens with the first speech that has the key. */
  lemma {:induction false} FirstWithIsFirst(key: Json, speeches: seq<Dict>)
    requires key in KeysOf(speeches)
    ensures exists i: nat :: i < |speeches| && speeches[i] == FirstWith(key, speeches) && MeetingKey(speeches[i]) == key &&
              forall j :: 0 <= j < i ==> MeetingKey(speeches[j]) != key
    decreases |speeches|
  {
    var n := |speeches| - 1;
    var init := speeches[..n];
    KeysOfAppend(init, speeches[n]);
    assert speeches == init + [speeches[n]];
    FirstWithStep(key, init, speeches[n]);
    if key in KeysOf(init) {
      FirstWithIsFirst(key, init);
      var i: nat :| i < |init| && init[i] == FirstWith(key, init) && MeetingKey(init[i]) == key &&
                    forall j :: 0 <= j < i ==> MeetingKey(init[j]) != key;
      assert speeches[i] == init[i];
    } else {
      forall j | 0 <= j < n ensures MeetingKey(speeches[j]) != key {
        assert KeysOf(init)[j] == MeetingKey(speeches[j]);
      }
    }
  }

  /** The number of speeches a meeting holds. */
  function SpeechCount(meeting: Dict): nat
  {
    |SpeechesIn(meeting)|
  }

  /** One pass of the first loop adds exactly one speech over all meetings. */
  lemma GroupStepTotal(groups: ODict<Json, Dict>, speech: Dict)
    requires WellFormed(groups)
    ensures SumBy(ValuesOf(GroupStep(groups, speech)), SpeechCount) == SumBy(ValuesOf(groups), SpeechCount) + 1
  {
    var key := MeetingKey(speech);
    var d := SetDefault(groups, key, NewMeeting(speech));
    if key !in groups.entries {
      ValuesPut(groups, key, NewMeeting(speech));
      SumByAppend(ValuesOf(groups), [NewMeeting(speech)], SpeechCount);
      assert SpeechCount(NewMeeting(speech)) == 0;
    }
    AddToPresent(d, key, speech);
  }

  /** Appending a speech to a present meeting adds one speech overall. */
  lemma AddToPresent(d: ODict<Json, Dict>, key: Json, speech: Dict)
    requires WellFormed(d) && key in d.entries
    ensures SumBy(ValuesOf(Put(d, key, AddSpeech(d.entries[key], speech))), SpeechCount) == SumBy(ValuesOf(d), SpeechCount) + 1
  {
    var m := d.entries[key];
    var added := AddSpeech(m, speech);
    assert SpeechCount(added) == SpeechCount(m) + 1;
    var i: nat :| i < |d.keys| && d.keys[i] == key;
    ValuesPut(d, key, added);
    SumByUpdate(ValuesOf(d), i, added, SpeechCount);
  }

  /** Every speech lands in exactly one meeting: the meetings hold as many
      speeches as the input. */
  lemma {:induction false} MeetingsTotal(speeches: seq<Dict>)
    ensures SumBy(ValuesOf(Meetings(speeches)), SpeechCount) == |speeches|
    decreases |speeches|
  {
    if speeches != [] {
      var init := speeches[..|speeches| - 1];
      MeetingsTotal(init);
      GroupStepTotal(Meetings(init), speeches[|speeches| - 1]);
    }
  }

  lemma OrderLeTotalPreorder()
    ensures TotalPreorder(OrderLe)
  {
  }

  lemma LaterOrSameTotalPreorder()
    ensures TotalPreorder(LaterOrSame)
  {
    forall a: Dict, b: Dict ensures LaterOrSame(a, b) || LaterOrSame(b, a) {
      LexLeTotal(DateOf(a), DateOf(b));
    }
    forall a: Dict, b: Dict, c: Dict | LaterOrSame(a, b) && LaterOrSame(b, c) ensures LaterOrSame(a, c) {
      LexLeTransitive(DateOf(c), DateOf(b), DateOf(a));
    }
  }

  /** Sorting a meeting's speeches puts them in order of `speechOrder`,
      keeps them all, and keeps speeches of equal order in input order. */
  lemma SortSpeechesSpec(meeting: Dict)
    ensures SortedBy(SpeechesIn(SortSpeeches(meeting)), OrderLe)
    ensures multiset(SpeechesIn(SortSpeeches(meeting))) == multiset(SpeechesIn(meeting))
    ensures SpeechCount(SortSpeeches(meeting)) == SpeechCount(meeting)
    ensures forall x :: EqualKeys(SpeechesIn(SortSpeeches(meeting)), x, OrderLe) == EqualKeys(SpeechesIn(meeting), x, OrderLe)
    ensures forall k :: k != "speeches" ==> Get(SortSpeeches(meeting), k) == Get(meeting, k)
  {
    var speeches := SpeechesIn(meeting);
    assert SpeechesIn(SortSpeeches(meeting)) == Sort(speeches, OrderLe);
    OrderLeTotalPreorder();
    SortSorted(speeches, OrderLe);
    forall x ensures EqualKeys(Sort(speeches, OrderLe), x, OrderLe) == EqualKeys(speeches, x, OrderLe) {
      SortStable(speeches, x, OrderLe);
    }
    assert |multiset(Sort(speeches, OrderLe))| == |multiset(speeches)|;
  }

  lemma {:induction false} SortEachSpec(meetings: seq<Dict>)
    ensures forall m :: m in SortEach(meetings) ==> SortedBy(SpeechesIn(m), OrderLe)
    ensures SumBy(SortEach(meetings), SpeechCount) == SumBy(meetings, SpeechCount)
    decreases |meetings|
  {
    if meetings != [] {
      var init, last := meetings[..|meetings| - 1], meetings[|meetings| - 1];
      SortEachSpec(init);
      SortSpeechesSpec(last);
      assert meetings == init + [last];
      SumByAppend(init, [last], SpeechCount);
      SumByAppend(SortEach(init), [SortSpeeches(last)], SpeechCount);
    }
  }

  /** group_by_meeting returns the meetings latest first, each with its
      speeches in order, and loses no speech. */
  lemma GroupedSpec(speeches: seq<Dict>)
    ensures SortedBy(Grouped(speeches), LaterOrSame)
    ensures forall m :: m in Grouped(speeches) ==> SortedBy(SpeechesIn(m), OrderLe)
    ensures SumBy(Grouped(speeches), SpeechCount) == |speeches|
  {
    var each := SortEach(ValuesOf(Meetings(speeches)));
    LaterOrSameTotalPreorder();
    SortSorted(each, LaterOrSame);
    SortEachSpec(ValuesOf(Meetings(speeches)));
    MeetingsTotal(speeches);
    SortSum(each, LaterOrSame, SpeechCount);
    forall m | m in Grouped(speeches) ensures m in each {
      assert m in multiset(Sort(each, LaterOrSame));
    }
  }

  /** Grouping first and sorting the meetings afterwards lists each meeting
      once: the meetings have pairwise distinct keys. */
  lemma MeetingKeysDistinct(speeches: seq<Dict>)
    ensures NoDuplicates(Meetings(speeches).keys)
    ensures forall key :: key in Meetings(speeches).entries <==> key in KeysOf(speeches)
  {
    MeetingsKeys(speeches);
  }
}
