/** The cleaning pass of parliament/tools/remove_minister_speeches.py: from
    a member's speech file it drops the speeches whose header names a
    ministerial role, drops the meetings left without speeches, and reports
    what it removed. Reading and writing the file is not modelled: the file
    is its decoded top-level object, and the timestamp is a parameter. */
module RemoveMinister {
  import opened Values
  import opened SpeechHeader

  /** One entry of `removed_entries`: `(issue_id, date, speech_id)`. */
  datatype Removal = Removal(issueId: Json, date: Json, speechId: Json)

  /** `d.get(key) or ""` */
  function OrEmpty(d: Dict, key: string): Json
  {
    Or(Get(d, key), Str(""))
  }

  /** A speech clean_file removes: a dict with a ministerial header. The
      pass is stated for any header reader `headerOf`; clean_file uses
      `HeaderOfRecord`. */
  predicate Ministerial(speech: Json, headerOf: HeaderFn)
  {
    speech.Obj? && IsMinisterial(headerOf(speech.fields))
  }

  /** A speech clean_file keeps: a dict whose header is not ministerial. */
  predicate Kept(speech: Json, headerOf: HeaderFn)
  {
    speech.Obj? && !IsMinisterial(headerOf(speech.fields))
  }

  /** `kept_speeches` after the inner loop. */
  function KeptOf(speeches: seq<Json>, headerOf: HeaderFn): (kept: seq<Json>)
    ensures |kept| <= |speeches|
    decreases |speeches|
  {
    if speeches == [] then []
    else
      var init, last := speeches[..|speeches| - 1], speeches[|speeches| - 1];
      KeptOf(init, headerOf) + (if Kept(last, headerOf) then [last] else [])
  }

  /** The kept speeches are the input's kept dicts. */
  lemma {:induction false} KeptOfMembers(speeches: seq<Json>, headerOf: HeaderFn)
    ensures forall s :: s in KeptOf(speeches, headerOf) <==> s in speeches && Kept(s, headerOf)
    decreases |speeches|
  {
    if speeches != [] {
      var init, last := speeches[..|speeches| - 1], speeches[|speeches| - 1];
      assert speeches == init + [last];
      KeptOfMembers(init, headerOf);
    }
  }

  /** The entries the inner loop adds for the speeches of `meeting`. */
  function RemovedOf(meeting: Dict, speeches: seq<Json>, headerOf: HeaderFn): (entries: seq<Removal>)
    ensures |entries| <= |speeches|
    decreases |speeches|
  {
    if speeches == [] then []
    else
      var init, last := speeches[..|speeches| - 1], speeches[|speeches| - 1];
      RemovedOf(meeting, init, headerOf) +
        (if Ministerial(last, headerOf)
         then [Removal(OrEmpty(meeting, "issueID"), OrEmpty(meeting, "date"), OrEmpty(last.fields, "speechID"))]
         else [])
  }

  /** The number of dict speeches. */
  function DictCount(speeches: seq<Json>): nat
    decreases |speeches|
  {
    if speeches == [] then 0
    else DictCount(speeches[..|speeches| - 1]) + (if speeches[|speeches| - 1].Obj? then 1 else 0)
  }

  /** A meeting the outer loop looks into: a dict whose speeches are a list.
      Every other entry is skipped without being counted. */
  predicate Examined(meeting: Json)
  {
    meeting.Obj? && Get(meeting.fields, "speeches").List?
  }

  function SpeechesOf(meeting: Json): seq<Json>
    requires Examined(meeting)
  {
    Get(meeting.fields, "speeches").items
  }

  /** The kept copy of a meeting: `dict(meeting)` with its speeches replaced. */
  function Trimmed(meeting: Json, headerOf: HeaderFn): Json
    requires Examined(meeting)
  {
    Obj(meeting.fields["speeches" := List(KeptOf(SpeechesOf(meeting), headerOf))])
  }

  /** What the outer loop has built: `cleaned_meetings`, `meetings_removed`
      and `removed_entries`. */
  datatype Pass = Pass(cleaned: seq<Json>, meetingsRemoved: nat, removed: seq<Removal>)

  /** The outer loop after the meetings `meetings`. */
  function Clean(meetings: seq<Json>, headerOf: HeaderFn): Pass
    decreases |meetings|
  {
    if meetings == [] then Pass([], 0, [])
    else
      var p := Clean(meetings[..|meetings| - 1], headerOf);
      var m := meetings[|meetings| - 1];
      if !Examined(m) then p
      else
        var entries := RemovedOf(m.fields, SpeechesOf(m), headerOf);
        if KeptOf(SpeechesOf(m), headerOf) != [] then Pass(p.cleaned + [Trimmed(m, headerOf)], p.meetingsRemoved, p.removed + entries)
        else Pass(p.cleaned, p.meetingsRemoved + 1, p.removed + entries)
  }

  /** clean_file's results: the counters, the entries, and the rewritten
      file when one is written. */
  datatype Outcome = Outcome(meetingsRemoved: nat, speechesRemoved: nat, removed: seq<Removal>, written: Option<Dict>)

  const TimestampKey: string := "minister_speeches_cleaned_at"

  /** clean_file on a decoded file, with `now` the timestamp it records. */
  function CleanedFile(data: Dict, now: string, headerOf: HeaderFn): Outcome
  {
    var meetings := Get(data, "meetings");
    if !meetings.List? then Outcome(0, 0, [], None)
    else
      var p := Clean(meetings.items, headerOf);
      if |p.removed| == 0 && p.meetingsRemoved == 0 then Outcome(0, 0, [], None)
      else Outcome(p.meetingsRemoved, |p.removed|, p.removed,
                   Some(data["meetings" := List(p.cleaned)][TimestampKey := Str(now)]))
  }

  /** The inner loop of clean_file over the speeches of one meeting: the
      speeches it keeps and the entries it records for those it removes.
      clean_file reads headers with `HeaderOfRecord`. */
  method ScanSpeeches(meeting: Dict, list: seq<Json>, headerOf: HeaderFn) returns (kept: seq<Json>, entries: seq<Removal>)
    ensures kept == KeptOf(list, headerOf)
    ensures entries == RemovedOf(meeting, list, headerOf)
  {
    var issueId := OrEmpty(meeting, "issueID");
    var date := OrEmpty(meeting, "date");
    kept, entries := [], [];
    assert list[..0] == [];
    for j := 0 to |list|
      invariant kept == KeptOf(list[..j], headerOf)
      invariant entries == RemovedOf(meeting, list[..j], headerOf)
    {
      var speech := list[j];
      SpeechStep(meeting, list, j, headerOf);
      if !speech.Obj? {
        continue;
      }
      var speechId := OrEmpty(speech.fields, "speechID");
      var header := headerOf(speech.fields);
      if IsMinisterial(header) {
        entries := entries + [Removal(issueId, date, speechId)];
        continue;
      }
      kept := kept + [speech];
    }
    assert list[..|list|] == list;
  }

  /** clean_file */
  method CleanFile(data: Dict, now: string) returns (meetingsRemoved: nat, speechesRemoved: nat, removed: seq<Removal>, written: Option<Dict>)
    ensures Outcome(meetingsRemoved, speechesRemoved, removed, written) == CleanedFile(data, now, HeaderOfRecord)
    ensures speechesRemoved == |removed|
  {
    var meetings := Get(data, "meetings");
    if !meetings.List? {
      return 0, 0, [], None;
    }
    var items := meetings.items;
    var cleaned: seq<Json> := [];
    meetingsRemoved, speechesRemoved, removed := 0, 0, [];
    assert items[..0] == [];
    for k := 0 to |items|
      invariant Pass(cleaned, meetingsRemoved, removed) == Clean(items[..k], HeaderOfRecord)
      invariant speechesRemoved == |removed|
    {
      var meeting := items[k];
      MeetingStep(items, k, HeaderOfRecord);
      if !meeting.Obj? {
        continue;
      }
      var speeches := Get(meeting.fields, "speeches");
      if !speeches.List? {
        continue;
      }
      var kept, entries := ScanSpeeches(meeting.fields, speeches.items, HeaderOfRecord);
      speechesRemoved := speechesRemoved + |entries|;
      removed := removed + entries;
      if kept != [] {
        cleaned := cleaned + [Obj(meeting.fields["speeches" := List(kept)])];
      } else {
        meetingsRemoved := meetingsRemoved + 1;
      }
    }
    assert items[..|items|] == items;
    if speechesRemoved == 0 && meetingsRemoved == 0 {
      return 0, 0, [], None;
    }
    written := Some(data["meetings" := List(cleaned)][TimestampKey := Str(now)]);
  }

  /** One speech further into the inner loop. */
  lemma SpeechStep(meeting: Dict, list: seq<Json>, j: nat, headerOf: HeaderFn)
    requires j < |list|
    ensures KeptOf(list[..j + 1], headerOf) ==
            KeptOf(list[..j], headerOf) + (if Kept(list[j], headerOf) then [list[j]] else [])
    ensures RemovedOf(meeting, list[..j + 1], headerOf) ==
            RemovedOf(meeting, list[..j], headerOf) +
              (if Ministerial(list[j], headerOf)
               then [Removal(OrEmpty(meeting, "issueID"), OrEmpty(meeting, "date"), OrEmpty(list[j].fields, "speechID"))]
               else [])
  {
    assert list[..j + 1][..j] == list[..j];
  }

  /** One meeting further into the outer loop. */
  lemma MeetingStep(items: seq<Json>, k: nat, headerOf: HeaderFn)
    requires k < |items|
    ensures var p, m := Clean(items[..k], headerOf), items[k];
            Clean(items[..k + 1], headerOf) ==
              if !Examined(m) then p
              else
                var entries := RemovedOf(m.fields, SpeechesOf(m), headerOf);
                if KeptOf(SpeechesOf(m), headerOf) != [] then Pass(p.cleaned + [Trimmed(m, headerOf)], p.meetingsRemoved, p.removed + entries)
                else Pass(p.cleaned, p.meetingsRemoved + 1, p.removed + entries)
  {
    assert items[..k + 1][..k] == items[..k];
  }

  // ---------------------------------------------------------------------
  // What the pass guarantees, for any test on speeches

  /** Within a meeting, every dict speech is either kept or removed with an
      entry, and nothing else is. */
  lemma {:induction false} SpeechesAccounted(meeting: Dict, speeches: seq<Json>, headerOf: HeaderFn)
    ensures |KeptOf(speeches, headerOf)| + |RemovedOf(meeting, speeches, headerOf)| == DictCount(speeches)
    decreases |speeches|
  {
    if speeches != [] {
      SpeechesAccounted(meeting, speeches[..|speeches| - 1], headerOf);
    }
  }

  /** The removal entries of a meeting carry its issue id and date, and the
      speech id of a removed speech. */
  lemma {:induction false} RemovedEntries(meeting: Dict, speeches: seq<Json>, headerOf: HeaderFn)
    ensures forall e :: e in RemovedOf(meeting, speeches, headerOf) ==>
              e.issueId == OrEmpty(meeting, "issueID") && e.date == OrEmpty(meeting, "date") &&
              exists s :: s in speeches && Ministerial(s, headerOf) && e.speechId == OrEmpty(s.fields, "speechID")
    decreases |speeches|
  {
    if speeches != [] {
      var init := speeches[..|speeches| - 1];
      RemovedEntries(meeting, init, headerOf);
      assert speeches == init + [speeches[|speeches| - 1]];
    }
  }

  /** The number of meetings the outer loop looks into. */
  function ExaminedCount(meetings: seq<Json>): (n: nat)
    ensures n <= |meetings|
    decreases |meetings|
  {
    if meetings == [] then 0
    else ExaminedCount(meetings[..|meetings| - 1]) + (if Examined(meetings[|meetings| - 1]) then 1 else 0)
  }

  /** Every examined meeting is either kept or counted as removed; every
      kept meeting has speeches left, all of them kept dicts, and is a copy
      of an input meeting that differs only in its speeches. */
  lemma {:induction false} CleanSpec(meetings: seq<Json>, headerOf: HeaderFn)
    ensures |Clean(meetings, headerOf).cleaned| + Clean(meetings, headerOf).meetingsRemoved == ExaminedCount(meetings)
    ensures forall c :: c in Clean(meetings, headerOf).cleaned ==> CleanMeeting(c, headerOf)
    ensures forall c :: c in Clean(meetings, headerOf).cleaned ==>
              exists m :: m in meetings && Examined(m) && c == Trimmed(m, headerOf)
    decreases |meetings|
  {
    if meetings != [] {
      var init, m := meetings[..|meetings| - 1], meetings[|meetings| - 1];
      CleanSpec(init, headerOf);
      assert meetings == init + [m];
      if Examined(m) {
        KeptOfMembers(SpeechesOf(m), headerOf);
        var t := Trimmed(m, headerOf);
        assert SpeechesOf(t) == KeptOf(SpeechesOf(m), headerOf);
      }
    }
  }

  /** `removed_entries` is the per-meeting entries in meeting order. */
  function AllRemoved(meetings: seq<Json>, headerOf: HeaderFn): seq<Removal>
    decreases |meetings|
  {
    if meetings == [] then []
    else
      var m := meetings[|meetings| - 1];
      AllRemoved(meetings[..|meetings| - 1], headerOf) +
        (if Examined(m) then RemovedOf(m.fields, SpeechesOf(m), headerOf) else [])
  }

  lemma {:induction false} CleanRemoved(meetings: seq<Json>, headerOf: HeaderFn)
    ensures Clean(meetings, headerOf).removed == AllRemoved(meetings, headerOf)
    decreases |meetings|
  {
    if meetings != [] {
      CleanRemoved(meetings[..|meetings| - 1], headerOf);
    }
  }

  lemma {:induction false} KeptOfKept(speeches: seq<Json>, headerOf: HeaderFn)
    requires forall s :: s in speeches ==> Kept(s, headerOf)
    ensures KeptOf(speeches, headerOf) == speeches
    decreases |speeches|
  {
    if speeches != [] {
      var init := speeches[..|speeches| - 1];
      assert speeches == init + [speeches[|speeches| - 1]];
      KeptOfKept(init, headerOf);
    }
  }

  /** The entries of a meeting are empty whatever the meeting when no
      speech is removed. */
  lemma {:induction false} NothingRemoved(meeting: Dict, speeches: seq<Json>, headerOf: HeaderFn)
    requires forall s :: s in speeches ==> Kept(s, headerOf)
    ensures RemovedOf(meeting, speeches, headerOf) == []
    decreases |speeches|
  {
    if speeches != [] {
      var init, last := speeches[..|speeches| - 1], speeches[|speeches| - 1];
      assert speeches == init + [last];
      assert Kept(last, headerOf);
      NothingRemoved(meeting, init, headerOf);
    }
  }

  /** A meeting that is already clean. */
  predicate CleanMeeting(meeting: Json, headerOf: HeaderFn)
  {
    Examined(meeting) && SpeechesOf(meeting) != [] && forall s :: s in SpeechesOf(meeting) ==> Kept(s, headerOf)
  }

  /** A clean meeting is its own trimmed copy and adds no entries. */
  lemma TrimmedClean(meeting: Json, headerOf: HeaderFn)
    requires CleanMeeting(meeting, headerOf)
    ensures KeptOf(SpeechesOf(meeting), headerOf) == SpeechesOf(meeting)
    ensures RemovedOf(meeting.fields, SpeechesOf(meeting), headerOf) == []
    ensures Trimmed(meeting, headerOf) == meeting
  {
    KeptOfKept(SpeechesOf(meeting), headerOf);
    NothingRemoved(meeting.fields, SpeechesOf(meeting), headerOf);
    assert meeting.fields["speeches" := List(SpeechesOf(meeting))] == meeting.fields;
  }

  /** A pass over meetings that are already clean removes nothing. */
  lemma {:induction false} CleanOfClean(meetings: seq<Json>, headerOf: HeaderFn)
    requires forall c :: c in meetings ==> CleanMeeting(c, headerOf)
    ensures Clean(meetings, headerOf) == Pass(meetings, 0, [])
    decreases |meetings|
  {
    if meetings != [] {
      var init, m := meetings[..|meetings| - 1], meetings[|meetings| - 1];
      assert meetings == init + [m];
      assert CleanMeeting(m, headerOf);
      CleanOfClean(init, headerOf);
      TrimmedClean(m, headerOf);
    }
  }

  /** clean_file is idempotent: on the file it wrote it removes nothing and
      writes nothing. */
  lemma CleanFileIdempotent(data: Dict, now: string, later: string, headerOf: HeaderFn)
    requires CleanedFile(data, now, headerOf).written.Some?
    ensures CleanedFile(CleanedFile(data, now, headerOf).written.value, later, headerOf) == Outcome(0, 0, [], None)
  {
    var items := Get(data, "meetings").items;
    CleanSpec(items, headerOf);
    CleanOfClean(Clean(items, headerOf).cleaned, headerOf);
  }

  /** A file is rewritten exactly when the pass removed a speech or a
      meeting; otherwise everything reads zero, even when malformed meetings
      were skipped. */
  lemma RewriteIff(data: Dict, now: string, headerOf: HeaderFn)
    ensures var o := CleanedFile(data, now, headerOf);
            var meetings := Get(data, "meetings");
            && (o.written.Some? <==>
                  (meetings.List? &&
                   (Clean(meetings.items, headerOf).removed != [] || Clean(meetings.items, headerOf).meetingsRemoved != 0)))
            && (o.written.None? ==> o == Outcome(0, 0, [], None))
            && (o.written.Some? ==> o.speechesRemoved == |o.removed| && o.written.value[TimestampKey] == Str(now))
  {
  }

  // ---------------------------------------------------------------------
  // main

  /** The number of files clean_file rewrites. */
  function RewrittenCount(files: seq<Dict>, now: string, headerOf: HeaderFn): (n: nat)
    ensures n <= |files|
    decreases |files|
  {
    if files == [] then 0
    else
      RewrittenCount(files[..|files| - 1], now, headerOf) +
        (if CleanedFile(files[|files| - 1], now, headerOf).written.Some? then 1 else 0)
  }

  /** The number of removal entries over all files. */
  function SpeechesTotal(files: seq<Dict>, now: string, headerOf: HeaderFn): nat
    decreases |files|
  {
    if files == [] then 0
    else SpeechesTotal(files[..|files| - 1], now, headerOf) + |CleanedFile(files[|files| - 1], now, headerOf).removed|
  }

  function MeetingsTotal(files: seq<Dict>, now: string, headerOf: HeaderFn): nat
    decreases |files|
  {
    if files == [] then 0
    else MeetingsTotal(files[..|files| - 1], now, headerOf) + CleanedFile(files[|files| - 1], now, headerOf).meetingsRemoved
  }

  /** main: clean every file in turn and add up what was removed. A file
      counts as updated when clean_file reported a removal. */
  method CleanAll(files: seq<Dict>, now: string) returns (filesUpdated: nat, meetingsTotal: nat, speechesTotal: nat)
    ensures filesUpdated == RewrittenCount(files, now, HeaderOfRecord)
    ensures speechesTotal == SpeechesTotal(files, now, HeaderOfRecord)
    ensures meetingsTotal == MeetingsTotal(files, now, HeaderOfRecord)
  {
    filesUpdated, meetingsTotal, speechesTotal := 0, 0, 0;
    assert files[..0] == [];
    for k := 0 to |files|
      invariant filesUpdated == RewrittenCount(files[..k], now, HeaderOfRecord)
      invariant speechesTotal == SpeechesTotal(files[..k], now, HeaderOfRecord)
      invariant meetingsTotal == MeetingsTotal(files[..k], now, HeaderOfRecord)
    {
      assert files[..k + 1][..k] == files[..k];
      var meetingsRemoved, speechesRemoved, removed, written := CleanFile(files[k], now);
      RewriteIff(files[k], now, HeaderOfRecord);
      if speechesRemoved == 0 && meetingsRemoved == 0 {
        continue;
      }
      filesUpdated := filesUpdated + 1;
      meetingsTotal := meetingsTotal + meetingsRemoved;
      speechesTotal := speechesTotal + speechesRemoved;
    }
    assert files[..|files|] == files;
  }

  /** Nothing is reported removed unless some file is rewritten. */
  lemma {:induction false} TotalsNeedRewrite(files: seq<Dict>, now: string, headerOf: HeaderFn)
    ensures RewrittenCount(files, now, headerOf) == 0 ==>
              SpeechesTotal(files, now, headerOf) == 0 && MeetingsTotal(files, now, headerOf) == 0
    decreases |files|
  {
    if files != [] {
      TotalsNeedRewrite(files[..|files| - 1], now, headerOf);
      RewriteIff(files[|files| - 1], now, headerOf);
    }
  }
}
