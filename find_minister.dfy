/** The report of parliament/tools/find_minister_speeches.py: it lists the
    speeches of a member's file whose header names a ministerial role,
    without changing anything. Unlike the cleaning pass it does not check
    that meetings and speeches are dicts: `.get` on anything else raises,
    and the report stops there. */
module FindMinister {
  import opened Values
  import opened SpeechHeader
  import opened Text
  import RemoveMinister

  /** One finding: `(issue_id, date, speech_id, header or "")`. */
  datatype Finding = Finding(issueId: Json, date: Json, speechId: Json, header: string)

  /** check_speeches' findings, or the error `.get` raises on an entry that
      is not a dict. */
  datatype Checked = Checked(findings: seq<Finding>) | Raises

  /** `header or ""` */
  function HeaderText(header: Option<string>): string
  {
    if header.Some? then header.value else ""
  }

  /** The inner loop over the speeches of one meeting. */
  function SpeechFindings(meeting: Dict, speeches: seq<Json>, headerOf: HeaderFn): Checked
    decreases |speeches|
  {
    if speeches == [] then Checked([])
    else
      var before := SpeechFindings(meeting, speeches[..|speeches| - 1], headerOf);
      var speech := speeches[|speeches| - 1];
      if before.Raises? || !speech.Obj? then Raises
      else
        var header := headerOf(speech.fields);
        if IsMinisterial(header)
        then Checked(before.findings + [Finding(RemoveMinister.OrEmpty(meeting, "issueID"), RemoveMinister.OrEmpty(meeting, "date"),
                                                RemoveMinister.OrEmpty(speech.fields, "speechID"), HeaderText(header))])
        else before
  }

  /** The outer loop over the meetings. */
  function MeetingFindings(meetings: seq<Json>, headerOf: HeaderFn): Checked
    decreases |meetings|
  {
    if meetings == [] then Checked([])
    else
      var before := MeetingFindings(meetings[..|meetings| - 1], headerOf);
      var meeting := meetings[|meetings| - 1];
      if before.Raises? || !meeting.Obj? then Raises
      else
        var speeches := Get(meeting.fields, "speeches");
        if !speeches.List? then before
        else
          var found := SpeechFindings(meeting.fields, speeches.items, headerOf);
          if found.Raises? then Raises else Checked(before.findings + found.findings)
  }

  /** check_speeches on a decoded file. */
  function CheckedFile(data: Dict, headerOf: HeaderFn): Checked
  {
    var meetings := Get(data, "meetings");
    if !meetings.List? then Checked([]) else MeetingFindings(meetings.items, headerOf)
  }

  /** check_speeches; the tool reads headers with `HeaderOfRecord`. */
  method CheckSpeeches(data: Dict, headerOf: HeaderFn) returns (result: Checked)
    ensures result == CheckedFile(data, headerOf)
  {
    var meetings := Get(data, "meetings");
    if !meetings.List? {
      return Checked([]);
    }
    var items := meetings.items;
    var findings: seq<Finding> := [];
    assert items[..0] == [];
    for k := 0 to |items|
      invariant MeetingFindings(items[..k], headerOf) == Checked(findings)
    {
      var meeting := items[k];
      MeetingStep(items, k, headerOf);
      if !meeting.Obj? {
        MeetingsRaise(items, k + 1, headerOf);
        return Raises;
      }
      var speeches := Get(meeting.fields, "speeches");
      if !speeches.List? {
        continue;
      }
      var found := CheckMeeting(meeting.fields, speeches.items, headerOf);
      if found.Raises? {
        MeetingsRaise(items, k + 1, headerOf);
        return Raises;
      }
      findings := findings + found.findings;
    }
    assert items[..|items|] == items;
    result := Checked(findings);
  }

  /** The inner loop of check_speeches, over the speeches of one meeting. */
  method CheckMeeting(meeting: Dict, list: seq<Json>, headerOf: HeaderFn) returns (result: Checked)
    ensures result == SpeechFindings(meeting, list, headerOf)
  {
    var issueId := RemoveMinister.OrEmpty(meeting, "issueID");
    var date := RemoveMinister.OrEmpty(meeting, "date");
    var findings: seq<Finding> := [];
    assert list[..0] == [];
    for j := 0 to |list|
      invariant SpeechFindings(meeting, list[..j], headerOf) == Checked(findings)
    {
      var speech := list[j];
      SpeechStep(meeting, list, j, headerOf);
      if !speech.Obj? {
        SpeechesRaise(meeting, list, j + 1, headerOf);
        return Raises;
      }
      var speechId := RemoveMinister.OrEmpty(speech.fields, "speechID");
      var header := headerOf(speech.fields);
      if IsMinisterial(header) {
        findings := findings + [Finding(issueId, date, speechId, HeaderText(header))];
      }
    }
    assert list[..|list|] == list;
    result := Checked(findings);
  }

  /** One step of the inner loop, a single unfolding of `SpeechFindings`
      on the prefix `list[..j + 1]`: a non-dict speech raises, a
      ministerial one adds its finding, any other adds nothing. */
  lemma SpeechStep(meeting: Dict, list: seq<Json>, j: nat, headerOf: HeaderFn)
    requires j < |list|
    ensures var before, speech := SpeechFindings(meeting, list[..j], headerOf), list[j];
            SpeechFindings(meeting, list[..j + 1], headerOf) ==
              if before.Raises? || !speech.Obj? then Raises
              else if IsMinisterial(headerOf(speech.fields))
              then Checked(before.findings + [Finding(RemoveMinister.OrEmpty(meeting, "issueID"), RemoveMinister.OrEmpty(meeting, "date"),
                                                      RemoveMinister.OrEmpty(speech.fields, "speechID"), HeaderText(headerOf(speech.fields)))])
              else before
  {
    assert list[..j + 1][..j] == list[..j];
  }

  /** One step of the outer loop, a single unfolding of `MeetingFindings`
      on the prefix `items[..k + 1]`: a non-dict meeting raises, one without
      a speech list adds nothing, any other adds its speeches' findings. */
  lemma MeetingStep(items: seq<Json>, k: nat, headerOf: HeaderFn)
    requires k < |items|
    ensures var before, meeting := MeetingFindings(items[..k], headerOf), items[k];
            MeetingFindings(items[..k + 1], headerOf) ==
              if before.Raises? || !meeting.Obj? then Raises
              else if !Get(meeting.fields, "speeches").List? then before
              else
                var found := SpeechFindings(meeting.fields, Get(meeting.fields, "speeches").items, headerOf);
                if found.Raises? then Raises else Checked(before.findings + found.findings)
  {
    assert items[..k + 1][..k] == items[..k];
  }

  /** Once an entry raises, the rest of the list does not matter. */
  lemma {:induction false} SpeechesRaise(meeting: Dict, list: seq<Json>, n: nat, headerOf: HeaderFn)
    requires n <= |list| && SpeechFindings(meeting, list[..n], headerOf).Raises?
    ensures SpeechFindings(meeting, list, headerOf).Raises?
    decreases |list| - n
  {
    if n < |list| {
      SpeechStep(meeting, list, n, headerOf);
      SpeechesRaise(meeting, list, n + 1, headerOf);
    } else {
      assert list[..n] == list;
    }
  }

  lemma {:induction false} MeetingsRaise(items: seq<Json>, n: nat, headerOf: HeaderFn)
    requires n <= |items| && MeetingFindings(items[..n], headerOf).Raises?
    ensures MeetingFindings(items, headerOf).Raises?
    decreases |items| - n
  {
    if n < |items| {
      MeetingStep(items, n, headerOf);
      MeetingsRaise(items, n + 1, headerOf);
    } else {
      assert items[..n] == items;
    }
  }

  // ---------------------------------------------------------------------
  // What the report states

  /** Every finding names a ministerial role in its header. */
  lemma {:induction false} SpeechFindingsMinisterial(meeting: Dict, speeches: seq<Json>, headerOf: HeaderFn)
    requires SpeechFindings(meeting, speeches, headerOf).Checked?
    ensures forall f :: f in SpeechFindings(meeting, speeches, headerOf).findings ==> IsMinisterial(Some(f.header))
    decreases |speeches|
  {
    if speeches != [] {
      SpeechFindingsMinisterial(meeting, speeches[..|speeches| - 1], headerOf);
    }
  }

  lemma {:induction false} FindingsMinisterial(meetings: seq<Json>, headerOf: HeaderFn)
    requires MeetingFindings(meetings, headerOf).Checked?
    ensures forall f :: f in MeetingFindings(meetings, headerOf).findings ==> IsMinisterial(Some(f.header))
    decreases |meetings|
  {
    if meetings != [] {
      var init, m := meetings[..|meetings| - 1], meetings[|meetings| - 1];
      FindingsMinisterial(init, headerOf);
      if m.Obj? && Get(m.fields, "speeches").List? {
        SpeechFindingsMinisterial(m.fields, Get(m.fields, "speeches").items, headerOf);
      }
    }
  }

  /** Every finding has a non-empty header that contains one of 大臣,
      政務官 and 長官. */
  lemma FindingHeaders(data: Dict, headerOf: HeaderFn)
    requires CheckedFile(data, headerOf).Checked?
    ensures forall f :: f in CheckedFile(data, headerOf).findings ==>
              f.header != "" &&
              (Contains(f.header, "大臣") || Contains(f.header, "政務官") || Contains(f.header, "長官"))
  {
    var meetings := Get(data, "meetings");
    if meetings.List? {
      FindingsMinisterial(meetings.items, headerOf);
      forall f | f in CheckedFile(data, headerOf).findings
        ensures f.header != "" &&
                (Contains(f.header, "大臣") || Contains(f.header, "政務官") || Contains(f.header, "長官"))
      {
        MinisterialRoles(Some(f.header));
      }
    }
  }

  /** The finding without its header. */
  function Entry(f: Finding): RemoveMinister.Removal
  {
    RemoveMinister.Removal(f.issueId, f.date, f.speechId)
  }

  function Entries(fs: seq<Finding>): (es: seq<RemoveMinister.Removal>)
    ensures |es| == |fs|
    ensures forall i :: 0 <= i < |fs| ==> es[i] == Entry(fs[i])
  {
    seq(|fs|, i requires 0 <= i < |fs| => Entry(fs[i]))
  }

  lemma EntriesAppend(a: seq<Finding>, b: seq<Finding>)
    ensures Entries(a + b) == Entries(a) + Entries(b)
  {
  }

  /** In a meeting the report does not stop on, its findings are the
      entries the cleaning pass records for the speeches it removes. */
  lemma {:induction false} SpeechFindingsAreRemovals(meeting: Dict, speeches: seq<Json>, headerOf: HeaderFn)
    requires SpeechFindings(meeting, speeches, headerOf).Checked?
    ensures Entries(SpeechFindings(meeting, speeches, headerOf).findings) == RemoveMinister.RemovedOf(meeting, speeches, headerOf)
    decreases |speeches|
  {
    if speeches != [] {
      var init := speeches[..|speeches| - 1];
      SpeechFindingsAreRemovals(meeting, init, headerOf);
      var f := SpeechFindings(meeting, init, headerOf).findings;
      var last := speeches[|speeches| - 1];
      if IsMinisterial(headerOf(last.fields)) {
        var g := Finding(RemoveMinister.OrEmpty(meeting, "issueID"), RemoveMinister.OrEmpty(meeting, "date"), RemoveMinister.OrEmpty(last.fields, "speechID"), HeaderText(headerOf(last.fields)));
        EntriesAppend(f, [g]);
      }
    }
  }

  /** When the report runs through, it lists exactly the entries the
      cleaning pass removes, in the same order. */
  lemma {:induction false} FindingsAreRemovals(meetings: seq<Json>, headerOf: HeaderFn)
    requires MeetingFindings(meetings, headerOf).Checked?
    ensures Entries(MeetingFindings(meetings, headerOf).findings) == RemoveMinister.Clean(meetings, headerOf).removed
    decreases |meetings|
  {
    if meetings != [] {
      var init, m := meetings[..|meetings| - 1], meetings[|meetings| - 1];
      FindingsAreRemovals(init, headerOf);
      if Get(m.fields, "speeches").List? {
        var speeches := Get(m.fields, "speeches").items;
        SpeechFindingsAreRemovals(m.fields, speeches, headerOf);
        EntriesAppend(MeetingFindings(init, headerOf).findings, SpeechFindings(m.fields, speeches, headerOf).findings);
      }
    }
  }

  /** For a file the report reads through, the report and the cleaning
      pass agree: one finding per removed speech, with the same issue id,
      date and speech id. */
  lemma ReportMatchesCleaning(data: Dict, now: string, headerOf: HeaderFn)
    requires CheckedFile(data, headerOf).Checked?
    ensures Entries(CheckedFile(data, headerOf).findings) == RemoveMinister.CleanedFile(data, now, headerOf).removed
    ensures |CheckedFile(data, headerOf).findings| == RemoveMinister.CleanedFile(data, now, headerOf).speechesRemoved
  {
    var meetings := Get(data, "meetings");
    if meetings.List? {
      FindingsAreRemovals(meetings.items, headerOf);
    }
  }

  // ---------------------------------------------------------------------
  // main

  /** The findings over all files, or the error of the first file that
      raises. */
  function AllFindings(files: seq<Dict>, headerOf: HeaderFn): Checked
    decreases |files|
  {
    if files == [] then Checked([])
    else
      var before := AllFindings(files[..|files| - 1], headerOf);
      var found := CheckedFile(files[|files| - 1], headerOf);
      if before.Raises? || found.Raises? then Raises else Checked(before.findings + found.findings)
  }

  /** main: `total_hits` over the files, and whether it prints the
      "no ministerial speeches" line. None when a file raises. */
  method TotalHits(files: seq<Dict>, headerOf: HeaderFn) returns (total: Option<nat>, noneFound: bool)
    ensures total.None? <==> AllFindings(files, headerOf).Raises?
    ensures total.Some? ==> total.value == |AllFindings(files, headerOf).findings|
    ensures total.Some? ==> (noneFound <==> total.value == 0)
  {
    var hits := 0;
    ghost var all: seq<Finding> := [];
    assert files[..0] == [];
    for k := 0 to |files|
      invariant AllFindings(files[..k], headerOf) == Checked(all)
      invariant hits == |all|
    {
      assert files[..k + 1][..k] == files[..k];
      var results := CheckSpeeches(files[k], headerOf);
      if results.Raises? {
        FilesRaise(files, k + 1, headerOf);
        return None, false;
      }
      all := all + results.findings;
      if |results.findings| == 0 {
        continue;
      }
      hits := hits + |results.findings|;
    }
    assert files[..|files|] == files;
    total, noneFound := Some(hits), hits == 0;
  }

  lemma {:induction false} FilesRaise(files: seq<Dict>, n: nat, headerOf: HeaderFn)
    requires n <= |files| && AllFindings(files[..n], headerOf).Raises?
    ensures AllFindings(files, headerOf).Raises?
    decreases |files| - n
  {
    if n < |files| {
      assert files[..n + 1][..n] == files[..n];
      FilesRaise(files, n + 1, headerOf);
    } else {
      assert files[..n] == files;
    }
  }

  /** `total_hits` is 0 exactly when no file has a finding. */
  lemma {:induction false} NoHitsIff(files: seq<Dict>, headerOf: HeaderFn)
    requires AllFindings(files, headerOf).Checked?
    ensures AllFindings(files, headerOf).findings == [] <==>
              forall k :: 0 <= k < |files| ==> CheckedFile(files[k], headerOf) == Checked([])
    decreases |files|
  {
    if files != [] {
      var init := files[..|files| - 1];
      NoHitsIff(init, headerOf);
      assert forall k :: 0 <= k < |init| ==> init[k] == files[k];
    }
  }
}
