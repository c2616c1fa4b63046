/** parliament/tools/postprocess_member_speeches.py: it drops the plenary
    meetings ("本会議") from a member's file, removes falsy entries from each
    remaining meeting's speech list, drops the meetings left without
    speeches, and rewrites the file only when the number of meetings
    changed. */
module Postprocess {
  import opened Values

  const Plenary: string := "本会議"

  const TimestampKey: string := "postprocessed_at"

  /** should_drop_meeting: the name, read from "nameOfMeeting" or else
      "meetingName", is exactly the plenary session. */
  predicate ShouldDropMeeting(meeting: Dict)
  {
    Or(Get(meeting, "nameOfMeeting"), Get(meeting, "meetingName")) == Str(Plenary)
  }

  /** The `or` spelled out: "meetingName" is consulted only when
      "nameOfMeeting" is missing or falsy. */
  lemma ShouldDropIff(meeting: Dict)
    ensures ShouldDropMeeting(meeting) <==>
              Get(meeting, "nameOfMeeting") == Str(Plenary) ||
              (!Truthy(Get(meeting, "nameOfMeeting")) && Get(meeting, "meetingName") == Str(Plenary))
  {
  }

  /** `[s for s in speeches if s]` */
  function TruthyOnly(speeches: seq<Json>): (r: seq<Json>)
    ensures |r| <= |speeches|
    decreases |speeches|
  {
    if speeches == [] then []
    else
      var last := speeches[|speeches| - 1];
      TruthyOnly(speeches[..|speeches| - 1]) + (if Truthy(last) then [last] else [])
  }

  /** The filter keeps exactly the truthy entries. */
  lemma {:induction false} TruthyOnlyMembers(speeches: seq<Json>)
    ensures forall s :: s in TruthyOnly(speeches) <==> s in speeches && Truthy(s)
    decreases |speeches|
  {
    if speeches != [] {
      var init := speeches[..|speeches| - 1];
      TruthyOnlyMembers(init);
      assert speeches == init + [speeches[|speeches| - 1]];
    }
  }

  /** A list with no falsy entry is left as it is. */
  lemma {:induction false} TruthyOnlyOfTruthy(speeches: seq<Json>)
    requires forall s :: s in speeches ==> Truthy(s)
    ensures TruthyOnly(speeches) == speeches
    decreases |speeches|
  {
    if speeches != [] {
      var init, last := speeches[..|speeches| - 1], speeches[|speeches| - 1];
      assert speeches == init + [last];
      forall s | s in init ensures Truthy(s) {
        assert s in speeches;
      }
      TruthyOnlyOfTruthy(init);
      assert Truthy(last);
    }
  }

  /** The meeting after `meeting["speeches"] = [s for s in speeches if s]`,
      which prune_meetings does when its speeches are a list. */
  function Touch(meeting: Dict): Dict
  {
    var speeches := Get(meeting, "speeches");
    if speeches.List? then meeting["speeches" := List(TruthyOnly(speeches.items))] else meeting
  }

  /** A meeting prune_meetings keeps: not the plenary session, and with
      speeches left after the filter. */
  predicate Survives(meeting: Dict)
  {
    !ShouldDropMeeting(meeting) && Truthy(Get(Touch(meeting), "speeches"))
  }

  /** prune_meetings, or None when an entry is not a dict (`.get` raises). */
  function Prune(meetings: seq<Json>): (r: Option<seq<Dict>>)
    ensures r.Some? ==> |r.value| <= |meetings|
    decreases |meetings|
  {
    if meetings == [] then Some([])
    else
      var before := Prune(meetings[..|meetings| - 1]);
      var meeting := meetings[|meetings| - 1];
      if before.None? || !meeting.Obj? then None
      else if Survives(meeting.fields) then Some(before.value + [Touch(meeting.fields)])
      else before
  }

  method PruneMeetings(meetings: seq<Json>) returns (cleaned: Option<seq<Dict>>)
    ensures cleaned == Prune(meetings)
  {
    var kept: seq<Dict> := [];
    assert meetings[..0] == [];
    for k := 0 to |meetings|
      invariant Prune(meetings[..k]) == Some(kept)
    {
      assert meetings[..k + 1][..k] == meetings[..k];
      var item := meetings[k];
      if !item.Obj? {
        PruneRaises(meetings, k + 1);
        return None;
      }
      var meeting := item.fields;
      if ShouldDropMeeting(meeting) {
        continue;
      }
      var speeches := Get(meeting, "speeches");
      if speeches.List? {
        speeches := List(TruthyOnly(speeches.items));
        meeting := meeting["speeches" := speeches];
      }
      if !Truthy(speeches) {
        continue;
      }
      kept := kept + [meeting];
    }
    assert meetings[..|meetings|] == meetings;
    return Some(kept);
  }

  /** Once an entry raises, the rest of the list does not matter. */
  lemma {:induction false} PruneRaises(meetings: seq<Json>, n: nat)
    requires n <= |meetings| && Prune(meetings[..n]).None?
    ensures Prune(meetings).None?
    decreases |meetings| - n
  {
    if n < |meetings| {
      assert meetings[..n + 1][..n] == meetings[..n];
      PruneRaises(meetings, n + 1);
    } else {
      assert meetings[..n] == meetings;
    }
  }

  // ---------------------------------------------------------------------
  // What pruning leaves

  /** A meeting as prune_meetings leaves it: not the plenary session, with
      a truthy speeches value, and no falsy entry in a speech list. */
  predicate Settled(meeting: Dict)
  {
    var speeches := Get(meeting, "speeches");
    && !ShouldDropMeeting(meeting)
    && Truthy(speeches)
    && (speeches.List? ==> forall s :: s in speeches.items ==> Truthy(s))
  }

  /** The filter touches only "speeches" and leaves a settled meeting. */
  lemma TouchSettles(meeting: Dict)
    requires Survives(meeting)
    ensures Settled(Touch(meeting))
  {
    var speeches := Get(meeting, "speeches");
    if speeches.List? {
      TruthyOnlyMembers(speeches.items);
    }
  }

  /** A settled meeting passes unchanged. */
  lemma SettledSurvives(meeting: Dict)
    requires Settled(meeting)
    ensures Touch(meeting) == meeting
    ensures Survives(meeting)
  {
    if Get(meeting, "speeches").List? {
      RefilterList(meeting, Get(meeting, "speeches").items);
    }
  }

  lemma RefilterList(meeting: Dict, items: seq<Json>)
    requires Get(meeting, "speeches") == List(items)
    requires forall s :: s in items ==> Truthy(s)
    ensures meeting["speeches" := List(TruthyOnly(items))] == meeting
  {
    TruthyOnlyOfTruthy(items);
  }

  /** The kept meetings are exactly the filtered form of the surviving
      input meetings, and each of them is settled. */
  lemma {:induction false} PruneSpec(meetings: seq<Json>)
    requires Prune(meetings).Some?
    ensures forall i :: 0 <= i < |meetings| ==> meetings[i].Obj?
    ensures forall m :: m in Prune(meetings).value ==> Settled(m)
    ensures forall m :: m in Prune(meetings).value <==>
              exists i :: 0 <= i < |meetings| && Survives(meetings[i].fields) && m == Touch(meetings[i].fields)
    decreases |meetings|
  {
    if meetings != [] {
      var init, last := meetings[..|meetings| - 1], meetings[|meetings| - 1];
      PruneSpec(init);
      assert forall i :: 0 <= i < |init| ==> init[i] == meetings[i];
      if Survives(last.fields) {
        TouchSettles(last.fields);
      }
      forall m | m in Prune(meetings).value
        ensures exists i :: 0 <= i < |meetings| && Survives(meetings[i].fields) && m == Touch(meetings[i].fields)
      {
        if m !in Prune(init).value {
          assert Survives(meetings[|meetings| - 1].fields) && m == Touch(meetings[|meetings| - 1].fields);
        }
      }
    }
  }

  /** The positions of the input meetings that survive, in increasing order. */
  function Survivors(meetings: seq<Json>): (s: seq<nat>)
    ensures forall a :: 0 <= a < |s| ==> s[a] < |meetings|
    decreases |meetings|
  {
    if meetings == [] then []
    else
      var n := |meetings| - 1;
      if meetings[n].Obj? && Survives(meetings[n].fields) then Survivors(meetings[..n]) + [n]
      else Survivors(meetings[..n])
  }

  /** The kept meetings are the filtered forms of the surviving input
      meetings, one for one and in input order; no survivor is left out. */
  lemma {:induction false} PruneInOrder(meetings: seq<Json>)
    requires Prune(meetings).Some?
    ensures var s, kept := Survivors(meetings), Prune(meetings).value;
            && |s| == |kept|
            && (forall a, b :: 0 <= a < b < |s| ==> s[a] < s[b])
            && (forall a :: 0 <= a < |s| ==> meetings[s[a]].Obj? && kept[a] == Touch(meetings[s[a]].fields))
            && (forall k :: 0 <= k < |meetings| && meetings[k].Obj? && Survives(meetings[k].fields) ==> k in s)
    decreases |meetings|
  {
    if meetings != [] {
      var n := |meetings| - 1;
      var init := meetings[..n];
      PruneInOrder(init);
      assert forall i :: 0 <= i < n ==> init[i] == meetings[i];
    }
  }

  /** A list of settled meetings is its own pruning. */
  lemma {:induction false} PruneOfSettled(meetings: seq<Dict>)
    requires forall m :: m in meetings ==> Settled(m)
    ensures Prune(Objs(meetings)) == Some(meetings)
    decreases |meetings|
  {
    if meetings != [] {
      var init := meetings[..|meetings| - 1];
      assert forall m :: m in init ==> m in meetings;
      PruneOfSettled(init);
      assert Objs(meetings)[..|meetings| - 1] == Objs(init);
      SettledSurvives(meetings[|meetings| - 1]);
      assert meetings == init + [meetings[|meetings| - 1]];
    }
  }

  /** Pruning twice prunes nothing the second time. */
  lemma PruneIdempotent(meetings: seq<Json>)
    requires Prune(meetings).Some?
    ensures Prune(Objs(Prune(meetings).value)) == Prune(meetings)
  {
    PruneSpec(meetings);
    PruneOfSettled(Prune(meetings).value);
  }

  /** The meetings as JSON values again. */
  function Objs(meetings: seq<Dict>): (r: seq<Json>)
    ensures |r| == |meetings|
    ensures forall i :: 0 <= i < |meetings| ==> r[i] == Obj(meetings[i])
  {
    seq(|meetings|, i requires 0 <= i < |meetings| => Obj(meetings[i]))
  }

  // ---------------------------------------------------------------------
  // process_file

  /** What process_file does to one decoded file: leaves it, rewrites it
      (returning True), or raises on a meeting that is not a dict. */
  datatype FileResult = Unchanged | Rewritten(data: Dict) | Raises

  /** process_file on a decoded file, with `now` the timestamp it records. */
  function ProcessedFile(data: Dict, now: string): FileResult
  {
    var meetings := Get(data, "meetings");
    if !meetings.List? then Unchanged
    else
      var pruned := Prune(meetings.items);
      if pruned.None? then Raises
      else if |pruned.value| == |meetings.items| then Unchanged
      else Rewritten(data["meetings" := List(Objs(pruned.value))][TimestampKey := Str(now)])
  }

  method ProcessFile(data: Dict, now: string) returns (result: FileResult)
    ensures result == ProcessedFile(data, now)
  {
    var meetings := Get(data, "meetings");
    if !meetings.List? {
      return Unchanged;
    }
    var originalCount := |meetings.items|;
    var newMeetings := PruneMeetings(meetings.items);
    if newMeetings.None? {
      return Raises;
    }
    if |newMeetings.value| == originalCount {
      return Unchanged;
    }
    var written := data["meetings" := List(Objs(newMeetings.value))];
    written := written[TimestampKey := Str(now)];
    return Rewritten(written);
  }

  /** A file is rewritten exactly when its meetings are a list of dicts
      and pruning dropped at least one of them. */
  lemma RewrittenIff(data: Dict, now: string)
    ensures ProcessedFile(data, now).Rewritten? <==>
              var meetings := Get(data, "meetings");
              meetings.List? && Prune(meetings.items).Some? && |Prune(meetings.items).value| < |meetings.items|
  {
  }

  /** A rewritten file keeps its other keys, holds only settled meetings
      and records the timestamp. */
  lemma RewrittenSpec(data: Dict, now: string)
    requires ProcessedFile(data, now).Rewritten?
    ensures var out := ProcessedFile(data, now).data;
            && (forall k :: k in data && k != "meetings" && k != TimestampKey ==> k in out && out[k] == data[k])
            && Get(out, TimestampKey) == Str(now)
            && Get(out, "meetings").List?
            && (forall m :: m in Get(out, "meetings").items ==> m.Obj? && Settled(m.fields))
  {
    var kept := Prune(Get(data, "meetings").items).value;
    PruneSpec(Get(data, "meetings").items);
    var out := ProcessedFile(data, now).data;
    forall m | m in Get(out, "meetings").items
      ensures m.Obj? && Settled(m.fields)
    {
      var i :| 0 <= i < |kept| && Objs(kept)[i] == m;
      assert kept[i] in kept;
    }
  }

  /** Running the tool again on a file it rewrote changes nothing. */
  lemma ProcessIdempotent(data: Dict, now: string, later: string)
    requires ProcessedFile(data, now).Rewritten?
    ensures ProcessedFile(ProcessedFile(data, now).data, later) == Unchanged
  {
    var kept := Prune(Get(data, "meetings").items).value;
    PruneSpec(Get(data, "meetings").items);
    PruneOfSettled(kept);
    var out := ProcessedFile(data, now).data;
    assert Get(out, "meetings") == List(Objs(kept));
  }

  // ---------------------------------------------------------------------
  // main

  /** The number of files main reports as updated, or None when a file
      raises. */
  function UpdatedCount(files: seq<Dict>, now: string): (n: Option<nat>)
    ensures n.Some? ==> n.value <= |files|
    decreases |files|
  {
    if files == [] then Some(0)
    else
      var before := UpdatedCount(files[..|files| - 1], now);
      var result := ProcessedFile(files[|files| - 1], now);
      if before.None? || result.Raises? then None
      else if result.Rewritten? then Some(before.value + 1)
      else before
  }

  /** The new contents of the files process_file rewrites, in file order. */
  function RewrittenData(files: seq<Dict>, now: string): (r: seq<Dict>)
    ensures |r| <= |files|
    decreases |files|
  {
    if files == [] then []
    else
      var before := RewrittenData(files[..|files| - 1], now);
      var result := ProcessedFile(files[|files| - 1], now);
      if result.Rewritten? then before + [result.data] else before
  }

  /** One new content per file counted as updated. */
  lemma {:induction false} RewrittenDataCount(files: seq<Dict>, now: string)
    requires UpdatedCount(files, now).Some?
    ensures |RewrittenData(files, now)| == UpdatedCount(files, now).value
    decreases |files|
  {
    if files != [] {
      RewrittenDataCount(files[..|files| - 1], now);
    }
  }

  /** The new contents are exactly those of the files that are rewritten. */
  lemma {:induction false} RewrittenDataMembers(files: seq<Dict>, now: string)
    ensures forall d :: d in RewrittenData(files, now) <==>
              exists i :: 0 <= i < |files| && ProcessedFile(files[i], now) == Rewritten(d)
    decreases |files|
  {
    if files != [] {
      var init := files[..|files| - 1];
      RewrittenDataMembers(init, now);
      forall d
        ensures (exists i :: 0 <= i < |files| && ProcessedFile(files[i], now) == Rewritten(d)) <==>
                (exists i :: 0 <= i < |init| && ProcessedFile(init[i], now) == Rewritten(d)) ||
                ProcessedFile(files[|files| - 1], now) == Rewritten(d)
      {
        if i :| 0 <= i < |files| && ProcessedFile(files[i], now) == Rewritten(d) {
          if i < |init| {
            assert init[i] == files[i];
          }
        }
        if i :| 0 <= i < |init| && ProcessedFile(init[i], now) == Rewritten(d) {
          assert files[i] == init[i];
        }
      }
    }
  }

  /** main's loop; the files' new contents are the `written` list, in the
      order of the files rewritten. When a file raises, the files before it
      have already been written. */
  method ProcessAll(files: seq<Dict>, now: string) returns (updated: Option<nat>, written: seq<Dict>)
    ensures updated == UpdatedCount(files, now)
    ensures updated.Some? ==> |written| == updated.value
    ensures updated.Some? ==> written == RewrittenData(files, now)
    ensures updated.None? ==>
              exists n :: 0 <= n < |files| && ProcessedFile(files[n], now).Raises? &&
                          UpdatedCount(files[..n], now).Some? && written == RewrittenData(files[..n], now)
  {
    var count := 0;
    written := [];
    assert files[..0] == [];
    for k := 0 to |files|
      invariant UpdatedCount(files[..k], now) == Some(count)
      invariant |written| == count
      invariant written == RewrittenData(files[..k], now)
    {
      assert files[..k + 1][..k] == files[..k];
      var result := ProcessFile(files[k], now);
      if result.Raises? {
        UpdatedRaises(files, k + 1, now);
        return None, written;
      }
      if result.Rewritten? {
        count := count + 1;
        written := written + [result.data];
      }
    }
    assert files[..|files|] == files;
    updated := Some(count);
  }

  lemma {:induction false} UpdatedRaises(files: seq<Dict>, n: nat, now: string)
    requires n <= |files| && UpdatedCount(files[..n], now).None?
    ensures UpdatedCount(files, now).None?
    decreases |files| - n
  {
    if n < |files| {
      assert files[..n + 1][..n] == files[..n];
      UpdatedRaises(files, n + 1, now);
    } else {
      assert files[..n] == files;
    }
  }
}
