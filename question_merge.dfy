/** parliament/tools/merge_written_questions.py: submitter names are
    normalised and looked up in the member index, each member's listings are
    merged into the questions already in the member's file, and files are
    rewritten only when the merge changed them. File paths are strings;
    reading and writing files is left to the caller (`files` holds the
    member files that parse, `writes` the files to be written). Text is taken
    as already NFKC-normalised. */
module QuestionMerge {
  import opened Values
  import opened Text

  // normalize_name

  /** `text[: -len(suffix)]` when the text ends with the suffix. */
  function StripSuffix(text: string, suffix: string): (r: string)
    ensures |r| <= |text| && r == text[..|r|]
    ensures EndsWith(text, suffix) ==> r + suffix == text
    ensures !EndsWith(text, suffix) ==> r == text
  {
    if EndsWith(text, suffix) then text[..|text| - |suffix|] else text
  }

  /** The text with every ASCII and full-width space removed. */
  function SpaceFree(s: string): (r: string)
    ensures ' ' !in r && '　' !in r
  {
    Remove(Remove(s, ' '), '　')
  }

  /** The honorifics 君外, 君 and 議員 stripped, once each and in that order. */
  function StripHonorifics(text: string): (r: string)
    ensures |r| <= |text| && r == text[..|r|]
  {
    StripSuffix(StripSuffix(StripSuffix(text, "君外"), "君"), "議員")
  }

  /** A submitter or member name without spaces or honorific; a falsy value
      gives "". */
  function NormalizeName(value: Json): (r: string)
    ensures !Truthy(value) ==> r == ""
    ensures ' ' !in r && '　' !in r
  {
    if !Truthy(value) then "" else StripHonorifics(SpaceFree(TextOf(value)))
  }

  lemma SpaceFreeOfSpaceless(s: string)
    requires ' ' !in s && '　' !in s
    ensures SpaceFree(s) == s
  {
    RemoveAbsent(s, ' ');
    RemoveAbsent(s, '　');
  }

  /** The three strips are tried in order, each once: "X議員君" loses both
      honorifics, "X君君" only one 君. */
  lemma HonorificsStrippedInOrder(x: string)
    requires ' ' !in x && '　' !in x
    ensures NormalizeName(Str(x + "議員君")) == x
  {
    SpaceFreeOfSpaceless(x + "議員君");
    StripBoth(x);
  }

  lemma HonorificStrippedOnce(x: string)
    requires ' ' !in x && '　' !in x
    ensures NormalizeName(Str(x + "君君")) == x + "君"
  {
    SpaceFreeOfSpaceless(x + "君君");
    StripOneOnly(x);
  }

  /** 君外 goes as a whole, before 君 is tried. */
  lemma CompoundHonorificStripped(x: string)
    requires ' ' !in x && '　' !in x && !EndsWith(x, "君") && !EndsWith(x, "議員")
    ensures NormalizeName(Str(x + "君外")) == x
  {
    SpaceFreeOfSpaceless(x + "君外");
    var a := x + "君外";
    assert a[|a| - 2..] == "君外" && a[..|a| - 2] == x;
  }

  lemma StripBoth(x: string)
    ensures StripHonorifics(x + "議員君") == x
  {
    var a := x + "議員君";
    assert a[|a| - 2..] == "員君";
    assert StripSuffix(a, "君外") == a;
    assert a[|a| - 1..] == "君" && a[..|a| - 1] == x + "議員";
    var b := x + "議員";
    assert b[|b| - 2..] == "議員" && b[..|b| - 2] == x;
  }

  lemma StripOneOnly(x: string)
    ensures StripHonorifics(x + "君君") == x + "君"
  {
    var a := x + "君君";
    assert a[|a| - 2..] == "君君";
    assert StripSuffix(a, "君外") == a;
    assert a[|a| - 1..] == "君" && a[..|a| - 1] == x + "君";
    var b := x + "君";
    assert |b| >= 2 ==> b[|b| - 1] == '君';
    assert StripSuffix(b, "議員") == b;
  }

  /** A space anywhere in a name does not change its key. */
  lemma SpacesIgnored(x: string, y: string, c: char)
    requires c == ' ' || c == '　'
    ensures SpaceFree(x + [c] + y) == SpaceFree(x + y)
  {
    SpaceFreeAppend(x + [c], y);
    SpaceFreeAppend(x, [c]);
    SpaceFreeAppend(x, y);
    SpaceFreeOfSpace(c);
    assert SpaceFree(x) + SpaceFree([c]) == SpaceFree(x);
  }

  lemma SpaceFreeOfSpace(c: char)
    requires c == ' ' || c == '　'
    ensures SpaceFree([c]) == []
  {
    assert Remove([c], ' ') == if c == ' ' then [] else [c];
  }

  lemma SpaceFreeAppend(a: string, b: string)
    ensures SpaceFree(a + b) == SpaceFree(a) + SpaceFree(b)
  {
    RemoveAppend(a, b, ' ');
    RemoveAppend(Remove(a, ' '), Remove(b, ' '), '　');
  }

  lemma {:induction false} RemoveAppend(a: string, b: string, c: char)
    ensures Remove(a + b, c) == Remove(a, c) + Remove(b, c)
    decreases |a|
  {
    if a != [] {
      assert (a + b)[1..] == a[1..] + b;
      RemoveAppend(a[1..], b, c);
    } else {
      assert a + b == b;
    }
  }

  // merge_questions

  type Path = string

  /** The member file a listing belongs to, if the index knows its
      submitter. Index values are paths, which are always truthy, so the
      lookup fails exactly when the key is missing. */
  function Target(entry: Dict, index: map<string, Path>): Option<Path>
  {
    var key := NormalizeName(Get(entry, "submitter"));
    if key in index then Some(index[key]) else None
  }

  /** `Target` as a function of the entry. */
  function TargetIn(index: map<string, Path>): Dict -> Option<Path>
  {
    entry => Target(entry, index)
  }

  /** The listings no member file claims, in order. */
  function Unmatched(listings: seq<Dict>, target: Dict -> Option<Path>): (r: seq<Dict>)
    ensures forall k :: 0 <= k < |r| ==> r[k] in listings && target(r[k]).None?
    decreases |listings|
  {
    if listings == [] then []
    else
      var init := Unmatched(listings[..|listings| - 1], target);
      var e := listings[|listings| - 1];
      assert forall k :: 0 <= k < |init| ==> init[k] in listings;
      if target(e).None? then init + [e] else init
  }

  /** The listings of member file `path`, in order. */
  function AssignedTo(listings: seq<Dict>, target: Dict -> Option<Path>, path: Path): (r: seq<Dict>)
    ensures forall k :: 0 <= k < |r| ==> r[k] in listings && target(r[k]) == Some(path)
    decreases |listings|
  {
    if listings == [] then []
    else
      var init := AssignedTo(listings[..|listings| - 1], target, path);
      var e := listings[|listings| - 1];
      assert forall k :: 0 <= k < |init| ==> init[k] in listings;
      if target(e) == Some(path) then init + [e] else init
  }

  /** merge_questions: the listings grouped by member file (a file appears
      once it has a listing) and the unmatched listings. */
  method MergeListings(listings: seq<Dict>, index: map<string, Path>)
    returns (perMember: map<Path, seq<Dict>>, unmatched: seq<Dict>)
    ensures unmatched == Unmatched(listings, TargetIn(index))
    ensures forall p :: p in perMember <==> AssignedTo(listings, TargetIn(index), p) != []
    ensures forall p :: p in perMember ==> perMember[p] == AssignedTo(listings, TargetIn(index), p)
  {
    perMember := map[];
    unmatched := [];
    for k := 0 to |listings|
      invariant unmatched == Unmatched(listings[..k], TargetIn(index))
      invariant forall p :: p in perMember <==> AssignedTo(listings[..k], TargetIn(index), p) != []
      invariant forall p :: p in perMember ==> perMember[p] == AssignedTo(listings[..k], TargetIn(index), p)
    {
      assert listings[..k + 1][..k] == listings[..k];
      var entry := listings[k];
      var key := NormalizeName(Get(entry, "submitter"));
      if key !in index {
        unmatched := unmatched + [entry];
      } else {
        var path := index[key];
        var group := if path in perMember then perMember[path] else [];
        perMember := perMember[path := group + [entry]];
      }
    }
    assert listings[..|listings|] == listings;
  }

  /** Each listing lands in exactly one place: as many copies of it are
      unmatched or in its member's group as there are in the input. */
  lemma MergePartition(listings: seq<Dict>, index: map<string, Path>, e: Dict)
    ensures multiset(listings)[e] ==
              match Target(e, index)
              case None => multiset(Unmatched(listings, TargetIn(index)))[e]
              case Some(p) => multiset(AssignedTo(listings, TargetIn(index), p))[e]
  {
    match Target(e, index)
    case None => UnmatchedCount(listings, TargetIn(index), e);
    case Some(p) => AssignedCount(listings, TargetIn(index), p, e);
  }

  lemma {:induction false} UnmatchedCount(listings: seq<Dict>, target: Dict -> Option<Path>, e: Dict)
    requires target(e).None?
    ensures multiset(Unmatched(listings, target))[e] == multiset(listings)[e]
    decreases |listings|
  {
    if listings != [] {
      var init, last := listings[..|listings| - 1], listings[|listings| - 1];
      UnmatchedCount(init, target, e);
      assert listings == init + [last];
    }
  }

  lemma {:induction false} AssignedCount(listings: seq<Dict>, target: Dict -> Option<Path>, p: Path, e: Dict)
    requires target(e) == Some(p)
    ensures multiset(AssignedTo(listings, target, p))[e] == multiset(listings)[e]
    decreases |listings|
  {
    if listings != [] {
      var init, last := listings[..|listings| - 1], listings[|listings| - 1];
      AssignedCount(init, target, p, e);
      assert listings == init + [last];
    }
  }

  // dedupe_questions

  /** The question key: a truthy question_id, else (session, number, title). */
  datatype QKey = ById(id: Json) | ByFields(session: Json, number: Json, title: Json)

  function KeyOf(d: Dict): QKey
  {
    var id := Get(d, "question_id");
    if Truthy(id) then ById(id) else ByFields(Get(d, "session"), Get(d, "number"), Get(d, "title"))
  }

  /** `update` with a dict of the same key keeps the key. */
  lemma KeyOfUpdate(a: Dict, b: Dict)
    requires KeyOf(b) == KeyOf(a)
    ensures KeyOf(a + b) == KeyOf(a)
  {
    var ab := a + b;
    assert Get(ab, "question_id") == if "question_id" in b then b["question_id"] else Get(a, "question_id");
    assert Get(ab, "session") == if "session" in b then b["session"] else Get(a, "session");
    assert Get(ab, "number") == if "number" in b then b["number"] else Get(a, "number");
    assert Get(ab, "title") == if "title" in b then b["title"] else Get(a, "title");
  }

  /** The merge state: the question list and, per key, the position of the
      dict `seen_ids` holds for it. */
  datatype State = State(cleaned: seq<Dict>, seen: map<QKey, nat>)

  function KeySet(ds: seq<Dict>): set<QKey>
  {
    set d | d in ds :: KeyOf(d)
  }

  /** `seen` points into the list at a dict of its key, and knows every key
      in the list. */
  predicate Indexed(st: State)
  {
    && (forall key :: key in st.seen ==> st.seen[key] < |st.cleaned| && KeyOf(st.cleaned[st.seen[key]]) == key)
    && (forall k :: 0 <= k < |st.cleaned| ==> KeyOf(st.cleaned[k]) in st.seen)
  }

  /** One item of the existing list: a dict is kept and becomes the one seen
      for its key; anything else is dropped. */
  function SeedItem(st: State, item: Json): State
  {
    if item.Obj? then State(st.cleaned + [item.fields], st.seen[KeyOf(item.fields) := |st.cleaned|]) else st
  }

  function Seed(st: State, existing: seq<Json>): State
    decreases |existing|
  {
    if existing == [] then st else Seed(SeedItem(st, existing[0]), existing[1..])
  }

  /** One addition: merged into the dict seen for its key, or appended. */
  function AddEntry(st: State, entry: Dict): State
  {
    var key := KeyOf(entry);
    if key in st.seen && st.seen[key] < |st.cleaned| then
      var i := st.seen[key];
      st.(cleaned := st.cleaned[i := st.cleaned[i] + entry])
    else
      State(st.cleaned + [entry], st.seen[key := |st.cleaned|])
  }

  function AddAll(st: State, additions: seq<Dict>): State
    decreases |additions|
  {
    if additions == [] then st else AddAll(AddEntry(st, additions[0]), additions[1..])
  }

  /** The list `dedupe_questions` returns. */
  function Deduped(existing: seq<Json>, additions: seq<Dict>): seq<Dict>
  {
    AddAll(Seed(State([], map[]), existing), additions).cleaned
  }

  /** dedupe_questions */
  method DedupeQuestions(existing: seq<Json>, additions: seq<Dict>) returns (cleaned: seq<Dict>)
    ensures cleaned == Deduped(existing, additions)
  {
    var seen: map<QKey, nat> := map[];
    cleaned := [];
    for k := 0 to |existing|
      invariant Seed(State(cleaned, seen), existing[k..]) == Seed(State([], map[]), existing)
      invariant forall key :: key in seen ==> seen[key] < |cleaned|
    {
      assert existing[k..][1..] == existing[k + 1..];
      var item := existing[k];
      if item.Obj? {
        seen := seen[KeyOf(item.fields) := |cleaned|];
        cleaned := cleaned + [item.fields];
      }
    }
    for k := 0 to |additions|
      invariant AddAll(State(cleaned, seen), additions[k..]) == AddAll(Seed(State([], map[]), existing), additions)
      invariant forall key :: key in seen ==> seen[key] < |cleaned|
    {
      assert additions[k..][1..] == additions[k + 1..];
      var entry := additions[k];
      var key := KeyOf(entry);
      if key in seen {
        var i := seen[key];
        cleaned := cleaned[i := cleaned[i] + entry];
      } else {
        seen := seen[key := |cleaned|];
        cleaned := cleaned + [entry];
      }
    }
  }

  /** The dict items of a list, in order. */
  function Dicts(items: seq<Json>): (ds: seq<Dict>)
    ensures |ds| <= |items|
    decreases |items|
  {
    if items == [] then []
    else (if items[0].Obj? then [items[0].fields] else []) + Dicts(items[1..])
  }

  /** How many additions bring a key not seen before them. */
  function CountNew(seen: set<QKey>, additions: seq<Dict>): nat
    decreases |additions|
  {
    if additions == [] then 0
    else if KeyOf(additions[0]) in seen then CountNew(seen, additions[1..])
    else 1 + CountNew(seen + {KeyOf(additions[0])}, additions[1..])
  }

  lemma {:induction false} CountNewZero(seen: set<QKey>, additions: seq<Dict>)
    ensures CountNew(seen, additions) == 0 <==> forall j :: 0 <= j < |additions| ==> KeyOf(additions[j]) in seen
    decreases |additions|
  {
    if additions != [] {
      CountNewZero(seen, additions[1..]);
      assert forall j :: 1 <= j < |additions| ==> additions[j] == additions[1..][j - 1];
    }
  }

  lemma SeedDicts(st: State, existing: seq<Json>)
    requires Indexed(st)
    ensures Indexed(Seed(st, existing))
    ensures Seed(st, existing).cleaned == st.cleaned + Dicts(existing)
  {
    SeedIndexed(st, existing);
    SeedCleaned(st, existing);
  }

  lemma {:induction false} SeedIndexed(st: State, existing: seq<Json>)
    requires Indexed(st)
    ensures Indexed(Seed(st, existing))
    decreases |existing|
  {
    if existing != [] {
      SeedItemStep(st, existing[0]);
      SeedIndexed(SeedItem(st, existing[0]), existing[1..]);
    }
  }

  lemma {:induction false} SeedCleaned(st: State, existing: seq<Json>)
    ensures Seed(st, existing).cleaned == st.cleaned + Dicts(existing)
    decreases |existing|
  {
    if existing != [] {
      var st' := SeedItem(st, existing[0]);
      SeedCleaned(st', existing[1..]);
      var d := if existing[0].Obj? then [existing[0].fields] else [];
      assert st'.cleaned == st.cleaned + d;
      assert Dicts(existing) == d + Dicts(existing[1..]);
      assert st.cleaned + d + Dicts(existing[1..]) == st.cleaned + (d + Dicts(existing[1..]));
    }
  }

  lemma SeedItemStep(st: State, item: Json)
    requires Indexed(st)
    ensures Indexed(SeedItem(st, item))
    ensures SeedItem(st, item).cleaned == st.cleaned + (if item.Obj? then [item.fields] else [])
  {
    if item.Obj? {
      var st' := SeedItem(st, item);
      assert forall k :: 0 <= k < |st.cleaned| ==> st'.cleaned[k] == st.cleaned[k];
    }
  }

  /** An indexed state knows exactly the keys of its list. */
  lemma IndexedKeys(st: State, key: QKey)
    requires Indexed(st)
    ensures (key in st.seen && st.seen[key] < |st.cleaned|) <==> key in KeySet(st.cleaned)
  {
    if key in KeySet(st.cleaned) {
      var d :| d in st.cleaned && KeyOf(d) == key;
      var k :| 0 <= k < |st.cleaned| && st.cleaned[k] == d;
    }
    if key in st.seen && st.seen[key] < |st.cleaned| {
      assert st.cleaned[st.seen[key]] in st.cleaned;
    }
  }

  /** Dict `k` of `b` extends dict `k` of `a`, for every `k` of `a`. */
  predicate Extends(a: seq<Dict>, b: seq<Dict>)
  {
    |a| <= |b| && forall k :: 0 <= k < |a| ==> KeyOf(b[k]) == KeyOf(a[k]) && a[k].Keys <= b[k].Keys
  }

  lemma AddEntryStep(st: State, entry: Dict)
    requires Indexed(st)
    ensures Indexed(AddEntry(st, entry))
    ensures Extends(st.cleaned, AddEntry(st, entry).cleaned)
    ensures KeySet(AddEntry(st, entry).cleaned) == KeySet(st.cleaned) + {KeyOf(entry)}
    ensures |AddEntry(st, entry).cleaned| == |st.cleaned| + (if KeyOf(entry) in KeySet(st.cleaned) then 0 else 1)
  {
    IndexedKeys(st, KeyOf(entry));
    if KeyOf(entry) in KeySet(st.cleaned) {
      MergeStep(st, entry);
    } else {
      AppendStep(st, entry);
    }
  }

  lemma MergeStep(st: State, entry: Dict)
    requires Indexed(st)
    requires KeyOf(entry) in st.seen && st.seen[KeyOf(entry)] < |st.cleaned|
    ensures Indexed(AddEntry(st, entry))
    ensures Extends(st.cleaned, AddEntry(st, entry).cleaned)
    ensures KeySet(AddEntry(st, entry).cleaned) == KeySet(st.cleaned)
    ensures |AddEntry(st, entry).cleaned| == |st.cleaned|
  {
    var key := KeyOf(entry);
    var st' := AddEntry(st, entry);
    var i := st.seen[key];
    KeyOfUpdate(st.cleaned[i], entry);
    assert forall k :: 0 <= k < |st.cleaned| ==> KeyOf(st'.cleaned[k]) == KeyOf(st.cleaned[k]);
    KeySetSameKeys(st.cleaned, st'.cleaned);
  }

  lemma KeySetSameKeys(a: seq<Dict>, b: seq<Dict>)
    requires |a| == |b| && forall k :: 0 <= k < |a| ==> KeyOf(b[k]) == KeyOf(a[k])
    ensures KeySet(a) == KeySet(b)
  {
    forall x | x in KeySet(b) ensures x in KeySet(a) {
      var d :| d in b && KeyOf(d) == x;
      var k :| 0 <= k < |b| && b[k] == d;
      assert a[k] in a;
    }
    forall x | x in KeySet(a) ensures x in KeySet(b) {
      var d :| d in a && KeyOf(d) == x;
      var k :| 0 <= k < |a| && a[k] == d;
      assert b[k] in b;
    }
  }

  lemma AppendStep(st: State, entry: Dict)
    requires Indexed(st)
    requires !(KeyOf(entry) in st.seen && st.seen[KeyOf(entry)] < |st.cleaned|)
    ensures Indexed(AddEntry(st, entry))
    ensures AddEntry(st, entry).cleaned == st.cleaned + [entry]
    ensures KeySet(AddEntry(st, entry).cleaned) == KeySet(st.cleaned) + {KeyOf(entry)}
  {
    var st' := AddEntry(st, entry);
    assert forall k :: 0 <= k < |st.cleaned| ==> st'.cleaned[k] == st.cleaned[k];
    assert entry in st'.cleaned;
  }

  lemma {:induction false} AddAllSteps(st: State, additions: seq<Dict>)
    requires Indexed(st)
    ensures Indexed(AddAll(st, additions))
    ensures Extends(st.cleaned, AddAll(st, additions).cleaned)
    ensures |AddAll(st, additions).cleaned| == |st.cleaned| + CountNew(KeySet(st.cleaned), additions)
    decreases |additions|
  {
    if additions != [] {
      var st' := AddEntry(st, additions[0]);
      AddEntryStep(st, additions[0]);
      AddAllSteps(st', additions[1..]);
      CountNewStep(KeySet(st.cleaned), additions);
      ExtendsTransitive(st.cleaned, st'.cleaned, AddAll(st', additions[1..]).cleaned);
    }
  }

  /** A key counted once is seen from then on. */
  lemma CountNewStep(seen: set<QKey>, additions: seq<Dict>)
    requires additions != []
    ensures var key := KeyOf(additions[0]);
            CountNew(seen, additions) == (if key in seen then 0 else 1) + CountNew(seen + {key}, additions[1..])
  {
    var key := KeyOf(additions[0]);
    if key in seen {
      assert seen + {key} == seen;
    }
  }

  lemma ExtendsTransitive(a: seq<Dict>, b: seq<Dict>, c: seq<Dict>)
    requires Extends(a, b) && Extends(b, c)
    ensures Extends(a, c)
  {
  }

  /** dedupe_questions keeps the existing dicts first, in order, each with
      its key and at least its fields, and appends one dict per addition
      whose key was not seen before it: the output has the existing dict
      count plus that many. */
  lemma DedupeShape(existing: seq<Json>, additions: seq<Dict>)
    ensures Extends(Dicts(existing), Deduped(existing, additions))
    ensures |Deduped(existing, additions)| == |Dicts(existing)| + CountNew(KeySet(Dicts(existing)), additions)
  {
    SeedDicts(State([], map[]), existing);
    assert [] + Dicts(existing) == Dicts(existing);
    AddAllSteps(Seed(State([], map[]), existing), additions);
  }

  // the change check of update_member_files

  function Objs(ds: seq<Dict>): (items: seq<Json>)
    ensures |items| == |ds|
  {
    seq(|ds|, k requires 0 <= k < |ds| => Obj(ds[k]))
  }

  /** The caller's existing list after the merge: its dicts are the very
      objects the merge updated in place, so each reads as the dict at the
      same position of the merged list. */
  function Rebind(existing: seq<Json>, cleaned: seq<Dict>): (r: seq<Json>)
    ensures |r| == |existing|
    decreases |existing|
  {
    if existing == [] then []
    else if existing[0].Obj? && cleaned != [] then [Obj(cleaned[0])] + Rebind(existing[1..], cleaned[1..])
    else [existing[0]] + Rebind(existing[1..], cleaned)
  }

  predicate AllDicts(items: seq<Json>)
  {
    forall k :: 0 <= k < |items| ==> items[k].Obj?
  }

  lemma {:induction false} RebindAllDicts(existing: seq<Json>, cleaned: seq<Dict>)
    requires AllDicts(existing) && |cleaned| == |existing|
    ensures Rebind(existing, cleaned) == Objs(cleaned)
    decreases |existing|
  {
    if existing != [] {
      RebindAllDicts(existing[1..], cleaned[1..]);
      assert Objs(cleaned) == [Obj(cleaned[0])] + Objs(cleaned[1..]);
    }
  }

  lemma {:induction false} DictsOfAllDicts(items: seq<Json>)
    requires AllDicts(items)
    ensures |Dicts(items)| == |items|
    decreases |items|
  {
    if items != [] {
      DictsOfAllDicts(items[1..]);
    }
  }

  /** When the existing list holds only dicts, the merged list compares
      equal to it exactly when every addition's key is already there: the
      in-place updates make a merge that only touches existing questions
      invisible to the check. */
  lemma NoChangeIffOverlapping(existing: seq<Json>, additions: seq<Dict>)
    requires AllDicts(existing)
    ensures var merged := Deduped(existing, additions);
            Objs(merged) == Rebind(existing, merged) <==>
              forall j :: 0 <= j < |additions| ==> KeyOf(additions[j]) in KeySet(Dicts(existing))
  {
    var merged := Deduped(existing, additions);
    DedupeShape(existing, additions);
    DictsOfAllDicts(existing);
    CountNewZero(KeySet(Dicts(existing)), additions);
    if CountNew(KeySet(Dicts(existing)), additions) == 0 {
      RebindAllDicts(existing, merged);
    } else {
      assert |Objs(merged)| != |Rebind(existing, merged)|;
    }
  }

  // update_member_files

  /** The `written_questions` list of a member file, or [] when it is not a
      list. */
  function ExistingList(data: Dict): seq<Json>
  {
    var v := Get(data, "written_questions");
    if v.List? then v.items else []
  }

  /** The merged list when the merge changes the file, else None. */
  function MergedIfChanged(data: Dict, entries: seq<Dict>): Option<seq<Dict>>
  {
    var existing := ExistingList(data);
    var merged := Deduped(existing, entries);
    if Objs(merged) == Rebind(existing, merged) then None else Some(merged)
  }

  /** A per-file merge: the merged list when it changes the file, else
      None. */
  type Merge = (Dict, seq<Dict>) -> Option<seq<Dict>>

  /** A changed file: its path, its contents as read, and its merged list. */
  datatype Change = Change(path: Path, data: Dict, merged: seq<Dict>)

  /** What one assignment contributes to the changed files: the file when it
      parsed and the merge changes it. */
  function Added(a: (Path, seq<Dict>), files: map<Path, Dict>, merge: Merge): (r: seq<Change>)
    ensures |r| <= 1
  {
    if a.0 in files && merge(files[a.0], a.1).Some? then [Change(a.0, files[a.0], merge(files[a.0], a.1).value)]
    else []
  }

  /** The files the update changes, in assignment order. A file missing
      from `files` did not parse and is skipped. */
  function Changed(assignments: seq<(Path, seq<Dict>)>, files: map<Path, Dict>, merge: Merge): (r: seq<Change>)
    ensures |r| <= |assignments|
    decreases |assignments|
  {
    if assignments == [] then []
    else Changed(assignments[..|assignments| - 1], files, merge) + Added(assignments[|assignments| - 1], files, merge)
  }

  function TotalLength(changed: seq<Change>): nat
    decreases |changed|
  {
    if changed == [] then 0 else TotalLength(changed[..|changed| - 1]) + |changed[|changed| - 1].merged|
  }

  lemma TotalLengthAppend(changed: seq<Change>, c: Change)
    ensures TotalLength(changed + [c]) == TotalLength(changed) + |c.merged|
  {
    assert (changed + [c])[..|changed|] == changed;
  }

  /** A changed file as written: the merged list and the merge time. */
  function Rewritten(data: Dict, merged: seq<Dict>, now: string): Dict
  {
    data["written_questions" := List(Objs(merged))]["written_questions_merged_at" := Str(now)]
  }

  function Writes(changed: seq<Change>, now: string): (ws: seq<(Path, Dict)>)
    ensures |ws| == |changed|
  {
    seq(|changed|, k requires 0 <= k < |changed| => (changed[k].path, Rewritten(changed[k].data, changed[k].merged, now)))
  }

  lemma WritesAppend(changed: seq<Change>, c: Change, now: string)
    ensures Writes(changed + [c], now) == Writes(changed, now) + [(c.path, Rewritten(c.data, c.merged, now))]
  {
  }

  /** update_member_files. The assignments come from a dictionary, so their
      paths are distinct and no file is read after being written. Returns the
      count of changed files, the total length of their merged lists, and
      the files to write, none under a dry run; the counts do not depend on
      the dry run. */
  method UpdateMemberFiles(assignments: seq<(Path, seq<Dict>)>, files: map<Path, Dict>, dryRun: bool, now: string)
    returns (updatedFiles: nat, totalQuestions: nat, writes: seq<(Path, Dict)>)
    requires forall i, j :: 0 <= i < j < |assignments| ==> assignments[i].0 != assignments[j].0
    ensures updatedFiles == |Changed(assignments, files, MergedIfChanged)| <= |assignments|
    ensures totalQuestions == TotalLength(Changed(assignments, files, MergedIfChanged))
    ensures writes == if dryRun then [] else Writes(Changed(assignments, files, MergedIfChanged), now)
  {
    updatedFiles, totalQuestions, writes := UpdateFilesBy(assignments, files, dryRun, now, MergedIfChanged);
  }

  /** The loop of update_member_files, for any per-file merge. */
  method UpdateFilesBy(assignments: seq<(Path, seq<Dict>)>, files: map<Path, Dict>, dryRun: bool, now: string, merge: Merge)
    returns (updatedFiles: nat, totalQuestions: nat, writes: seq<(Path, Dict)>)
    ensures updatedFiles == |Changed(assignments, files, merge)| <= |assignments|
    ensures totalQuestions == TotalLength(Changed(assignments, files, merge))
    ensures writes == if dryRun then [] else Writes(Changed(assignments, files, merge), now)
  {
    updatedFiles, totalQuestions, writes := 0, 0, [];
    for k := 0 to |assignments|
      invariant updatedFiles == |Changed(assignments[..k], files, merge)|
      invariant totalQuestions == TotalLength(Changed(assignments[..k], files, merge))
      invariant writes == if dryRun then [] else Writes(Changed(assignments[..k], files, merge), now)
    {
      ghost var before := Changed(assignments[..k], files, merge);
      ChangedPrefix(assignments, k, files, merge);
      var (path, entries) := assignments[k];
      if path !in files {
        assert Changed(assignments[..k + 1], files, merge) == before;
        continue;
      }
      var data := files[path];
      var result := merge(data, entries);
      if result.None? {
        assert Changed(assignments[..k + 1], files, merge) == before;
        continue;
      }
      var merged := result.value;
      assert Changed(assignments[..k + 1], files, merge) == before + [Change(path, data, merged)];
      TotalLengthAppend(before, Change(path, data, merged));
      totalQuestions := totalQuestions + |merged|;
      updatedFiles := updatedFiles + 1;
      if dryRun {
        continue;
      }
      writes := writes + [(path, Rewritten(data, merged, now))];
      WritesAppend(before, Change(path, data, merged), now);
    }
    assert assignments[..|assignments|] == assignments;
  }

  /** The merge of one member file: its merged list, and whether that
      compares unequal to the list the file had. */
  method MergeFile(data: Dict, entries: seq<Dict>) returns (merged: seq<Dict>, changed: bool)
    ensures changed <==> MergedIfChanged(data, entries).Some?
    ensures changed ==> merged == MergedIfChanged(data, entries).value
  {
    var existing := ExistingList(data);
    merged := DedupeQuestions(existing, entries);
    changed := Objs(merged) != Rebind(existing, merged);
  }

  lemma ChangedPrefix(assignments: seq<(Path, seq<Dict>)>, k: nat, files: map<Path, Dict>, merge: Merge)
    requires k < |assignments|
    ensures Changed(assignments[..k + 1], files, merge) == Changed(assignments[..k], files, merge) + Added(assignments[k], files, merge)
  {
    assert assignments[..k + 1][..k] == assignments[..k];
  }

  /** A file whose questions are all dicts and whose new entries all repeat
      questions it already has is not counted and not written. */
  lemma OverlappingFileSkipped(data: Dict, entries: seq<Dict>)
    requires AllDicts(ExistingList(data))
    requires forall j :: 0 <= j < |entries| ==> KeyOf(entries[j]) in KeySet(Dicts(ExistingList(data)))
    ensures MergedIfChanged(data, entries) == None
  {
    NoChangeIffOverlapping(ExistingList(data), entries);
  }
}
