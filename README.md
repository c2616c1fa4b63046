# Parliament tools: a verified model

This project models the record-processing core of the `parliament/tools`
scripts of a repository that collects Japanese Diet material on disability
welfare for each member of parliament:

- `add_name_slug.py` gives every member a file-name slug. It romanises the
  member's kana reading (katakana folding, then a cursor scan with small-tsu
  gemination, the prolongation mark, digraphs and the base syllables). When
  no reading works it falls back to an ASCII or hexadecimal form of the
  display name.
- `fetch_written_questions.py` parses the listing tables of written
  questions, matches titles against a keyword list, derives session numbers
  and question ids from URLs, deduplicates the rows and serialises them in
  a fixed order.
- `merge_written_questions.py` normalises submitter names, assigns each
  listing to a member file, merges the new questions into that file's list
  and rewrites only the files whose list changed.
- `fetch_member_speeches.py` makes each member's slug, filters procedural
  records out of the speech search results, keeps one record per speech id
  and groups the speeches by meeting.
- `remove_minister_speeches.py` and `find_minister_speeches.py` remove, or
  report, the speeches whose speaker header names a ministerial role.
- `postprocess_member_speeches.py` drops plenary meetings and meetings left
  without speeches.

One Dafny module stands for each script. Shared modules hold the rest:
- `Values`: decoded JSON and Python truthiness.
- `Text`: Python string methods.
- `Lists`: first occurrences.
- `Sorting`: Python's stable sort.
- `OrderedDicts`: insertion-ordered dictionaries.
- `SpeechHeader`: the header extraction the two minister tools share.

Loops of the scripts are methods with loop invariants. Each method is proved
equal to a specification function, and the lemmas state what the scripts
promise about those functions. The member list that `add_name_slug.py`
updates in place is an `array`. The listing parser, whose handlers mutate
its state, is a class. Each handler is proved to move the parser's state as
a step function on a state value does, and `feed` as the run of those
steps over the events.

## Model

| member | source | states |
|---|---|---|
| NameSlug.HiraganaMap | parliament/tools/add_name_slug.py:11-31 | every base mapping is non-empty lower-case romaji |
| NameSlug.Digraph2 | parliament/tools/add_name_slug.py:33-46 | every two-character digraph mapping is non-empty lower-case romaji |
| NameSlug.VEntriesUnreachable | parliament/tools/add_name_slug.py:45 | a two-character lookup never yields the three-character う゛ entries, which the table still holds |
| NameSlug.DigraphIsNotDecomposition | parliament/tools/add_name_slug.py:91-99 | a digraph's two characters are both mapped, and its mapping differs from the concatenation of their base mappings ("sha" is not "shiya") |
| NameSlug.DigraphHeadMapped | parliament/tools/add_name_slug.py:33-46 | the first kana of every digraph has a base mapping |
| NameSlug.RomajiWellFormed | parliament/tools/add_name_slug.py:11-49 | the two tables meet what the scan relies on: romaji values, digraph heads mapped, small tsu and ー unmapped |
| NameSlug.KatakanaToHiragana | parliament/tools/add_name_slug.py:52-60 | length is kept; every code point in U+30A1..U+30F3 moves down by 0x60; every other one (ー, ヴ included) is unchanged |
| NameSlug.FoldIdempotent | parliament/tools/add_name_slug.py:52-60 | no folded-range katakana remains after folding, so folding twice is folding once |
| NameSlug.FoldKeepsHiragana | parliament/tools/add_name_slug.py:52-60 | text without katakana of the range folds to itself |
| NameSlug.LastVowel | parliament/tools/add_name_slug.py:84-90 | the result is the last vowel of the segment (it occurs at some position with no vowel after it), and it is None exactly when the segment has no vowel |
| NameSlug.KanaTokenToRomaji | parliament/tools/add_name_slug.py:63-104 | the cursor loop computes the scan's romaji for the folded token |
| NameSlug.ScanGood | parliament/tools/add_name_slug.py:63-104 | with well-formed tables every emitted segment is non-empty lower-case romaji |
| NameSlug.ScanExtends | parliament/tools/add_name_slug.py:63-104 | the scan only appends: earlier segments stay in front |
| NameSlug.ScanEmptyIff | parliament/tools/add_name_slug.py:63-104 | nothing is emitted exactly when nothing was emitted before and no later character has a base mapping |
| NameSlug.ConcatGood | parliament/tools/add_name_slug.py:104 | joined segments are romaji, and "" exactly when there are no segments |
| NameSlug.RomaniseShape | parliament/tools/add_name_slug.py:100-104 | the romaji is lower-case a-z only, and "" exactly when no character maps |
| NameSlug.RomajiIsLowercase | parliament/tools/add_name_slug.py:63-104 | the romaji of any token is lower-case a-z only |
| NameSlug.RomajiEmptyIffNothingMapped | parliament/tools/add_name_slug.py:63-104 | a token romanises to "" exactly when none of its folded characters maps; unmapped characters are skipped, never fatal |
| NameSlug.RomajiIgnoresScript | parliament/tools/add_name_slug.py:64 | katakana and hiragana spellings romanise alike |
| NameSlug.DigraphStep | parliament/tools/add_name_slug.py:91-99 | a registered digraph is emitted as one segment, and the cursor moves past both characters |
| NameSlug.GeminationBeforeSyllable | parliament/tools/add_name_slug.py:70-83 | a small tsu before a plain syllable emits that syllable's first letter, and the cursor moves past the tsu only |
| NameSlug.GeminationBeforeDigraph | parliament/tools/add_name_slug.py:70-83 | a small tsu before a digraph emits the digraph's first letter, and the digraph follows whole |
| NameSlug.GeminationWithoutSource | parliament/tools/add_name_slug.py:70-83 | a small tsu at the end, or before an unmapped character, emits nothing |
| NameSlug.ProlongationRepeatsLastVowel | parliament/tools/add_name_slug.py:84-90 | ー appends the last vowel of the most recent segment only, and nothing when there is no segment or it has no vowel |
| NameSlug.PlainStep | parliament/tools/add_name_slug.py:100-103 | any other character emits its base mapping when it has one; the cursor moves by one |
| NameSlug.PlainScan | parliament/tools/add_name_slug.py:100-103 | without tsu, ー or digraph pairs, the scan is the concatenation of the base mappings |
| NameSlug.PlainRomanise | parliament/tools/add_name_slug.py:100-104 | the plain case of the whole token |
| NameSlug.DigraphExample | parliament/tools/add_name_slug.py:91-99 | "しゃ" gives "sha" |
| NameSlug.GeminationSegments | parliament/tools/add_name_slug.py:70-83 | "きっぷ" emits the segments "ki", "p", "pu" |
| NameSlug.GeminationExample | parliament/tools/add_name_slug.py:70-83 | "きっぷ" gives "kippu" |
| NameSlug.ProlongationSegments | parliament/tools/add_name_slug.py:84-90 | "ー" emits nothing, "とー" emits "to", "o", and "んー" emits only "n" |
| NameSlug.ProlongationExamples | parliament/tools/add_name_slug.py:84-90 | "ー" gives "", "トー" gives "too", "ンー" gives "n" |
| NameSlug.RomajiParts | parliament/tools/add_name_slug.py:113-117 | there is one romaji part per token |
| NameSlug.KanaToSlug | parliament/tools/add_name_slug.py:107-120 | the early-exit loop computes the reading slug |
| NameSlug.ReadingSlugNoneIff | parliament/tools/add_name_slug.py:107-120 | the reading is rejected exactly when it is missing, empty or all whitespace, or when some token romanises to "" |
| NameSlug.ReadingSlugComponents | parliament/tools/add_name_slug.py:113-120 | a slug is non-empty and splits at "_" into the romaji of every token, in order, none empty |
| NameSlug.ReadingSlugOfParts | parliament/tools/add_name_slug.py:113-120 | tokens with non-empty romaji give those parts joined by "_" |
| NameSlug.ReadingSlugExample | parliament/tools/add_name_slug.py:107-120 | "たなか　たろう" gives "tanaka_tarou" |
| NameSlug.JoinExample | parliament/tools/add_name_slug.py:120 | "tanaka" and "tarou" join to "tanaka_tarou" |
| NameSlug.AsciiKept | parliament/tools/add_name_slug.py:141 | only ASCII letters, digits and spaces are kept, and the result is empty exactly when the name has none |
| NameSlug.JoinAlnum | parliament/tools/add_name_slug.py:142-143 | lower-case alphanumeric parts joined by "_" are a delimited ASCII slug |
| NameSlug.FallbackAsciiForm | parliament/tools/add_name_slug.py:141-143 | the ASCII path yields the lower-cased space-separated runs joined by "_"; it is "" exactly when only spaces were kept |
| NameSlug.KeptSpacesIff | parliament/tools/add_name_slug.py:142-143 | the lower-cased kept text is all whitespace exactly when only spaces were kept |
| NameSlug.JoinedTokens | parliament/tools/add_name_slug.py:143 | non-empty alphanumeric tokens joined by "_" split back at "_" |
| NameSlug.TokenChars | parliament/tools/add_name_slug.py:142-143 | every token of the lower-cased kept text is lower-case alphanumeric |
| NameSlug.TokensDrawnFrom | parliament/tools/add_name_slug.py:143 | every character of every token occurs in the text |
| NameSlug.FallbackHexForm | parliament/tools/add_name_slug.py:144-145 | otherwise the slug is "member-" and the hex code points, which split back into the name's code points |
| NameSlug.FallbackAsciiExample | parliament/tools/add_name_slug.py:141-143 | "Smith" gives "smith" |
| NameSlug.FallbackEmptyExample | parliament/tools/add_name_slug.py:141-143 | "田中 太郎" gives "", because its only kept character is the space |
| NameSlug.FallbackHexExample | parliament/tools/add_name_slug.py:144-145 | "" gives "member-", and "田" gives "member-7530" |
| NameSlug.CountUnslugged | parliament/tools/add_name_slug.py:127-134 | the count of unslugged members is at most the number of members |
| NameSlug.VisitMembers | parliament/tools/add_name_slug.py:127-134 | in place, members with a truthy slug are untouched and every other member gets its slug; the count is the number of falsy slugs |
| NameSlug.AssignSlugs | parliament/tools/add_name_slug.py:126-134 | the same for main's concrete rule: the reading slug when there is one, else the fallback |
| NameSlug.AssignedOnce | parliament/tools/add_name_slug.py:127-134 | after one visit a member has a truthy slug unless it received ""; a second visit changes nothing |
| NameSlug.AssignAll | parliament/tools/add_name_slug.py:127-134 | the driver on a list keeps its length and visits each member |
| NameSlug.CountEmptySlugs | parliament/tools/add_name_slug.py:127-134 | members given "" are among those that had no slug |
| NameSlug.SecondRun | parliament/tools/add_name_slug.py:127-134 | a second run leaves every member as it is, and counts again exactly the members whose slug came out "" |
| QuestionSearch.NormalizeKeepsWords | parliament/tools/fetch_written_questions.py:173-177 | normalising keeps the words, in order, and a normalised text is its own normal form |
| QuestionSearch.NormalizedShape | parliament/tools/fetch_written_questions.py:176 | a normalised text has no whitespace at its ends and only single spaces inside |
| QuestionSearch.BuildKeywordVariants | parliament/tools/fetch_written_questions.py:180-191 | the pairs are exactly each keyword with each non-empty candidate; no pair twice and no empty variant |
| QuestionSearch.AddCandidates | parliament/tools/fetch_written_questions.py:186-190 | the inner loop adds exactly the keyword's unseen non-empty candidates, keeps the pairs distinct and keeps `seen` equal to the listed set |
| QuestionSearch.VariantStep | parliament/tools/fetch_written_questions.py:184-190 | one more keyword adds exactly its own candidates' pairs |
| QuestionSearch.CandidatesOfKeyword | parliament/tools/fetch_written_questions.py:186 | the two candidates coincide exactly when the normalised keyword has no space, so the keyword contributes one pair instead of two |
| QuestionSearch.MatchFromIsDedup | parliament/tools/fetch_written_questions.py:250-259 | from any point on, the matching loop yields the first occurrences of the hitting keywords |
| QuestionSearch.MatchKeywordsSpec | parliament/tools/fetch_written_questions.py:250-259 | each matching keyword is returned once, in order of first hitting variant; the result is exactly the keywords with a variant that hits (spaced variants against the normalised title, others against the space-free title) |
| QuestionSearch.HitKeywordsMembers | parliament/tools/fetch_written_questions.py:253-257 | a keyword is hit exactly when one of its variants hits |
| QuestionIds.DigitRun | parliament/tools/fetch_written_questions.py:226 | the greedy digit run is all digits and stops at a non-digit |
| QuestionIds.SessionFrom | parliament/tools/fetch_written_questions.py:224-229 | the result is None exactly when `kaiji<digits>_` occurs nowhere; otherwise it is the value at the leftmost match |
| QuestionIds.ExtractSessionRoundTrip | parliament/tools/fetch_written_questions.py:224-229 | `kaiji<n>_…` is read back as session n |
| QuestionIds.SessionAtStart | parliament/tools/fetch_written_questions.py:226-228 | a digit string after "kaiji" and before "_" matches, with its value |
| QuestionIds.DigitRunOf | parliament/tools/fetch_written_questions.py:226 | the run stops exactly after the digits |
| QuestionIds.ParseNumber | parliament/tools/fetch_written_questions.py:232-238 | a number comes exactly from a non-empty digit string, it is that string's decimal value, and it is non-negative |
| QuestionIds.ParseNumberRoundTrip | parliament/tools/fetch_written_questions.py:232-238 | the decimal form of n parses back to n |
| QuestionIds.ParseNumberLeadingZeros | parliament/tools/fetch_written_questions.py:235-236 | any run of leading zeros before the decimal form of n still parses to n, as `int("007")` is 7 |
| Text.LeadingZerosValue | parliament/tools/fetch_written_questions.py:235-236 | leading zeros keep a digit string a digit string and do not change its value |
| QuestionIds.ComputeQuestionId | parliament/tools/fetch_written_questions.py:241-247 | an id is always "a" or "b" followed by six digits |
| QuestionIds.QuestionIdRoundTrip | parliament/tools/fetch_written_questions.py:241-247 | `…/<id>.htm`, with the extension in any case and with or without a final newline, gives back the id |
| QuestionIds.HtmlHasNoQuestionId | parliament/tools/fetch_written_questions.py:244 | the pattern is anchored at the end, so a ".html" URL has no id |
| ListingParser.HeaderMapsDisjoint | parliament/tools/fetch_written_questions.py:60-73 | no header maps to both a text and a link field, and the two sets of field names are disjoint |
| ListingParser.AttrGet | parliament/tools/fetch_written_questions.py:107 | the value of the last attribute with that lower-cased name; None when there is none |
| ListingParser.NonEmpty | parliament/tools/fetch_written_questions.py:159 | only non-empty chunks remain |
| ListingParser.CellText | parliament/tools/fetch_written_questions.py:159 | the cell text is stripped |
| ListingParser.Parser.constructor | parliament/tools/fetch_written_questions.py:97-104 | the parser starts with no rows, outside a row and with nothing pending (`InitialState`) |
| ListingParser.Parser.StartRow | parliament/tools/fetch_written_questions.py:139-143 | enters a row and resets all per-row state; the rows are kept |
| ListingParser.Parser.FinalizeRow | parliament/tools/fetch_written_questions.py:145-151 | appends the pending row exactly when it has a non-empty title, then resets all per-row state |
| ListingParser.Parser.StoreText | parliament/tools/fetch_written_questions.py:153-161 | stores the cell text under the text field of the header; empty text or an unknown header stores nothing |
| ListingParser.Parser.StoreLink | parliament/tools/fetch_written_questions.py:163-170 | stores the joined URL under the header's link field unless the field is already set |
| ListingParser.Parser.HandleStartTag | parliament/tools/fetch_written_questions.py:106-120 | `tr` resets the row; `td` sets the upper-cased headers attribute and clears the chunks; `a` stores a link; `br` adds a line break; outside a row, for any other tag, and for `a` or `br` without a cell header nothing changes; the new state is `StartTagStep` of the old one |
| ListingParser.Parser.HandleEndTag | parliament/tools/fetch_written_questions.py:122-129 | `</td>` stores the text and clears the header; `</tr>` finalises the row; outside a row, for any other tag, and for `</td>` without a cell header nothing changes; the new state is `EndTagStep` of the old one |
| ListingParser.Parser.HandleData | parliament/tools/fetch_written_questions.py:131-135 | stripped non-empty text is collected only inside a row and under a header; the new state is `DataStep` of the old one |
| ListingParser.Parser.Feed | parliament/tools/fetch_written_questions.py:218-221 | the new state is `Run` of the old state over the events, i.e. the handlers applied to each event in turn; rows are only appended and the invariant is kept |
| ListingParser.ParseListing | parliament/tools/fetch_written_questions.py:218-221 | the rows are those of `Run` from the initial state over the events; each has a non-empty title, holds only fields of the two header maps, and has non-empty stripped text fields |
| ListingParser.RowsOnlyAtRowEnd | parliament/tools/fetch_written_questions.py:122-129 | only `</tr>` inside a row with a title adds a row, and it adds the pending row; every other event leaves the rows alone |
| ListingParser.StepValid | parliament/tools/fetch_written_questions.py:106-135 | each handler keeps the parser's invariant and only appends rows |
| ListingParser.RunValid | parliament/tools/fetch_written_questions.py:218-221 | any run of events keeps the invariant and only appends rows |
| ListingParser.RunAppend | parliament/tools/fetch_written_questions.py:218-221 | feeding two pieces in turn is feeding their concatenation |
| ListingParser.OneCellRowRun | parliament/tools/fetch_written_questions.py:106-151 | `<tr><td headers=h>text</td></tr>` adds the row `{"title": text}` exactly when the upper-cased h is the title header, and nothing otherwise |
| ListingParser.TitleRowExample | parliament/tools/fetch_written_questions.py:106-151 | `<tr><td headers="SHITSUMON.KENMEI">X</td></tr>` gives `[{"title": "X"}]` |
| ListingParser.UntitledRowExample | parliament/tools/fetch_written_questions.py:106-151 | `<tr><td headers="shitsumon.number">5</td></tr>` gives no row: the header is read case-insensitively, and a row without a title is dropped |
| QuestionRows.DedupKeyOfId | parliament/tools/fetch_written_questions.py:332-334 | rows with the same question id share a key, and an id key never equals a composite key |
| QuestionRows.CompositeKeyColon | parliament/tools/fetch_written_questions.py:334 | a composite key has ":" right after the session part |
| QuestionRows.DedupKeyIgnoresKeywords | parliament/tools/fetch_written_questions.py:332-334 | the key does not depend on the matched keywords, so merging keeps it |
| QuestionRows.FindKey | parliament/tools/fetch_written_questions.py:335 | the first index with the key, or the length when there is none |
| QuestionRows.MergeKeywords | parliament/tools/fetch_written_questions.py:340-342 | the kept list stays a prefix; the result holds exactly the keywords of both lists; every appended keyword is new |
| QuestionRows.DeduplicateRows | parliament/tools/fetch_written_questions.py:328-343 | the loop computes the dedup function with the id-or-composite key |
| QuestionRows.DeduplicateBy | parliament/tools/fetch_written_questions.py:330-343 | the loop computes the dedup function for any key that ignores keywords |
| QuestionRows.MergeInto | parliament/tools/fetch_written_questions.py:340-342 | the keyword loop computes the merge |
| QuestionRows.DedupKeys | parliament/tools/fetch_written_questions.py:328-343 | the kept keys are the input keys in first-seen order, each once; no key is lost; the output is no longer than the input |
| QuestionRows.DedupRowContent | parliament/tools/fetch_written_questions.py:335-342 | every kept row is the first input row with its key, whose keyword list starts with its own keywords and holds exactly the keywords of all rows with the key |
| QuestionRows.KeptAppendMerge | parliament/tools/fetch_written_questions.py:339-342 | a later duplicate only adds its missing keywords to the kept row |
| QuestionRows.KeySetsDisjoint | parliament/tools/fetch_written_questions.py:349-370 | the fixed keys, the URL keys and "question_id" are pairwise distinct |
| QuestionRows.PayloadQuestionId | parliament/tools/fetch_written_questions.py:358-360 | "question_id" is present exactly when derivable, with that id |
| QuestionRows.PayloadUrls | parliament/tools/fetch_written_questions.py:361-370 | each URL key is present exactly when the URL is truthy, with its value |
| QuestionRows.PayloadFixedFields | parliament/tools/fetch_written_questions.py:349-357 | the seven fixed keys hold the row's fields |
| QuestionRows.PayloadRoundTrip | parliament/tools/fetch_written_questions.py:349-371 | a payload reads back as its row with the empty URLs as missing |
| QuestionRows.ReadStrsList | parliament/tools/fetch_written_questions.py:355 | the keyword list reads back |
| QuestionRows.PayloadLeTotalPreorder | parliament/tools/fetch_written_questions.py:372-379 | the sort-key order is a total preorder |
| QuestionRows.PayloadSortKey | parliament/tools/fetch_written_questions.py:374-378 | the key is the negated session, then the number, then the title, with a missing session or number read as 0 |
| QuestionRows.SerializeRows | parliament/tools/fetch_written_questions.py:346-379 | the output is a permutation of the rows' payloads, sorted by the key |
| QuestionRows.SerializeStable | parliament/tools/fetch_written_questions.py:372-379 | payloads with equal keys keep their input order |
| QuestionRows.SerializeOrder | parliament/tools/fetch_written_questions.py:372-379 | sessions never increase; within a session numbers never decrease; within both, titles are in string order |
| QuestionRows.SerializeMembers | parliament/tools/fetch_written_questions.py:346-371 | every output object is the payload of some input row |
| QuestionMerge.StripSuffix | parliament/tools/merge_written_questions.py:31-33 | the suffix is removed when present; otherwise the text is unchanged |
| QuestionMerge.NormalizeName | parliament/tools/merge_written_questions.py:25-34 | a falsy value gives "", and the result has no ASCII or full-width space |
| QuestionMerge.HonorificsStrippedInOrder | parliament/tools/merge_written_questions.py:31-34 | "X議員君" gives "X" |
| QuestionMerge.HonorificStrippedOnce | parliament/tools/merge_written_questions.py:31-34 | "X君君" gives "X君": each suffix is stripped at most once |
| QuestionMerge.CompoundHonorificStripped | parliament/tools/merge_written_questions.py:31-34 | 君外 is removed whole, before 君 is tried |
| QuestionMerge.SpacesIgnored | parliament/tools/merge_written_questions.py:29-30 | a space anywhere in a name does not change its key |
| QuestionMerge.MergeListings | parliament/tools/merge_written_questions.py:59-72 | the unmatched listings are those whose lookup fails, in order; each file present holds its listings, in order; a file is present exactly when it has one |
| QuestionMerge.MergePartition | parliament/tools/merge_written_questions.py:59-72 | each listing lands in exactly one place, as often as it occurs in the input |
| QuestionMerge.KeyOfUpdate | parliament/tools/merge_written_questions.py:95 | `update` with a dict of the same key keeps the key |
| QuestionMerge.DedupeQuestions | parliament/tools/merge_written_questions.py:75-99 | the loop computes the dedup function |
| QuestionMerge.CountNewZero | parliament/tools/merge_written_questions.py:89-97 | no addition brings a new key exactly when every addition's key was already seen |
| QuestionMerge.SeedDicts | parliament/tools/merge_written_questions.py:77-86 | only the dict items of the existing list are kept, in order, and indexed by key |
| QuestionMerge.AddAllSteps | parliament/tools/merge_written_questions.py:88-97 | the additions keep the index, only extend the kept dicts, and append one dict per new key |
| QuestionMerge.DedupeShape | parliament/tools/merge_written_questions.py:75-99 | the existing dicts come first, each keeping its key and at least its fields; the length is the existing dict count plus the additions with unseen keys |
| QuestionMerge.NoChangeIffOverlapping | parliament/tools/merge_written_questions.py:95-118 | with in-place updates, the merged list compares equal to the existing one exactly when every addition's key is already there |
| QuestionMerge.UpdateMemberFiles | parliament/tools/merge_written_questions.py:102-126 | counts only changed files and sums only their merged lengths; writes them unless in a dry run, with counts that do not depend on the dry run |
| QuestionMerge.UpdateFilesBy | parliament/tools/merge_written_questions.py:106-125 | the same loop for any per-file merge |
| QuestionMerge.MergeFile | parliament/tools/merge_written_questions.py:113-118 | reports a change exactly when the merged list differs from the file's list |
| QuestionMerge.OverlappingFileSkipped | parliament/tools/merge_written_questions.py:113-118 | a file whose new entries only repeat its questions is not counted or written |
| MemberSpeeches.AsciiAlnums | parliament/tools/fetch_member_speeches.py:95 | only ASCII letters and digits are kept, and the result is empty exactly when the name has none |
| MemberSpeeches.Slugify | parliament/tools/fetch_member_speeches.py:93-100 | the slug is never empty |
| MemberSpeeches.SlugifyAscii | parliament/tools/fetch_member_speeches.py:95-98 | the ASCII path gives lower-case letters and digits, and slugifying it again changes nothing |
| MemberSpeeches.SlugifyHex | parliament/tools/fetch_member_speeches.py:99-100 | the hex path gives "member-" and one part per character, which reads back as its code point |
| MemberSpeeches.MentionsAnyStripped | parliament/tools/fetch_member_speeches.py:165-167 | stripping does not change which chair words a text mentions |
| MemberSpeeches.SkipRulesUnstripped | parliament/tools/fetch_member_speeches.py:163-176 | the position rule is a mention test on the position, and the head rule is a mention test on the header the minister tools extract |
| MemberSpeeches.ChairMention | parliament/tools/fetch_member_speeches.py:165-175 | a mention means containing 委員長, 議長 or 大臣 |
| MemberSpeeches.KeptRecordRoles | parliament/tools/fetch_member_speeches.py:163-176 | a kept record's header has no 大臣, so only 政務官 or 長官 can still make it ministerial |
| MemberSpeeches.AcceptedOf | parliament/tools/fetch_member_speeches.py:113-119 | the kept records are exactly those the filter keeps, in order |
| MemberSpeeches.AcceptedOfAppend | parliament/tools/fetch_member_speeches.py:113-119 | filtering distributes over concatenation |
| MemberSpeeches.LastWithIsLast | parliament/tools/fetch_member_speeches.py:120-121 | the stored record of an id is its last occurrence |
| MemberSpeeches.Store | parliament/tools/fetch_member_speeches.py:120-121 | the collector's dictionary stays well formed |
| MemberSpeeches.Counts | parliament/tools/fetch_member_speeches.py:103-124 | each keyword's count is the number of its kept records |
| MemberSpeeches.CollectSpeeches | parliament/tools/fetch_member_speeches.py:103-124 | the loop computes the collected values and the per-keyword counts |
| MemberSpeeches.StoreContents | parliament/tools/fetch_member_speeches.py:120-121 | the ids are in first-seen order, and each maps to its last record |
| MemberSpeeches.StoredValues | parliament/tools/fetch_member_speeches.py:120-124 | the values carry each id once, in first-seen order, each being the last record with that id |
| MemberSpeeches.CollectedSpec | parliament/tools/fetch_member_speeches.py:109-124 | the collected records are accepted input records with distinct ids in first-seen order, each the last with its id |
| MemberSpeeches.CountsTotal | parliament/tools/fetch_member_speeches.py:103-124 | the counts add up to all kept records, repeats included |
| MemberSpeeches.CollectedAtMostCounts | parliament/tools/fetch_member_speeches.py:103-124 | the distinct speeches number at most the sum of the counts |
| MemberSpeeches.Meetings | parliament/tools/fetch_member_speeches.py:189-213 | the meetings dictionary stays well formed |
| MemberSpeeches.SortEach | parliament/tools/fetch_member_speeches.py:214-215 | sorting each meeting keeps the number of meetings |
| MemberSpeeches.SortEachMeeting | parliament/tools/fetch_member_speeches.py:214-215 | the loop sorts every meeting's speeches |
| MemberSpeeches.GroupByMeeting | parliament/tools/fetch_member_speeches.py:187-216 | the loops compute the grouped, sorted meetings |
| MemberSpeeches.MeetingsKeys | parliament/tools/fetch_member_speeches.py:190-201 | meetings are keyed in the order their keys first occur |
| MemberSpeeches.MeetingAt | parliament/tools/fetch_member_speeches.py:190-213 | each meeting holds its first speech's meeting fields and all its speeches, projected, in input order |
| MemberSpeeches.FirstWithIsFirst | parliament/tools/fetch_member_speeches.py:191-201 | a meeting's metadata is that of its first speech |
| MemberSpeeches.GroupStepTotal | parliament/tools/fetch_member_speeches.py:190-213 | each pass adds exactly one speech over all meetings |
| MemberSpeeches.MeetingsTotal | parliament/tools/fetch_member_speeches.py:189-213 | every speech lands in exactly one meeting |
| MemberSpeeches.OrderLeTotalPreorder | parliament/tools/fetch_member_speeches.py:215 | the speech order is a total preorder |
| MemberSpeeches.LaterOrSameTotalPreorder | parliament/tools/fetch_member_speeches.py:216 | the date order is a total preorder |
| MemberSpeeches.SortSpeechesSpec | parliament/tools/fetch_member_speeches.py:215 | sorted by speechOrder, a permutation, stable; the other fields are unchanged |
| MemberSpeeches.SortEachSpec | parliament/tools/fetch_member_speeches.py:214-215 | every meeting is sorted, and no speech is lost |
| MemberSpeeches.GroupedSpec | parliament/tools/fetch_member_speeches.py:187-216 | the meetings are latest first, each is sorted, and they hold every input speech |
| MemberSpeeches.MeetingKeysDistinct | parliament/tools/fetch_member_speeches.py:190-201 | meeting keys are distinct, and exactly the input's keys |
| SpeechHeader.CutHead | parliament/tools/remove_minister_speeches.py:22-24 | the cut is a prefix that contains no separator |
| SpeechHeader.HeadOf | parliament/tools/fetch_member_speeches.py:168-175 | there is a raw header exactly when the lstripped text starts with ○ |
| SpeechHeader.ExtractHeader | parliament/tools/remove_minister_speeches.py:18-25 | there is a header exactly when the lstripped text starts with ○, and it does not end in whitespace |
| SpeechHeader.CutHeadOf | parliament/tools/remove_minister_speeches.py:22-24 | a name without separators, followed by one or by nothing, is cut off whole |
| SpeechHeader.HeaderOfSpeech | parliament/tools/remove_minister_speeches.py:18-25 | "○name…" has that name as its header |
| SpeechHeader.MinisterialRoles | parliament/tools/remove_minister_speeches.py:28-31 | ministerial exactly when the header contains 大臣, 政務官 or 長官 (副大臣 contains 大臣) |
| SpeechHeader.SpeakerRole | parliament/tools/remove_minister_speeches.py:18-31 | a speech is ministerial exactly when its speaker's name holds a role |
| RemoveMinister.KeptOf | parliament/tools/remove_minister_speeches.py:60-70 | the kept speeches are no more than the speeches |
| RemoveMinister.KeptOfMembers | parliament/tools/remove_minister_speeches.py:60-70 | the kept speeches are exactly the dict speeches with non-ministerial headers |
| RemoveMinister.RemovedOf | parliament/tools/remove_minister_speeches.py:60-70 | there is at most one entry per speech |
| RemoveMinister.ScanSpeeches | parliament/tools/remove_minister_speeches.py:58-70 | the inner loop computes the kept list and the entries |
| RemoveMinister.CleanFile | parliament/tools/remove_minister_speeches.py:34-86 | the loops compute clean_file's outcome, and speeches_removed equals the number of entries |
| RemoveMinister.SpeechesAccounted | parliament/tools/remove_minister_speeches.py:60-70 | every dict speech is either kept or removed with one entry |
| RemoveMinister.RemovedEntries | parliament/tools/remove_minister_speeches.py:64-69 | each entry carries the meeting's issue id and date and a removed speech's id, "" by default |
| RemoveMinister.ExaminedCount | parliament/tools/remove_minister_speeches.py:50-55 | the examined meetings are no more than the meetings |
| RemoveMinister.CleanSpec | parliament/tools/remove_minister_speeches.py:50-77 | each examined meeting is kept or counted as removed; kept meetings are copies of input meetings, differing only in their non-empty kept speeches |
| RemoveMinister.CleanRemoved | parliament/tools/remove_minister_speeches.py:50-77 | the entries are the per-meeting entries in meeting order |
| RemoveMinister.KeptOfKept | parliament/tools/remove_minister_speeches.py:60-70 | a list of kept speeches is its own kept list |
| RemoveMinister.NothingRemoved | parliament/tools/remove_minister_speeches.py:60-70 | with no ministerial speech, there are no entries |
| RemoveMinister.TrimmedClean | parliament/tools/remove_minister_speeches.py:72-74 | a clean meeting is its own trimmed copy |
| RemoveMinister.CleanOfClean | parliament/tools/remove_minister_speeches.py:50-77 | clean meetings pass unchanged and nothing is counted |
| RemoveMinister.CleanFileIdempotent | parliament/tools/remove_minister_speeches.py:34-86 | on the file it wrote, clean_file removes nothing and writes nothing |
| RemoveMinister.RewriteIff | parliament/tools/remove_minister_speeches.py:41-86 | the file is rewritten exactly when "meetings" is a list and a speech or meeting was removed; otherwise the result is (0, 0, []); a rewrite records the timestamp |
| RemoveMinister.RewrittenCount | parliament/tools/remove_minister_speeches.py:96-105 | at most one update per file |
| RemoveMinister.CleanAll | parliament/tools/remove_minister_speeches.py:89-108 | the loop adds up files updated, meetings and speeches per file |
| RemoveMinister.TotalsNeedRewrite | parliament/tools/remove_minister_speeches.py:96-105 | without any rewritten file both totals are 0 |
| FindMinister.CheckSpeeches | parliament/tools/find_minister_speeches.py:33-51 | the loops compute the findings, or the error on a non-dict entry |
| FindMinister.CheckMeeting | parliament/tools/find_minister_speeches.py:44-50 | the inner loop computes one meeting's findings |
| FindMinister.SpeechesRaise | parliament/tools/find_minister_speeches.py:44-50 | once an entry raises, the whole meeting raises |
| FindMinister.MeetingsRaise | parliament/tools/find_minister_speeches.py:38-50 | once a meeting raises, the whole file raises |
| FindMinister.SpeechFindingsMinisterial | parliament/tools/find_minister_speeches.py:44-50 | every finding of a meeting has a ministerial header |
| FindMinister.FindingsMinisterial | parliament/tools/find_minister_speeches.py:38-50 | every finding of a file has a ministerial header |
| FindMinister.FindingHeaders | parliament/tools/find_minister_speeches.py:27-50 | every finding's header is non-empty and contains 大臣, 政務官 or 長官 |
| FindMinister.Entries | parliament/tools/find_minister_speeches.py:48-50 | one entry per finding |
| FindMinister.SpeechFindingsAreRemovals | parliament/tools/find_minister_speeches.py:44-50 | a meeting's findings are the entries the cleaning pass records for it |
| FindMinister.FindingsAreRemovals | parliament/tools/find_minister_speeches.py:33-51 | the file's findings are the cleaning pass's entries, in the same order |
| FindMinister.ReportMatchesCleaning | parliament/tools/find_minister_speeches.py:33-51 | the report and clean_file agree: one finding per removed speech, with the same ids and date |
| FindMinister.TotalHits | parliament/tools/find_minister_speeches.py:54-68 | the total is the number of findings over all files, and the "none found" line is printed exactly when it is 0 |
| FindMinister.FilesRaise | parliament/tools/find_minister_speeches.py:56-61 | a file that raises stops the run |
| FindMinister.NoHitsIff | parliament/tools/find_minister_speeches.py:56-68 | total_hits is 0 exactly when no file has a finding |
| Postprocess.ShouldDropIff | parliament/tools/postprocess_member_speeches.py:17-19 | dropped exactly when nameOfMeeting is 本会議, or nameOfMeeting is falsy and meetingName is 本会議 |
| Postprocess.TruthyOnly | parliament/tools/postprocess_member_speeches.py:29 | filtering never lengthens the list |
| Postprocess.TruthyOnlyMembers | parliament/tools/postprocess_member_speeches.py:29 | exactly the truthy entries are kept |
| Postprocess.TruthyOnlyOfTruthy | parliament/tools/postprocess_member_speeches.py:29 | a list with no falsy entry is unchanged |
| Postprocess.Prune | parliament/tools/postprocess_member_speeches.py:22-34 | the output is no longer than the input |
| Postprocess.PruneMeetings | parliament/tools/postprocess_member_speeches.py:22-34 | the loop computes the pruning, or the error on a non-dict entry |
| Postprocess.PruneRaises | parliament/tools/postprocess_member_speeches.py:24-26 | once an entry raises, the whole pruning raises |
| Postprocess.TouchSettles | parliament/tools/postprocess_member_speeches.py:27-32 | a surviving meeting is settled after its speeches are filtered |
| Postprocess.SettledSurvives | parliament/tools/postprocess_member_speeches.py:27-32 | a settled meeting survives unchanged |
| Postprocess.RefilterList | parliament/tools/postprocess_member_speeches.py:29-30 | writing back an already-filtered list changes nothing |
| Postprocess.PruneSpec | parliament/tools/postprocess_member_speeches.py:22-34 | when it runs through, every kept meeting is settled and is the filtered form of a surviving input meeting, and every survivor is kept |
| Postprocess.PruneInOrder | parliament/tools/postprocess_member_speeches.py:22-34 | the kept meetings are the filtered forms of the surviving input meetings, one for one, in input order, with no survivor left out |
| Postprocess.PruneOfSettled | parliament/tools/postprocess_member_speeches.py:22-34 | settled meetings are their own pruning |
| Postprocess.PruneIdempotent | parliament/tools/postprocess_member_speeches.py:22-34 | pruning twice prunes nothing the second time |
| Postprocess.Objs | parliament/tools/postprocess_member_speeches.py:50 | the meetings become JSON objects one for one |
| Postprocess.ProcessFile | parliament/tools/postprocess_member_speeches.py:37-51 | computes process_file's outcome |
| Postprocess.RewrittenIff | parliament/tools/postprocess_member_speeches.py:43-51 | a rewrite happens exactly when the meetings are dicts and pruning dropped one; filtering falsy speeches alone never rewrites |
| Postprocess.RewrittenSpec | parliament/tools/postprocess_member_speeches.py:48-51 | a rewritten file keeps its other keys, holds only settled meetings and records the timestamp |
| Postprocess.ProcessIdempotent | parliament/tools/postprocess_member_speeches.py:37-51 | a second run on a rewritten file leaves it unchanged |
| Postprocess.UpdatedCount | parliament/tools/postprocess_member_speeches.py:54-66 | at most one update per file |
| Postprocess.ProcessAll | parliament/tools/postprocess_member_speeches.py:54-66 | the loop counts the rewritten files, and `written` is their new contents in file order; when a file raises, `written` holds the new contents of the files before it |
| Postprocess.RewrittenDataCount | parliament/tools/postprocess_member_speeches.py:59-63 | there is one new content per file counted as updated |
| Postprocess.RewrittenDataMembers | parliament/tools/postprocess_member_speeches.py:47-51 | the new contents are exactly the data of the files process_file rewrites |
| Postprocess.UpdatedRaises | parliament/tools/postprocess_member_speeches.py:57-63 | a file that raises stops the run |

## Left out

- Network access is not modelled, and neither are pagination, retries, delays and `sleep_with_jitter` (floating-point random waits).
- File access is not modelled: file reading and writing, JSON parsing and formatting, globbing, `load_urls`, `save_results`, `save_member_file` and the argument parsing of every `main`. A file is its decoded top-level object, so the model's file inputs are `Dict`s. The model does not capture a file whose top-level JSON is not an object: there `data.get` raises (parliament/tools/remove_minister_speeches.py:41, parliament/tools/find_minister_speeches.py:36, parliament/tools/postprocess_member_speeches.py:39, parliament/tools/merge_written_questions.py:113).
- Timestamps (`datetime.now`) are a `now` parameter.
- Logging and `print` are left out. `FindMinister.TotalHits` returns whether the "none found" line would be printed.
- `fetch_listing` and `build_listing_rows` are left out because they interleave HTTP fetches with logging. The per-row pieces they use are modelled: parsing, matching, session, number and question id.
- `build_member_index.py` is left out because its logic is directory scanning and JSON I/O. `test.py` is left out because it only issues HTTP status checks.
- `unicodedata.normalize("NFKC", …)` is taken as the identity: readings, names and titles are assumed already normalised.
- `str.lower()`, `str.upper()`, `isalnum()` and `\d` are modelled on the ASCII range only. For the ASCII-only tests the tools perform (`isascii() and isalnum()`) this is exact.
- `urljoin` is a function parameter of the parser. HTML tokenisation is abstract: the parser is driven by a sequence of start-tag, end-tag and text events.
- QuestionIds.ParseNumber: weaker than Python's `int()`. Only ASCII digit strings are read as numbers; signs, surrounding whitespace and underscores read as None.
- QuestionSearch.BuildKeywordVariants: the candidates of one keyword iterate over a set, whose order is unspecified. The model uses a fixed order, so only the set of pairs is stated, not their order.
- MemberSpeeches.CollectSpeeches: the search API is abstract. Each keyword's batch is the records its searches over all speaker names returned, in order.
- The model does not capture raising on a non-string value used where a string is expected. `TextOf` reads any such value as "", and `Show` formats lists and dicts as "". Nor does it capture raising on an unhashable dictionary key. In `dedupe_questions` (parliament/tools/merge_written_questions.py:80-95), a truthy list or dict `question_id`, or a list or dict inside the (session, number, title) tuple, cannot be hashed, so `seen_ids[key]` raises TypeError. `QuestionMerge.KeyOf` uses such a value as a key like any other.
- NameSlug.AssignSlugs: a member whose `member_name` is present but not a string (JSON null included) and whose kana gives no slug makes the tool raise, because `normalize` rejects it (parliament/tools/add_name_slug.py:132, 140). `NameOf` reads that name as "", so the model assigns the fallback of "", which is "member-".
- The model does not capture Python's `True == 1` in dictionary keys; JSON booleans and integers are distinct keys.
- MemberSpeeches.OrderOf: a non-integer `speechOrder` counts as 0. Python would compare it or raise.
- MemberSpeeches.DateOf: a non-string date counts as "".
- Floating-point JSON numbers are not modelled.
- JSON object key order is not modelled: the outputs are maps. Insertion order is modelled only where the tools' results depend on it, through `OrderedDicts`.
- Katakana ヴ (U+30F4) is outside the folded range and is not in the base table, so it romanises to nothing. The model keeps this behaviour.
- NameSlug.SlugifyFallback has no contract of its own; `FallbackAsciiForm` and `FallbackHexForm` state it. The slug is "" when the only kept ASCII characters are spaces. `FallbackEmptyExample` shows the case.
- QuestionRows.DeduplicateRows: the merge appends to the kept row's keyword list in place. The model works on values and returns the updated kept row in the output, so aliasing with the caller's row objects is not modelled.
- QuestionMerge.DedupeQuestions: the `update` calls mutate dicts shared with the caller's existing list. The model captures this through `Rebind`, which is the view of that list after the merge.
- QuestionMerge.UpdateMemberFiles: the loop requires distinct paths, because its assignments come from a dictionary.
- Postprocess.PruneMeetings: the write-back of the filtered speeches into the caller's meeting dicts is visible only as the `Touch` form of each kept meeting; aliasing with the caller's dicts is not modelled.
- Parameterised loops: several loops are proved for any header reader, key function, filter, lookup or per-file merge (`HeaderFn`, `KeyFn`, `Filter`, `TargetIn`, `Merge`). The tools' concrete choices are `HeaderOfRecord`, `DedupKey`, `Accepted`, `TargetIn(index)` and `MergedIfChanged`, and the top-level methods use them.
- Uniqueness of slugs across members is not modelled; no code enforces it.
