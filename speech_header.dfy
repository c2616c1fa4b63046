/** The speaker header at the head of a transcript speech, and the role
    test on it. parliament/tools/remove_minister_speeches.py and
    parliament/tools/find_minister_speeches.py define `extract_header`,
    `is_ministerial` and `ROLE_KEYWORDS` identically; they are defined once
    here. */
module SpeechHeader {
  import opened Values
  import opened Text

  /** The speaker mark that opens a transcript speech. */
  const Mark: char := '○'

  /** Separators that end a header: line break, full-width space, space. */
  predicate IsBreak(c: char)
  {
    c == '\n' || c == '　' || c == ' '
  }

  /** The text up to the first line break, then up to the first full-width
      space, then up to the first space. */
  function CutHead(s: string): (h: string)
    ensures |h| <= |s| && h == s[..|h|]
    ensures forall k :: 0 <= k < |h| ==> !IsBreak(h[k])
  {
    var line := CutAt(s, '\n');
    var word := CutAt(line, '　');
    var h := CutAt(word, ' ');
    assert forall k :: 0 <= k < |h| ==> h[k] == word[k] && word[k] == line[k];
    h
  }

  /** The raw header: after leading whitespace and the mark, the text cut
      at the first separator. None when the text does not open with the
      mark. */
  function HeadOf(text: string): (head: Option<string>)
    ensures head.Some? <==> StartsWith(LStrip(text), [Mark])
  {
    var cleaned := LStrip(text);
    if cleaned != [] && cleaned[0] == Mark then Some(CutHead(cleaned[1..])) else None
  }

  /** extract_header: the raw header with whitespace stripped from its ends. */
  function ExtractHeader(text: string): (header: Option<string>)
    ensures header.Some? <==> StartsWith(LStrip(text), [Mark])
    ensures header.Some? ==> header.value == [] || !IsSpace(header.value[|header.value| - 1])
  {
    var head := HeadOf(text);
    if head.Some? then Some(Strip(head.value)) else None
  }

  /** A text without whitespace is its own strip. */
  lemma StripSpaceless(s: string)
    requires NoSpace(s)
    ensures Strip(s) == s
  {
  }

  /** A header without separators followed by a separator, or by nothing,
      is cut off whole. */
  lemma CutHeadOf(name: string, rest: string)
    requires forall k :: 0 <= k < |name| ==> !IsBreak(name[k])
    requires rest == [] || IsBreak(rest[0])
    ensures CutHead(name + rest) == name
  {
    CutAtAfter(name, rest, '\n');
    var r1 := CutAt(rest, '\n');
    CutAtAfter(name, r1, '　');
    var r2 := CutAt(r1, '　');
    CutAtAfter(name, r2, ' ');
    assert CutAt(r2, ' ') == [];
  }

  /** A speech written as optional whitespace, the mark, a speaker name
      without whitespace and then a separator (or nothing) has that name as
      its header. */
  lemma HeaderOfSpeech(text: string, sp: string, name: string, rest: string)
    requires text == sp + [Mark] + name + rest
    requires AllSpace(sp) && NoSpace(name)
    requires rest == [] || IsBreak(rest[0])
    ensures HeadOf(text) == Some(name)
    ensures ExtractHeader(text) == Some(name)
  {
    var body := [Mark] + name + rest;
    assert text == sp + body;
    LStripAfterSpace(sp, body);
    assert body[1..] == name + rest;
    CutHeadOf(name, rest);
    assert HeadOf(text) == Some(name);
    StripSpaceless(name);
  }

  /** ROLE_KEYWORDS */
  const RoleKeywords: seq<string> := ["大臣", "副大臣", "政務官", "長官"]

  /** `any(keyword in s for keyword in words)` */
  predicate MentionsAny(s: string, words: seq<string>)
  {
    exists k :: 0 <= k < |words| && Contains(s, words[k])
  }

  /** is_ministerial: a non-empty header naming one of the roles. */
  predicate IsMinisterial(header: Option<string>)
  {
    header.Some? && header.value != "" && MentionsAny(header.value, RoleKeywords)
  }

  /** The role test needs only three of its four keywords ("副大臣" holds
      "大臣"), and the emptiness test is implied by the keyword test. */
  lemma MinisterialRoles(header: Option<string>)
    ensures IsMinisterial(header) <==>
              header.Some? &&
              (Contains(header.value, "大臣") || Contains(header.value, "政務官") || Contains(header.value, "長官"))
  {
    if header.Some? {
      var h := header.value;
      if Contains(h, "副大臣") {
        assert "副大臣" == "副" + "大臣" + "";
        ContainsPart(h, "副", "大臣", "");
      }
      if Contains(h, "大臣") {
        assert Contains(h, RoleKeywords[0]);
      }
      if Contains(h, "政務官") {
        assert Contains(h, RoleKeywords[2]);
      }
      if Contains(h, "長官") {
        assert Contains(h, RoleKeywords[3]);
      }
    }
  }

  /** A way of reading the header of a speech record. */
  type HeaderFn = Dict -> Option<string>

  /** The header of a speech record: `extract_header(speech.get("speech") or "")`. */
  function HeaderOfRecord(speech: Dict): Option<string>
  {
    ExtractHeader(StrField(speech, "speech"))
  }

  /** The speech of a speaker whose name is written without whitespace is
      ministerial exactly when that name holds one of the roles. */
  lemma SpeakerRole(text: string, sp: string, name: string, rest: string)
    requires text == sp + [Mark] + name + rest
    requires AllSpace(sp) && NoSpace(name)
    requires rest == [] || IsBreak(rest[0])
    ensures IsMinisterial(ExtractHeader(text)) <==>
              Contains(name, "大臣") || Contains(name, "政務官") || Contains(name, "長官")
  {
    HeaderOfSpeech(text, sp, name, rest);
    MinisterialRoles(Some(name));
  }
}
