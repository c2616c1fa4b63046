/** The kana-to-slug engine of parliament/tools/add_name_slug.py: katakana
    folding, the cursor-scan romaniser, the whole-reading assembler, the
    display-name fallback and the slug-assignment driver. Readings and names
    are taken as already NFKC-normalised. */
module NameSlug {
  import opened Values
  import opened Text

  // ---------------------------------------------------------------------
  // The two lookup tables

  predicate IsRomaji(s: string)
  {
    forall k :: 0 <= k < |s| ==> 'a' <= s[k] <= 'z'
  }

  /** HIRAGANA_MAP: the base syllable table. Every entry is a non-empty run
      of lower-case Latin letters. */
  function HiraganaMap(c: char): (r: Option<string>)
    ensures r.Some? ==> r.value != [] && IsRomaji(r.value)
  {
    match c
    case 'あ' => Some("a") case 'い' => Some("i") case 'う' => Some("u") case 'え' => Some("e") case 'お' => Some("o")
    case 'か' => Some("ka") case 'き' => Some("ki") case 'く' => Some("ku") case 'け' => Some("ke") case 'こ' => Some("ko")
    case 'さ' => Some("sa") case 'し' => Some("shi") case 'す' => Some("su") case 'せ' => Some("se") case 'そ' => Some("so")
    case 'た' => Some("ta") case 'ち' => Some("chi") case 'つ' => Some("tsu") case 'て' => Some("te") case 'と' => Some("to")
    case 'な' => Some("na") case 'に' => Some("ni") case 'ぬ' => Some("nu") case 'ね' => Some("ne") case 'の' => Some("no")
    case 'は' => Some("ha") case 'ひ' => Some("hi") case 'ふ' => Some("fu") case 'へ' => Some("he") case 'ほ' => Some("ho")
    case 'ま' => Some("ma") case 'み' => Some("mi") case 'む' => Some("mu") case 'め' => Some("me") case 'も' => Some("mo")
    case 'や' => Some("ya") case 'ゆ' => Some("yu") case 'よ' => Some("yo")
    case 'ら' => Some("ra") case 'り' => Some("ri") case 'る' => Some("ru") case 'れ' => Some("re") case 'ろ' => Some("ro")
    case 'わ' => Some("wa") case 'ゐ' => Some("wi") case 'ゑ' => Some("we") case 'を' => Some("o")
    case 'ん' => Some("n")
    case 'が' => Some("ga") case 'ぎ' => Some("gi") case 'ぐ' => Some("gu") case 'げ' => Some("ge") case 'ご' => Some("go")
    case 'ざ' => Some("za") case 'じ' => Some("ji") case 'ず' => Some("zu") case 'ぜ' => Some("ze") case 'ぞ' => Some("zo")
    case 'だ' => Some("da") case 'ぢ' => Some("ji") case 'づ' => Some("zu") case 'で' => Some("de") case 'ど' => Some("do")
    case 'ば' => Some("ba") case 'び' => Some("bi") case 'ぶ' => Some("bu") case 'べ' => Some("be") case 'ぼ' => Some("bo")
    case 'ぱ' => Some("pa") case 'ぴ' => Some("pi") case 'ぷ' => Some("pu") case 'ぺ' => Some("pe") case 'ぽ' => Some("po")
    case 'ゔ' => Some("vu")
    case 'ぁ' => Some("a") case 'ぃ' => Some("i") case 'ぅ' => Some("u") case 'ぇ' => Some("e") case 'ぉ' => Some("o")
    case 'ゃ' => Some("ya") case 'ゅ' => Some("yu") case 'ょ' => Some("yo")
    case _ => None
  }

  /** One row of the digraph table: a kana followed by small ゃ, ゅ or ょ. */
  function YoonRow(b: char, ya: string, yu: string, yo: string): Option<string>
  {
    match b
    case 'ゃ' => Some(ya) case 'ゅ' => Some(yu) case 'ょ' => Some(yo)
    case _ => None
  }

  /** The two-character entries of DIGRAPH_MAP, looked up as `a + b`. Every
      entry is non-empty lower-case romaji. */
  function Digraph2(a: char, b: char): (r: Option<string>)
    ensures r.Some? ==> r.value != [] && IsRomaji(r.value)
  {
    match a
    case 'き' => YoonRow(b, "kya", "kyu", "kyo")
    case 'ぎ' => YoonRow(b, "gya", "gyu", "gyo")
    case 'し' => YoonRow(b, "sha", "shu", "sho")
    case 'じ' => YoonRow(b, "ja", "ju", "jo")
    case 'ち' => YoonRow(b, "cha", "chu", "cho")
    case 'に' => YoonRow(b, "nya", "nyu", "nyo")
    case 'ひ' => YoonRow(b, "hya", "hyu", "hyo")
    case 'び' => YoonRow(b, "bya", "byu", "byo")
    case 'ぴ' => YoonRow(b, "pya", "pyu", "pyo")
    case 'み' => YoonRow(b, "mya", "myu", "myo")
    case 'り' => YoonRow(b, "rya", "ryu", "ryo")
    case _ => None
  }

  /** DIGRAPH_MAP.get(key): the two-character entries above and the four
      three-character entries spelt with う and the spacing voiced mark ゛. */
  function DigraphMap(key: string): Option<string>
  {
    if |key| == 2 then Digraph2(key[0], key[1])
    else if |key| == 3 && key[0] == 'う' && key[1] == '゛' then
      match key[2]
      case 'ぁ' => Some("va") case 'ぃ' => Some("vi") case 'ぇ' => Some("ve") case 'ぉ' => Some("vo")
      case _ => None
    else None
  }

  /** The romaniser only ever looks up two-character keys (`Digraph2`), and
      no two-character lookup reaches the three-character う゛ entries. */
  lemma VEntriesUnreachable(a: char, b: char)
    ensures DigraphMap([a, b]) == Digraph2(a, b)
    ensures DigraphMap([a, b]) !in {Some("va"), Some("vi"), Some("ve"), Some("vo")}
    ensures DigraphMap("う゛ぁ") == Some("va") && DigraphMap("う゛ぉ") == Some("vo")
  {
  }

  /** A registered digraph is never the concatenation of the base mappings
      of its two characters ("しゃ" is "sha", not "shiya"). */
  lemma DigraphIsNotDecomposition(a: char, b: char)
    requires Digraph2(a, b).Some?
    ensures HiraganaMap(a).Some? && HiraganaMap(b).Some?
    ensures Digraph2(a, b).value != HiraganaMap(a).value + HiraganaMap(b).value
  {
    YoonBases();
    assert b == 'ゃ' || b == 'ゅ' || b == 'ょ';
    assert |HiraganaMap(b).value| == 2;
    assert |HiraganaMap(a).value| >= 2;
    assert |Digraph2(a, b).value| <= 3;
  }

  /** Every digraph starts with a kana of the base table. */
  lemma DigraphHeadMapped(a: char, b: char)
    requires Digraph2(a, b).Some?
    ensures HiraganaMap(a).Some?
  {
    YoonHeadBases();
    VoicedYoonHeadBases();
  }

  /** The base mappings of the characters the digraphs are made of. */
  lemma YoonBases()
    ensures HiraganaMap('ゃ') == Some("ya") && HiraganaMap('ゅ') == Some("yu") && HiraganaMap('ょ') == Some("yo")
    ensures HiraganaMap('き') == Some("ki") && HiraganaMap('ぎ') == Some("gi") && HiraganaMap('し') == Some("shi")
    ensures HiraganaMap('じ') == Some("ji") && HiraganaMap('ち') == Some("chi") && HiraganaMap('に') == Some("ni")
    ensures HiraganaMap('ひ') == Some("hi") && HiraganaMap('び') == Some("bi") && HiraganaMap('ぴ') == Some("pi")
    ensures HiraganaMap('み') == Some("mi") && HiraganaMap('り') == Some("ri")
  {
    SmallYBases();
    YoonHeadBases();
    VoicedYoonHeadBases();
  }

  lemma SmallYBases()
    ensures HiraganaMap('ゃ') == Some("ya") && HiraganaMap('ゅ') == Some("yu") && HiraganaMap('ょ') == Some("yo")
  {
  }

  lemma YoonHeadBases()
    ensures HiraganaMap('き') == Some("ki") && HiraganaMap('し') == Some("shi") && HiraganaMap('ち') == Some("chi")
    ensures HiraganaMap('に') == Some("ni") && HiraganaMap('ひ') == Some("hi") && HiraganaMap('み') == Some("mi")
    ensures HiraganaMap('り') == Some("ri")
  {
  }

  lemma VoicedYoonHeadBases()
    ensures HiraganaMap('ぎ') == Some("gi") && HiraganaMap('じ') == Some("ji")
    ensures HiraganaMap('び') == Some("bi") && HiraganaMap('ぴ') == Some("pi")
  {
  }

  /** The two lookup tables the scan consults. */
  datatype Tables = Tables(base: char -> Option<string>, digraph: (char, char) -> Option<string>)

  /** HIRAGANA_MAP and the two-character part of DIGRAPH_MAP. */
  const Romaji: Tables := Tables(HiraganaMap, Digraph2)

  predicate IsSmallTsu(c: char)
  {
    c == 'っ' || c == 'ッ'
  }

  const Prolong: char := 'ー'

  /** What the scan relies on of its tables: every mapping is non-empty
      lower-case romaji, a digraph starts with a mapped kana, and neither
      small tsu nor ー is mapped. */
  ghost predicate WellFormed(t: Tables)
  {
    && (forall c :: t.base(c).Some? ==> t.base(c).value != [] && IsRomaji(t.base(c).value))
    && (forall a, b :: t.digraph(a, b).Some? ==>
          t.digraph(a, b).value != [] && IsRomaji(t.digraph(a, b).value) && t.base(a).Some?)
    && t.base('っ').None? && t.base('ッ').None? && t.base(Prolong).None?
  }

  lemma RomajiWellFormed()
    ensures WellFormed(Romaji)
  {
    forall a, b | Digraph2(a, b).Some? ensures HiraganaMap(a).Some? {
      DigraphHeadMapped(a, b);
    }
    assert HiraganaMap('っ').None? && HiraganaMap('ッ').None? && HiraganaMap(Prolong).None?;
  }

  // ---------------------------------------------------------------------
  // Katakana folding

  const KatakanaFirst: int := 0x30A1
  const KatakanaLast: int := 0x30F3

  predicate InKatakanaRange(c: char)
  {
    KatakanaFirst <= c as int <= KatakanaLast
  }

  function FoldChar(c: char): char
  {
    if InKatakanaRange(c) then (c as int - 0x60) as char else c
  }

  /** katakana_to_hiragana as a value. */
  function Fold(text: string): (r: string)
    ensures |r| == |text|
  {
    seq(|text|, k requires 0 <= k < |text| => FoldChar(text[k]))
  }

  /** katakana_to_hiragana: every code point in U+30A1..U+30F3 moves down by
      0x60, all others (the prolongation mark ー U+30FC and ヴ U+30F4 among
      them) are kept. */
  method KatakanaToHiragana(text: string) returns (folded: string)
    ensures |folded| == |text|
    ensures forall k :: 0 <= k < |text| && InKatakanaRange(text[k]) ==> folded[k] as int == text[k] as int - 0x60
    ensures forall k :: 0 <= k < |text| && !InKatakanaRange(text[k]) ==> folded[k] == text[k]
    ensures folded == Fold(text)
  {
    var result: seq<char> := [];
    for k := 0 to |text|
      invariant |result| == k
      invariant forall j :: 0 <= j < k ==> result[j] == FoldChar(text[j])
    {
      var code := text[k] as int;
      if KatakanaFirst <= code <= KatakanaLast {
        result := result + [(code - 0x60) as char];
      } else {
        result := result + [text[k]];
      }
    }
    folded := result;
  }

  /** Folding leaves no katakana of the folded range behind, so folding
      twice is folding once. */
  lemma FoldIdempotent(text: string)
    ensures forall k :: 0 <= k < |text| ==> !InKatakanaRange(Fold(text)[k])
    ensures Fold(Fold(text)) == Fold(text)
  {
  }

  // ---------------------------------------------------------------------
  // Romanising one token

  predicate IsVowel(c: char)
  {
    c == 'a' || c == 'e' || c == 'i' || c == 'o' || c == 'u'
  }

  /** The first `[aeiou]` of the reversed segment, i.e. its last vowel. */
  function LastVowel(seg: string): (v: Option<char>)
    ensures v.Some? ==> IsVowel(v.value) && v.value in seg
    ensures v.Some? ==> exists k :: 0 <= k < |seg| && seg[k] == v.value &&
                           forall j :: k < j < |seg| ==> !IsVowel(seg[j])
    ensures v.None? ==> forall k :: 0 <= k < |seg| ==> !IsVowel(seg[k])
    decreases |seg|
  {
    if seg == [] then None
    else if IsVowel(seg[|seg| - 1]) then Some(seg[|seg| - 1])
    else
      var init := seg[..|seg| - 1];
      var r := LastVowel(init);
      assert r.Some? ==> exists k :: 0 <= k < |seg| - 1 && seg[k] == r.value &&
                           forall j :: k < j < |seg| ==> !IsVowel(seg[j]) by {
        if r.Some? {
          var k :| 0 <= k < |init| && init[k] == r.value &&
                   forall j :: k < j < |init| ==> !IsVowel(init[j]);
          assert forall j :: k < j < |seg| ==> !IsVowel(seg[j]);
        }
      }
      r
  }

  /** The mapping a small tsu at `i` takes its letter from: that of the
      digraph formed by the next two characters when there is one,
      otherwise that of the next character; "" when neither maps. (When the
      next two characters are no digraph the tool looks up the single next
      character among the digraphs, which never matches.) */
  function GeminationSource(t: Tables, chars: seq<char>, i: nat): string
    requires i < |chars|
  {
    if i + 1 < |chars| then
      var next := chars[i + 1];
      var d := if i + 2 < |chars| then t.digraph(next, chars[i + 2]) else None;
      var h := t.base(next);
      if d.Some? && d.value != "" then d.value
      else if h.Some? && h.value != "" then h.value
      else ""
    else ""
  }

  /** The segments the scan emits from cursor `i` on, after `acc`. */
  function Scan(t: Tables, chars: seq<char>, i: nat, acc: seq<string>): seq<string>
    requires i <= |chars|
    decreases |chars| - i
  {
    if i == |chars| then acc
    else
      var ch := chars[i];
      if IsSmallTsu(ch) then
        var roma := GeminationSource(t, chars, i);
        Scan(t, chars, i + 1, if roma != "" then acc + [[roma[0]]] else acc)
      else if ch == Prolong then
        var v := if acc != [] then LastVowel(acc[|acc| - 1]) else None;
        Scan(t, chars, i + 1, if v.Some? then acc + [[v.value]] else acc)
      else if i + 1 < |chars| && t.digraph(ch, chars[i + 1]).Some? then
        Scan(t, chars, i + 2, acc + [t.digraph(ch, chars[i + 1]).value])
      else
        var roma := t.base(ch);
        Scan(t, chars, i + 1, if roma.Some? && roma.value != "" then acc + [roma.value] else acc)
  }

  function Romanise(t: Tables, chars: seq<char>): string
  {
    Concat(Scan(t, chars, 0, []))
  }

  /** kana_token_to_romaji as a value. */
  function TokenRomaji(token: string): string
  {
    Romanise(Romaji, Fold(token))
  }

  /** kana_token_to_romaji: the left-to-right cursor scan. */
  method KanaTokenToRomaji(token: string) returns (romaji: string)
    ensures romaji == TokenRomaji(token)
  {
    var chars := KatakanaToHiragana(token);
    var result: seq<string> := [];
    var i := 0;
    while i < |chars|
      invariant i <= |chars|
      invariant Scan(Romaji, chars, i, result) == Scan(Romaji, chars, 0, [])
      decreases |chars| - i
    {
      var ch := chars[i];
      if IsSmallTsu(ch) {
        // double the consonant of the next character
        if i + 1 < |chars| {
          var next := chars[i + 1];
          var d: Option<string> := None;
          if i + 2 < |chars| && Digraph2(next, chars[i + 2]).Some? {
            d := Digraph2(next, chars[i + 2]);
          }
          var h := HiraganaMap(next);
          var roma := if d.Some? && d.value != "" then d.value else if h.Some? && h.value != "" then h.value else "";
          if roma != "" {
            result := result + [[roma[0]]];
          }
        }
        i := i + 1;
        continue;
      }
      if ch == Prolong {
        if result != [] {
          var v := LastVowel(result[|result| - 1]);
          if v.Some? {
            result := result + [[v.value]];
          }
        }
        i := i + 1;
        continue;
      }
      if i + 1 < |chars| && Digraph2(ch, chars[i + 1]).Some? {
        result := result + [Digraph2(ch, chars[i + 1]).value];
        i := i + 2;
        continue;
      }
      var roma := HiraganaMap(ch);
      if roma.Some? && roma.value != "" {
        result := result + [roma.value];
      }
      i := i + 1;
    }
    romaji := Concat(result);
  }

  // Properties of the scan, for any well-formed tables

  predicate GoodSegments(segs: seq<string>)
  {
    forall k :: 0 <= k < |segs| ==> segs[k] != [] && IsRomaji(segs[k])
  }

  ghost predicate MappedFrom(t: Tables, chars: seq<char>, i: nat)
  {
    exists k :: i <= k < |chars| && t.base(chars[k]).Some?
  }

  lemma {:induction false} ScanGood(t: Tables, chars: seq<char>, i: nat, acc: seq<string>)
    requires WellFormed(t) && i <= |chars|
    requires GoodSegments(acc)
    ensures GoodSegments(Scan(t, chars, i, acc))
    decreases |chars| - i
  {
    if i < |chars| {
      var ch := chars[i];
      if IsSmallTsu(ch) {
        var roma := GeminationSource(t, chars, i);
        ScanGood(t, chars, i + 1, if roma != "" then acc + [[roma[0]]] else acc);
      } else if ch == Prolong {
        var v := if acc != [] then LastVowel(acc[|acc| - 1]) else None;
        ScanGood(t, chars, i + 1, if v.Some? then acc + [[v.value]] else acc);
      } else if i + 1 < |chars| && t.digraph(ch, chars[i + 1]).Some? {
        ScanGood(t, chars, i + 2, acc + [t.digraph(ch, chars[i + 1]).value]);
      } else {
        var roma := t.base(ch);
        ScanGood(t, chars, i + 1, if roma.Some? && roma.value != "" then acc + [roma.value] else acc);
      }
    }
  }

  /** The scan only appends: what was emitted before stays in front. */
  lemma {:induction false} ScanExtends(t: Tables, chars: seq<char>, i: nat, acc: seq<string>)
    requires i <= |chars|
    ensures |acc| <= |Scan(t, chars, i, acc)|
    ensures forall k :: 0 <= k < |acc| ==> Scan(t, chars, i, acc)[k] == acc[k]
    decreases |chars| - i
  {
    if i < |chars| {
      var ch := chars[i];
      var acc';
      var j;
      if IsSmallTsu(ch) {
        var roma := GeminationSource(t, chars, i);
        acc', j := if roma != "" then acc + [[roma[0]]] else acc, i + 1;
      } else if ch == Prolong {
        var v := if acc != [] then LastVowel(acc[|acc| - 1]) else None;
        acc', j := if v.Some? then acc + [[v.value]] else acc, i + 1;
      } else if i + 1 < |chars| && t.digraph(ch, chars[i + 1]).Some? {
        acc', j := acc + [t.digraph(ch, chars[i + 1]).value], i + 2;
      } else {
        var roma := t.base(ch);
        acc', j := if roma.Some? && roma.value != "" then acc + [roma.value] else acc, i + 1;
      }
      assert Scan(t, chars, i, acc) == Scan(t, chars, j, acc');
      assert |acc| <= |acc'| && forall k :: 0 <= k < |acc| ==> acc'[k] == acc[k];
      ScanExtends(t, chars, j, acc');
    }
  }

  lemma {:induction false} ScanEmptyIff(t: Tables, chars: seq<char>, i: nat, acc: seq<string>)
    requires WellFormed(t) && i <= |chars|
    ensures Scan(t, chars, i, acc) == [] <==> acc == [] && !MappedFrom(t, chars, i)
    decreases |chars| - i
  {
    if i < |chars| {
      var ch := chars[i];
      if IsSmallTsu(ch) {
        var roma := GeminationSource(t, chars, i);
        var acc' := if roma != "" then acc + [[roma[0]]] else acc;
        ScanEmptyIff(t, chars, i + 1, acc');
        ScanExtends(t, chars, i + 1, acc');
        if roma != "" {
          assert t.base(chars[i + 1]).Some?;
        }
      } else if ch == Prolong {
        var v := if acc != [] then LastVowel(acc[|acc| - 1]) else None;
        var acc' := if v.Some? then acc + [[v.value]] else acc;
        ScanEmptyIff(t, chars, i + 1, acc');
        ScanExtends(t, chars, i + 1, acc');
      } else if i + 1 < |chars| && t.digraph(ch, chars[i + 1]).Some? {
        var acc' := acc + [t.digraph(ch, chars[i + 1]).value];
        ScanExtends(t, chars, i + 2, acc');
      } else {
        var roma := t.base(ch);
        var acc' := if roma.Some? && roma.value != "" then acc + [roma.value] else acc;
        ScanEmptyIff(t, chars, i + 1, acc');
        ScanExtends(t, chars, i + 1, acc');
      }
    }
  }

  lemma {:induction false} ConcatGood(segs: seq<string>)
    requires GoodSegments(segs)
    ensures IsRomaji(Concat(segs))
    ensures Concat(segs) == "" <==> segs == []
    decreases |segs|
  {
    if segs != [] {
      ConcatGood(segs[1..]);
      var c := Concat(segs);
      assert c == segs[0] + Concat(segs[1..]);
      forall k | 0 <= k < |c| ensures 'a' <= c[k] <= 'z' {
        if k >= |segs[0]| { assert c[k] == Concat(segs[1..])[k - |segs[0]|]; }
      }
    }
  }

  /** With well-formed tables the romaji is lower-case a-z only, and it is
      "" exactly when no character maps: unmapped characters are skipped,
      never fatal. */
  lemma RomaniseShape(t: Tables, chars: seq<char>)
    requires WellFormed(t)
    ensures IsRomaji(Romanise(t, chars))
    ensures Romanise(t, chars) == "" <==> forall k :: 0 <= k < |chars| ==> t.base(chars[k]).None?
  {
    ScanGood(t, chars, 0, []);
    ConcatGood(Scan(t, chars, 0, []));
    ScanEmptyIff(t, chars, 0, []);
  }

  /** The romaji of any token consists of lower-case a-z only. */
  lemma RomajiIsLowercase(token: string)
    ensures IsRomaji(TokenRomaji(token))
  {
    RomajiWellFormed();
    RomaniseShape(Romaji, Fold(token));
  }

  /** A token romanises to "" exactly when none of its (folded) characters
      is in the base table. */
  lemma RomajiEmptyIffNothingMapped(token: string)
    ensures TokenRomaji(token) == "" <==> forall k :: 0 <= k < |token| ==> HiraganaMap(Fold(token)[k]).None?
  {
    RomajiWellFormed();
    RomaniseShape(Romaji, Fold(token));
  }

  /** Katakana and hiragana spellings of a token romanise alike. */
  lemma RomajiIgnoresScript(token: string)
    ensures TokenRomaji(Fold(token)) == TokenRomaji(token)
  {
    FoldIdempotent(token);
  }

  // One lemma per branch of the loop in kana_token_to_romaji. Each states
  // a single step of `Scan` at cursor `i`: it unfolds the definition once,
  // so that every branch of the loop has its own readable rule. The
  // concrete examples further down put the steps together.

  /** A registered digraph is emitted as one segment and the cursor moves
      past both of its characters. */
  lemma DigraphStep(t: Tables, chars: seq<char>, i: nat, acc: seq<string>)
    requires WellFormed(t)
    requires i + 1 < |chars| && t.digraph(chars[i], chars[i + 1]).Some?
    ensures Scan(t, chars, i, acc) == Scan(t, chars, i + 2, acc + [t.digraph(chars[i], chars[i + 1]).value])
  {
    assert t.base(chars[i]).Some?;
    assert !IsSmallTsu(chars[i]) && chars[i] != Prolong;
  }

  /** Gemination before a plain syllable: the tsu adds the first letter of
      the next character's mapping, and that character is then romanised in
      full ("っぷ" gives "ppu"). */
  lemma GeminationBeforeSyllable(t: Tables, chars: seq<char>, i: nat, acc: seq<string>)
    requires WellFormed(t)
    requires i + 1 < |chars| && IsSmallTsu(chars[i])
    requires t.base(chars[i + 1]).Some?
    requires i + 2 < |chars| ==> t.digraph(chars[i + 1], chars[i + 2]).None?
    ensures var m := t.base(chars[i + 1]).value;
            Scan(t, chars, i, acc) == Scan(t, chars, i + 2, acc + [[m[0]], m])
  {
    var m := t.base(chars[i + 1]).value;
    assert GeminationSource(t, chars, i) == m;
    assert Scan(t, chars, i, acc) == Scan(t, chars, i + 1, acc + [[m[0]]]);
    assert !IsSmallTsu(chars[i + 1]) && chars[i + 1] != Prolong;
    assert acc + [[m[0]]] + [m] == acc + [[m[0]], m];
  }

  /** Gemination before a digraph: the tsu adds the first letter of the
      digraph's mapping, and the digraph follows in full ("っしゃ" gives
      "ssha"). */
  lemma GeminationBeforeDigraph(t: Tables, chars: seq<char>, i: nat, acc: seq<string>)
    requires WellFormed(t)
    requires i + 2 < |chars| && IsSmallTsu(chars[i])
    requires t.digraph(chars[i + 1], chars[i + 2]).Some?
    ensures var d := t.digraph(chars[i + 1], chars[i + 2]).value;
            Scan(t, chars, i, acc) == Scan(t, chars, i + 3, acc + [[d[0]], d])
  {
    var d := t.digraph(chars[i + 1], chars[i + 2]).value;
    assert GeminationSource(t, chars, i) == d;
    assert Scan(t, chars, i, acc) == Scan(t, chars, i + 1, acc + [[d[0]]]);
    DigraphStep(t, chars, i + 1, acc + [[d[0]]]);
    assert acc + [[d[0]]] + [d] == acc + [[d[0]], d];
  }

  /** A small tsu that ends the token, or stands before a character that
      does not map, emits nothing. */
  lemma GeminationWithoutSource(t: Tables, chars: seq<char>, i: nat, acc: seq<string>)
    requires WellFormed(t)
    requires i < |chars| && IsSmallTsu(chars[i])
    requires i + 1 < |chars| ==> t.base(chars[i + 1]).None?
    ensures Scan(t, chars, i, acc) == Scan(t, chars, i + 1, acc)
  {
    assert GeminationSource(t, chars, i) == "";
  }

  /** ー repeats the last vowel of the most recent segment only; it adds
      nothing when no segment has been emitted or that segment has no
      vowel. */
  lemma ProlongationRepeatsLastVowel(t: Tables, chars: seq<char>, i: nat, acc: seq<string>)
    requires i < |chars| && chars[i] == Prolong
    ensures acc != [] && LastVowel(acc[|acc| - 1]).Some? ==>
              Scan(t, chars, i, acc) == Scan(t, chars, i + 1, acc + [[LastVowel(acc[|acc| - 1]).value]])
    ensures acc == [] || LastVowel(acc[|acc| - 1]).None? ==>
              Scan(t, chars, i, acc) == Scan(t, chars, i + 1, acc)
  {
  }

  /** A character that is neither small tsu, nor ー, nor the start of a
      digraph emits its base mapping, if it has one, and the cursor moves
      on by one. */
  lemma PlainStep(t: Tables, chars: seq<char>, i: nat, acc: seq<string>)
    requires i < |chars| && !IsSmallTsu(chars[i]) && chars[i] != Prolong
    requires i + 1 < |chars| ==> t.digraph(chars[i], chars[i + 1]).None?
    ensures var roma := t.base(chars[i]);
            Scan(t, chars, i, acc) == Scan(t, chars, i + 1, if roma.Some? && roma.value != "" then acc + [roma.value] else acc)
  {
  }

  /** The plain case: with no small tsu, no ー and no digraph pair, the
      romaji is the concatenation of the base mappings, unmapped characters
      contributing nothing. */
  predicate PlainKana(t: Tables, chars: seq<char>)
  {
    forall k :: 0 <= k < |chars| ==>
      !IsSmallTsu(chars[k]) && chars[k] != Prolong
      && (k + 1 < |chars| ==> t.digraph(chars[k], chars[k + 1]).None?)
  }

  function BaseConcat(t: Tables, chars: seq<char>): string
    decreases |chars|
  {
    if chars == [] then ""
    else (if t.base(chars[0]).Some? then t.base(chars[0]).value else "") + BaseConcat(t, chars[1..])
  }

  lemma {:induction false} PlainScan(t: Tables, chars: seq<char>, i: nat, acc: seq<string>)
    requires i <= |chars| && PlainKana(t, chars)
    ensures Concat(Scan(t, chars, i, acc)) == Concat(acc) + BaseConcat(t, chars[i..])
    decreases |chars| - i
  {
    if i < |chars| {
      var roma := t.base(chars[i]);
      var acc' := if roma.Some? && roma.value != "" then acc + [roma.value] else acc;
      assert Scan(t, chars, i, acc) == Scan(t, chars, i + 1, acc');
      PlainScan(t, chars, i + 1, acc');
      assert chars[i..] == [chars[i]] + chars[i + 1..];
      if roma.Some? && roma.value != "" {
        ConcatAppend(acc, roma.value);
      }
    } else {
      assert chars[i..] == [];
    }
  }

  lemma PlainRomanise(t: Tables, chars: seq<char>)
    requires PlainKana(t, chars)
    ensures Romanise(t, chars) == BaseConcat(t, chars)
  {
    PlainScan(t, chars, 0, []);
    assert chars[0..] == chars;
  }

  // Worked examples

  /** Text with no katakana of the folded range folds to itself. */
  lemma FoldKeepsHiragana(s: string)
    requires forall k :: 0 <= k < |s| ==> !InKatakanaRange(s[k])
    ensures Fold(s) == s
  {
  }

  lemma DigraphExample()
    ensures TokenRomaji("しゃ") == "sha"
  {
    var s := "しゃ";
    FoldKeepsHiragana(s);
    RomajiWellFormed();
    assert Romaji.digraph(s[0], s[1]) == Some("sha");
    DigraphStep(Romaji, s, 0, []);
    assert Scan(Romaji, s, 2, ["sha"]) == ["sha"];
    assert Scan(Romaji, s, 0, []) == ["sha"];
    assert Concat(["sha"]) == "sha";
  }

  lemma GeminationSegments()
    ensures Scan(Romaji, "きっぷ", 0, []) == ["ki", "p", "pu"]
  {
    var s := "きっぷ";
    KippuBases();
    RomajiWellFormed();
    PlainStep(Romaji, s, 0, []);
    GeminationBeforeSyllable(Romaji, s, 1, ["ki"]);
    assert Scan(Romaji, s, 3, ["ki", "p", "pu"]) == ["ki", "p", "pu"];
  }

  lemma KippuBases()
    ensures HiraganaMap('き') == Some("ki") && Digraph2('き', 'っ').None?
    ensures HiraganaMap('ぷ') == Some("pu")
  {
  }

  lemma GeminationExample()
    ensures TokenRomaji("きっぷ") == "kippu"
  {
    FoldKeepsHiragana("きっぷ");
    GeminationSegments();
    assert Concat(["ki", "p", "pu"]) == "kippu";
  }

  lemma ProlongationSegments()
    ensures Scan(Romaji, "ー", 0, []) == []
    ensures Scan(Romaji, "とー", 0, []) == ["to", "o"]
    ensures Scan(Romaji, "んー", 0, []) == ["n"]
  {
    ProlongationRepeatsLastVowel(Romaji, "ー", 0, []);
    ProlongAfterVowel();
    ProlongAfterN();
  }

  lemma ProlongAfterVowel()
    ensures Scan(Romaji, "とー", 0, []) == ["to", "o"]
  {
    var s := "とー";
    assert HiraganaMap('と') == Some("to") && Digraph2('と', 'ー').None?;
    PlainStep(Romaji, s, 0, []);
    assert LastVowel("to") == Some('o');
    ProlongationRepeatsLastVowel(Romaji, s, 1, ["to"]);
    assert Scan(Romaji, s, 2, ["to", "o"]) == ["to", "o"];
  }

  lemma ProlongAfterN()
    ensures Scan(Romaji, "んー", 0, []) == ["n"]
  {
    var s := "んー";
    assert HiraganaMap('ん') == Some("n") && Digraph2('ん', 'ー').None?;
    PlainStep(Romaji, s, 0, []);
    assert LastVowel("n") == None;
    ProlongationRepeatsLastVowel(Romaji, s, 1, ["n"]);
    assert Scan(Romaji, s, 2, ["n"]) == ["n"];
  }

  lemma ProlongationExamples()
    ensures TokenRomaji("ー") == ""
    ensures TokenRomaji("トー") == "too"
    ensures TokenRomaji("ンー") == "n"
  {
    ProlongationSegments();
    ProlongationFolds();
    assert Concat(["to", "o"]) == "too";
    assert Concat(["n"]) == "n";
  }

  lemma ProlongationFolds()
    ensures Fold("ー") == "ー" && Fold("トー") == "とー" && Fold("ンー") == "んー"
  {
    FoldKeepsHiragana("ー");
  }

  // ---------------------------------------------------------------------
  // Whole-reading assembler

  /** The romaji of each token, in token order. */
  function RomajiParts(tokens: seq<string>): (parts: seq<string>)
    ensures |parts| == |tokens|
  {
    seq(|tokens|, k requires 0 <= k < |tokens| => TokenRomaji(tokens[k]))
  }

  predicate SomeTokenFails(tokens: seq<string>)
  {
    exists k :: 0 <= k < |tokens| && TokenRomaji(tokens[k]) == ""
  }

  /** kana_to_slug as a value. */
  function ReadingSlug(kana: Option<string>): Option<string>
  {
    if kana.None? || kana.value == "" then None
    else
      var tokens := Tokens(kana.value);
      if tokens == [] || SomeTokenFails(tokens) then None
      else Some(JoinWith(RomajiParts(tokens), "_"))
  }

  /** kana_to_slug: romanise every token; any empty token rejects the whole
      reading. */
  method KanaToSlug(kana: Option<string>) returns (slug: Option<string>)
    ensures slug == ReadingSlug(kana)
  {
    if kana.None? || kana.value == "" {
      return None;
    }
    var tokens := Tokens(kana.value);
    if tokens == [] {
      return None;
    }
    var romajiParts: seq<string> := [];
    for k := 0 to |tokens|
      invariant romajiParts == RomajiParts(tokens)[..k]
      invariant forall j :: 0 <= j < k ==> TokenRomaji(tokens[j]) != ""
    {
      var roman := KanaTokenToRomaji(tokens[k]);
      if roman == "" {
        assert SomeTokenFails(tokens);
        return None;
      }
      romajiParts := romajiParts + [roman];
    }
    assert romajiParts == RomajiParts(tokens);
    assert !SomeTokenFails(tokens);
    return Some(JoinWith(romajiParts, "_"));
  }

  /** The reading is rejected in exactly three cases: no reading or an empty
      one, an all-whitespace one, or a token with nothing that maps. */
  lemma ReadingSlugNoneIff(kana: Option<string>)
    ensures ReadingSlug(kana).None? <==>
      || kana.None?
      || AllSpace(kana.value)
      || exists k :: 0 <= k < |Tokens(kana.value)| && TokenRomaji(Tokens(kana.value)[k]) == ""
  {
    if kana.Some? {
      TokensEmptyIffAllSpace(kana.value);
    }
  }

  /** A reading slug is never missing a component: it is non-empty, and
      splitting it at "_" gives back the romaji of every token, in order. */
  lemma ReadingSlugComponents(kana: Option<string>)
    requires ReadingSlug(kana).Some?
    ensures var tokens := Tokens(kana.value);
            && ReadingSlug(kana).value != ""
            && SplitOn(ReadingSlug(kana).value, '_') == RomajiParts(tokens)
            && |SplitOn(ReadingSlug(kana).value, '_')| == |tokens|
            && forall k :: 0 <= k < |tokens| ==> SplitOn(ReadingSlug(kana).value, '_')[k] != ""
  {
    var tokens := Tokens(kana.value);
    var parts := RomajiParts(tokens);
    forall k | 0 <= k < |parts| ensures '_' !in parts[k] {
      RomajiIsLowercase(tokens[k]);
      assert forall j :: 0 <= j < |parts[k]| ==> parts[k][j] != '_';
    }
    SplitJoin(parts, '_');
    assert parts[0] != "";
    assert JoinWith(parts, "_") != "" by {
      if |parts| > 1 {
        assert |JoinWith(parts, "_")| >= |parts[0]|;
      }
    }
  }

  lemma PlainBaseExamples()
    ensures BaseConcat(Romaji, "たなか") == "tanaka"
    ensures BaseConcat(Romaji, "たろう") == "tarou"
  {
    TanakaBases();
    TarouBases();
  }

  lemma TanakaBases()
    ensures BaseConcat(Romaji, "たなか") == "tanaka"
  {
    var s := "たなか";
    assert s[1..] == "なか" && s[1..][1..] == "か" && s[1..][1..][1..] == "";
    assert BaseConcat(Romaji, "か") == "ka";
    assert BaseConcat(Romaji, "なか") == "naka";
  }

  lemma TarouBases()
    ensures BaseConcat(Romaji, "たろう") == "tarou"
  {
    var s := "たろう";
    assert s[1..] == "ろう" && s[1..][1..] == "う" && s[1..][1..][1..] == "";
    assert BaseConcat(Romaji, "う") == "u";
    assert BaseConcat(Romaji, "ろう") == "rou";
  }

  lemma PlainTokenExamples()
    ensures TokenRomaji("たなか") == "tanaka"
    ensures TokenRomaji("たろう") == "tarou"
  {
    PlainBaseExamples();
    FoldKeepsHiragana("たなか");
    PlainExamples();
    PlainRomanise(Romaji, "たなか");
    FoldKeepsHiragana("たろう");
    PlainRomanise(Romaji, "たろう");
  }

  lemma PlainExamples()
    ensures PlainKana(Romaji, "たなか") && PlainKana(Romaji, "たろう")
  {
    assert PlainKana(Romaji, "たなか");
    assert PlainKana(Romaji, "たろう");
  }

  lemma ReadingTokensExample()
    ensures Tokens("たなか　たろう") == ["たなか", "たろう"]
  {
    ReadingWords();
    TokensOfTwoWords("たなか", "　", "たろう");
  }

  lemma ReadingWords()
    ensures NoSpace("たなか") && NoSpace("たろう") && AllSpace("　")
    ensures "たなか" + "　" + "たろう" == "たなか　たろう"
  {
  }

  lemma ReadingSlugExample()
    ensures ReadingSlug(Some("たなか　たろう")) == Some("tanaka_tarou")
  {
    ReadingTokensExample();
    PlainTokenExamples();
    JoinExample();
    ReadingSlugOfParts("たなか　たろう", ["たなか", "たろう"], ["tanaka", "tarou"]);
  }

  /** A reading whose tokens all romanise to non-empty parts gives those
      parts joined by "_". */
  lemma ReadingSlugOfParts(kana: string, tokens: seq<string>, parts: seq<string>)
    requires kana != "" && Tokens(kana) == tokens && tokens != []
    requires |parts| == |tokens|
    requires forall k :: 0 <= k < |tokens| ==> TokenRomaji(tokens[k]) == parts[k] != ""
    ensures ReadingSlug(Some(kana)) == Some(JoinWith(parts, "_"))
  {
    assert RomajiParts(tokens) == parts;
  }

  lemma JoinExample()
    ensures JoinWith(["tanaka", "tarou"], "_") == "tanaka_tarou"
  {
    assert ["tanaka", "tarou"][1..] == ["tarou"];
    assert "tanaka" + "_" + "tarou" == "tanaka_tarou";
  }

  // ---------------------------------------------------------------------
  // Display-name fallback

  predicate KeptByFallback(c: char)
  {
    IsAsciiAlnum(c) || c == ' '
  }

  /** `[ch for ch in name if ch.isascii() and (ch.isalnum() or ch == ' ')]` */
  function AsciiKept(name: string): (kept: string)
    ensures forall k :: 0 <= k < |kept| ==> KeptByFallback(kept[k])
    ensures kept == [] <==> forall k :: 0 <= k < |name| ==> !KeptByFallback(name[k])
    decreases |name|
  {
    if name == [] then []
    else if KeptByFallback(name[0]) then [name[0]] + AsciiKept(name[1..])
    else
      assert forall k :: 1 <= k < |name| ==> name[k] == name[1..][k - 1];
      AsciiKept(name[1..])
  }

  const HexPrefix: string := "member-"

  /** slugify_fallback */
  function SlugifyFallback(name: string): string
  {
    var kept := AsciiKept(name);
    if kept != [] then JoinWith(Tokens(LowerAscii(kept)), "_")
    else HexPrefix + HexCodepoints(name)
  }

  predicate IsDelimitedAscii(s: string)
  {
    forall k :: 0 <= k < |s| ==> IsLowerAlnum(s[k]) || s[k] == '_'
  }

  lemma {:induction false} JoinAlnum(parts: seq<string>)
    requires forall k :: 0 <= k < |parts| ==> forall j :: 0 <= j < |parts[k]| ==> IsLowerAlnum(parts[k][j])
    ensures IsDelimitedAscii(JoinWith(parts, "_"))
    decreases |parts|
  {
    if |parts| > 1 {
      JoinAlnum(parts[1..]);
      var s := JoinWith(parts, "_");
      var p := parts[0];
      assert s == p + "_" + JoinWith(parts[1..], "_");
      forall k | 0 <= k < |s| ensures IsLowerAlnum(s[k]) || s[k] == '_' {
        if k < |p| { assert s[k] == p[k]; }
        else if k > |p| { assert s[k] == JoinWith(parts[1..], "_")[k - |p| - 1]; }
      }
    } else if |parts| == 1 {
      assert JoinWith(parts, "_") == parts[0];
    }
  }

  /** ASCII path: when the name keeps any ASCII letter, digit or space, the
      slug is the lower-cased space-separated runs joined by "_"; it is ""
      exactly when what was kept is only spaces. */
  lemma FallbackAsciiForm(name: string)
    requires AsciiKept(name) != []
    ensures var kept := AsciiKept(name);
            var slug := SlugifyFallback(name);
            && IsDelimitedAscii(slug)
            && (slug == "" <==> forall k :: 0 <= k < |kept| ==> kept[k] == ' ')
            && (slug != "" ==> SplitOn(slug, '_') == Tokens(LowerAscii(kept)))
  {
    var kept := AsciiKept(name);
    var low := LowerAscii(kept);
    var ts := Tokens(low);
    TokensEmptyIffAllSpace(low);
    KeptSpacesIff(kept);
    forall k | 0 <= k < |ts| ensures forall j :: 0 <= j < |ts[k]| ==> IsLowerAlnum(ts[k][j]) {
      TokenChars(low, k);
    }
    JoinedTokens(ts);
  }

  /** Lower-casing what the fallback keeps leaves only spaces exactly when
      only spaces were kept. */
  lemma KeptSpacesIff(kept: string)
    requires forall k :: 0 <= k < |kept| ==> KeptByFallback(kept[k])
    ensures AllSpace(LowerAscii(kept)) <==> forall k :: 0 <= k < |kept| ==> kept[k] == ' '
  {
    var low := LowerAscii(kept);
    forall k | 0 <= k < |kept| ensures IsSpace(low[k]) <==> kept[k] == ' ' {
      assert KeptByFallback(kept[k]);
    }
  }

  /** Lower-case alphanumeric tokens joined by "_" split back at "_". */
  lemma JoinedTokens(ts: seq<string>)
    requires forall k :: 0 <= k < |ts| ==> ts[k] != []
    requires forall k :: 0 <= k < |ts| ==> forall j :: 0 <= j < |ts[k]| ==> IsLowerAlnum(ts[k][j])
    ensures IsDelimitedAscii(JoinWith(ts, "_"))
    ensures JoinWith(ts, "_") == "" <==> ts == []
    ensures ts != [] ==> SplitOn(JoinWith(ts, "_"), '_') == ts
  {
    JoinAlnum(ts);
    if ts != [] {
      forall k | 0 <= k < |ts| ensures '_' !in ts[k] {
        assert forall j :: 0 <= j < |ts[k]| ==> IsLowerAlnum(ts[k][j]);
      }
      SplitJoin(ts, '_');
      assert JoinWith(ts, "_") != "" by {
        assert ts[0] != "";
        if |ts| > 1 { assert |JoinWith(ts, "_")| >= |ts[0]|; }
      }
    }
  }

  /** Every token of a lower-cased kept string is lower-case alphanumeric. */
  lemma TokenChars(low: string, k: nat)
    requires forall j :: 0 <= j < |low| ==> IsLowerAlnum(low[j]) || low[j] == ' '
    requires k < |Tokens(low)|
    ensures forall j :: 0 <= j < |Tokens(low)[k]| ==> IsLowerAlnum(Tokens(low)[k][j])
  {
    TokensDrawnFrom(low);
    var t := Tokens(low)[k];
    forall j | 0 <= j < |t| ensures IsLowerAlnum(t[j]) {
      assert !IsSpace(t[j]);
      assert t[j] in low;
    }
  }

  /** Every character of every token occurs in the string. */
  lemma {:induction false} TokensDrawnFrom(s: string)
    ensures forall k, j :: 0 <= k < |Tokens(s)| && 0 <= j < |Tokens(s)[k]| ==> Tokens(s)[k][j] in s
    decreases |s|
  {
    if s != [] {
      if IsSpace(s[0]) {
        TokensDrawnFrom(s[1..]);
        assert forall c :: c in s[1..] ==> c in s;
      } else {
        var n := RunLength(s);
        TokensDrawnFrom(s[n..]);
        assert forall c :: c in s[n..] ==> c in s;
        assert forall c :: c in s[..n] ==> c in s;
      }
    }
  }

  /** Hex path: otherwise the slug is "member-" followed by the hex code
      points, which split back into the name's code points. */
  lemma FallbackHexForm(name: string)
    requires AsciiKept(name) == []
    ensures var slug := SlugifyFallback(name);
            && StartsWith(slug, HexPrefix)
            && (name == "" ==> slug == HexPrefix)
            && (name != "" ==>
                  var parts := SplitOn(slug[|HexPrefix|..], '-');
                  |parts| == |name| && forall k :: 0 <= k < |name| ==> ParseHex(parts[k]) == name[k] as int)
  {
    var slug := SlugifyFallback(name);
    assert slug[|HexPrefix|..] == HexCodepoints(name);
    if name != "" {
      HexCodepointsReversible(name);
    }
  }

  lemma FallbackAsciiExample()
    ensures SlugifyFallback("Smith") == "smith"
  {
    SmithKept();
    assert LowerAscii("Smith") == "smith";
    assert JoinWith(["smith"], " ") == "smith";
    TokensOfJoin(["smith"]);
    assert JoinWith(["smith"], "_") == "smith";
  }

  lemma SmithKept()
    ensures AsciiKept("Smith") == "Smith"
  {
  }

  /** A name whose only kept character is a space yields the empty slug. */
  lemma FallbackEmptyExample()
    ensures SlugifyFallback("田中 太郎") == ""
  {
    assert AsciiKept("郎") == [];
    assert AsciiKept("太郎") == [];
    assert AsciiKept(" 太郎") == " ";
    assert AsciiKept("中 太郎") == " ";
    assert AsciiKept("田中 太郎") == " ";
    assert LowerAscii(" ") == " ";
    assert " "[1..] == [];
    assert Tokens(" ") == [];
  }

  lemma FallbackHexExample()
    ensures SlugifyFallback("") == "member-"
    ensures SlugifyFallback("田") == "member-7530"
  {
    assert HexParts("田") == [Hex(0x7530)];
    assert Hex(0x7530) == "7530";
  }

  // ---------------------------------------------------------------------
  // Slug-assignment driver

  function KanaOf(member: Dict): Option<string>
  {
    var v := Get(member, "kana");
    if v.Str? then Some(v.s) else None
  }

  /** `member.get("member_name", "")` */
  function NameOf(member: Dict): string
  {
    TextOf(Get(member, "member_name"))
  }

  /** The slug an unslugged member receives: the reading slug, or else the
      display-name fallback. */
  function SlugFor(member: Dict): string
  {
    var s := ReadingSlug(KanaOf(member));
    if s.Some? && s.value != "" then s.value else SlugifyFallback(NameOf(member))
  }

  predicate HasSlug(member: Dict)
  {
    Truthy(Get(member, "slug"))
  }

  /** One member after the driver has visited it, for a slug rule
      `slugFor`: a member with a truthy slug is left alone, any other gets
      `slugFor(member)`. */
  function Visit(member: Dict, slugFor: Dict -> string): Dict
  {
    if HasSlug(member) then member else member["slug" := Str(slugFor(member))]
  }

  /** One member after main's loop has visited it. */
  function Assigned(member: Dict): Dict
  {
    Visit(member, SlugFor)
  }

  function CountUnslugged(members: seq<Dict>): (n: nat)
    ensures n <= |members|
    decreases |members|
  {
    if members == [] then 0
    else CountUnslugged(members[..|members| - 1]) + (if HasSlug(members[|members| - 1]) then 0 else 1)
  }

  /** The loop of `main`, for any slug rule: members with a truthy slug
      are not touched, every other member gets its slug in place, and the
      count is the number of members whose slug was falsy. */
  method VisitMembers(members: array<Dict>, slugFor: Dict -> string) returns (updated: nat)
    modifies members
    ensures forall k :: 0 <= k < members.Length ==> members[k] == Visit(old(members[k]), slugFor)
    ensures forall k :: 0 <= k < members.Length && HasSlug(old(members[k])) ==> members[k] == old(members[k])
    ensures updated == CountUnslugged(old(members[..]))
  {
    ghost var before := members[..];
    updated := 0;
    for k := 0 to members.Length
      invariant forall j :: 0 <= j < k ==> members[j] == Visit(before[j], slugFor)
      invariant forall j :: k <= j < members.Length ==> members[j] == before[j]
      invariant updated == CountUnslugged(before[..k])
    {
      assert before[..k + 1][..k] == before[..k];
      var member := members[k];
      if HasSlug(member) {
        continue;
      }
      members[k] := member["slug" := Str(slugFor(member))];
      updated := updated + 1;
    }
    assert before[..members.Length] == before;
  }

  /** main's loop with its slug rule: `kana_to_slug(kana)`, or else
      `slugify_fallback(name)`. */
  method AssignSlugs(members: array<Dict>) returns (updated: nat)
    modifies members
    ensures forall k :: 0 <= k < members.Length ==> members[k] == Assigned(old(members[k]))
    ensures updated == CountUnslugged(old(members[..]))
  {
    updated := VisitMembers(members, SlugFor);
  }

  /** After one visit a member has a truthy slug unless it received "";
      a second visit changes nothing. */
  lemma AssignedOnce(member: Dict)
    ensures HasSlug(Assigned(member)) <==> HasSlug(member) || SlugFor(member) != ""
    ensures Assigned(Assigned(member)) == Assigned(member)
  {
    if !HasSlug(member) {
      var m' := member["slug" := Str(SlugFor(member))];
      assert KanaOf(m') == KanaOf(member) && NameOf(m') == NameOf(member);
    }
  }

  /** The driver's effect on a whole member list. */
  function AssignAll(members: seq<Dict>): (r: seq<Dict>)
    ensures |r| == |members|
    ensures forall k :: 0 <= k < |members| ==> r[k] == Assigned(members[k])
    decreases |members|
  {
    if members == [] then []
    else AssignAll(members[..|members| - 1]) + [Assigned(members[|members| - 1])]
  }

  /** Members that had no slug and received the empty one. */
  function CountEmptySlugs(members: seq<Dict>): (n: nat)
    ensures n <= CountUnslugged(members)
    decreases |members|
  {
    if members == [] then 0
    else
      var m := members[|members| - 1];
      CountEmptySlugs(members[..|members| - 1]) + (if !HasSlug(m) && SlugFor(m) == "" then 1 else 0)
  }

  /** Running the driver a second time leaves every member as it is, and
      counts again exactly the members whose slug came out "". */
  lemma {:induction false} SecondRun(members: seq<Dict>)
    ensures AssignAll(AssignAll(members)) == AssignAll(members)
    ensures CountUnslugged(AssignAll(members)) == CountEmptySlugs(members)
    decreases |members|
  {
    if members != [] {
      var init, m := members[..|members| - 1], members[|members| - 1];
      SecondRun(init);
      AssignedOnce(m);
      var after := AssignAll(members);
      assert after[..|after| - 1] == AssignAll(init);
      assert after[|after| - 1] == Assigned(m);
      assert AssignAll(after)[..|after| - 1] == AssignAll(AssignAll(init));
    }
  }
}
