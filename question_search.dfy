/** Keyword matching of parliament/tools/fetch_written_questions.py: the
    search normalisation, the (keyword, variant) pairs and the title matcher.
    Text is taken as already NFKC-normalised. */
module QuestionSearch {
  import opened Text
  import opened Lists

  /** KEYWORDS */
  const Keywords: seq<string> := [
    "障害福祉", "障害 福祉", "障がい 福祉", "障害者 福祉", "障がい者 福祉", "障害児 福祉",
    "障がい児 福祉", "医療的ケア児", "放課後等デイサービス", "特別児童扶養手当",
    "障害児福祉手当", "特別障害者手当"]

  /** normalize_for_search: every whitespace run becomes one space and the
      ends are stripped, which is the tokens joined by single spaces. */
  function NormalizeForSearch(text: string): string
  {
    JoinWith(Tokens(text), " ")
  }

  /** Normalising keeps the words, and a normalised text is its own
      normal form. */
  lemma NormalizeKeepsWords(text: string)
    ensures Tokens(NormalizeForSearch(text)) == Tokens(text)
    ensures NormalizeForSearch(NormalizeForSearch(text)) == NormalizeForSearch(text)
  {
    TokensOfJoin(Tokens(text));
  }

  /** A normalised text has no space at either end and none doubled. */
  lemma {:induction false} NormalizedShape(words: seq<string>)
    requires forall k :: 0 <= k < |words| ==> words[k] != [] && NoSpace(words[k])
    ensures var s := JoinWith(words, " ");
            && (s == [] || (!IsSpace(s[0]) && !IsSpace(s[|s| - 1])))
            && (forall k :: 0 <= k < |s| && IsSpace(s[k]) ==> s[k] == ' ' && 0 < k < |s| - 1 && !IsSpace(s[k + 1]))
    decreases |words|
  {
    if |words| > 1 {
      NormalizedShape(words[1..]);
      var w, rest := words[0], JoinWith(words[1..], " ");
      var s := w + " " + rest;
      assert JoinWith(words, " ") == s;
      assert rest != [] by { assert |rest| >= |words[1]| by { JoinLength(words[1..]); } }
      forall k | 0 <= k < |s| && IsSpace(s[k]) ensures s[k] == ' ' && 0 < k < |s| - 1 && !IsSpace(s[k + 1]) {
        if k == |w| {
          assert s[k + 1] == rest[0];
        } else {
          assert s[k] == rest[k - |w| - 1];
          assert k + 1 < |s| ==> s[k + 1] == rest[k - |w|];
        }
      }
      assert s[|s| - 1] == rest[|rest| - 1];
    } else if |words| == 1 {
      assert JoinWith(words, " ") == words[0];
    }
  }

  lemma {:induction false} JoinLength(words: seq<string>)
    requires words != []
    ensures |JoinWith(words, " ")| >= |words[0]|
    decreases |words|
  {
  }

  type Variant = (string, string)

  /** The candidates of one keyword: its normalised form and that form
      without spaces (a set in the tool, so listed here in a fixed order). */
  function Candidates(keyword: string): seq<string>
  {
    var norm := NormalizeForSearch(keyword);
    [norm, Remove(norm, ' ')]
  }

  /** The pair (keyword, candidate) is one the variant builder must yield. */
  predicate IsVariantOf(keywords: seq<string>, v: Variant)
  {
    v.0 in keywords && v.1 in Candidates(v.0) && v.1 != ""
  }

  /** build_keyword_variants: the pairs of every keyword with each of its
      non-empty candidates, each pair once. */
  method BuildKeywordVariants(keywords: seq<string>) returns (variants: seq<Variant>)
    ensures forall v :: v in variants <==> IsVariantOf(keywords, v)
    ensures forall i, j :: 0 <= i < j < |variants| ==> variants[i] != variants[j]
    ensures forall k :: 0 <= k < |variants| ==> variants[k].1 != ""
  {
    variants := [];
    var seen: set<Variant> := {};
    for k := 0 to |keywords|
      invariant seen == set v | v in variants
      invariant forall v :: v in variants <==> IsVariantOf(keywords[..k], v)
      invariant forall i, j :: 0 <= i < j < |variants| ==> variants[i] != variants[j]
    {
      VariantStep(keywords, k);
      variants, seen := AddCandidates(variants, seen, keywords[k], Candidates(keywords[k]));
    }
    assert keywords[..|keywords|] == keywords;
    forall k | 0 <= k < |variants| ensures variants[k].1 != "" {
      assert variants[k] in variants;
    }
  }

  /** The inner loop: the pairs of one keyword with its non-empty
      candidates that are not yet listed go last, in candidate order. */
  method AddCandidates(variants: seq<Variant>, seen: set<Variant>, keyword: string, candidates: seq<string>)
    returns (out: seq<Variant>, outSeen: set<Variant>)
    requires seen == set v | v in variants
    requires forall i, j :: 0 <= i < j < |variants| ==> variants[i] != variants[j]
    ensures outSeen == set v | v in out
    ensures forall v :: v in out <==> v in variants || (v.0 == keyword && v.1 in candidates && v.1 != "")
    ensures forall i, j :: 0 <= i < j < |out| ==> out[i] != out[j]
  {
    out, outSeen := variants, seen;
    for c := 0 to |candidates|
      invariant outSeen == set v | v in out
      invariant forall v :: v in out <==> v in variants || (v.0 == keyword && v.1 in candidates[..c] && v.1 != "")
      invariant forall i, j :: 0 <= i < j < |out| ==> out[i] != out[j]
    {
      var key := (keyword, candidates[c]);
      if candidates[c] != "" && key !in outSeen {
        out := out + [key];
        outSeen := outSeen + {key};
      }
    }
    assert candidates[..|candidates|] == candidates;
  }

  /** A further keyword adds the pairs of its own candidates. */
  lemma VariantStep(keywords: seq<string>, k: nat)
    requires k < |keywords|
    ensures forall v :: IsVariantOf(keywords[..k + 1], v) <==>
              IsVariantOf(keywords[..k], v) || (v.0 == keywords[k] && v.1 in Candidates(keywords[k]) && v.1 != "")
  {
    assert keywords[..k + 1] == keywords[..k] + [keywords[k]];
  }

  /** One keyword contributes two pairs, or one when it has no space to
      remove. */
  lemma CandidatesOfKeyword(keyword: string)
    ensures Candidates(keyword)[0] == Candidates(keyword)[1] <==> ' ' !in NormalizeForSearch(keyword)
  {
    var norm := NormalizeForSearch(keyword);
    if ' ' !in norm {
      RemoveAbsent(norm, ' ');
    }
  }

  /** The title in the two forms a variant is tested against. */
  function NormalizedTitle(title: string): string
  {
    LowerAscii(NormalizeForSearch(title))
  }

  function CompactTitle(title: string): string
  {
    Remove(NormalizedTitle(title), ' ')
  }

  /** A variant with a space is looked up in the normalised title, one
      without in the title with its spaces removed. */
  predicate Hits(v: Variant, title: string)
  {
    var target := if ' ' !in v.1 then CompactTitle(title) else NormalizedTitle(title);
    Contains(target, LowerAscii(v.1))
  }

  /** The loop of match_keywords from variant `i` on, after `matches`. */
  function MatchFrom(variants: seq<Variant>, title: string, i: nat, matches: seq<string>): seq<string>
    requires i <= |variants|
    decreases |variants| - i
  {
    if i == |variants| then matches
    else
      var v := variants[i];
      var next := if Hits(v, title) && v.0 !in matches then matches + [v.0] else matches;
      MatchFrom(variants, title, i + 1, next)
  }

  /** match_keywords, over the variants built from the keyword list. */
  function MatchKeywords(variants: seq<Variant>, title: string): seq<string>
  {
    MatchFrom(variants, title, 0, [])
  }

  /** The originals of the hitting variants, in variant order. */
  function HitKeywords(variants: seq<Variant>, title: string): seq<string>
    decreases |variants|
  {
    if variants == [] then []
    else
      var init := HitKeywords(variants[..|variants| - 1], title);
      var v := variants[|variants| - 1];
      if Hits(v, title) then init + [v.0] else init
  }

  lemma {:induction false} MatchFromIsDedup(variants: seq<Variant>, title: string, i: nat)
    requires i <= |variants|
    ensures MatchFrom(variants, title, i, Dedup(HitKeywords(variants[..i], title)))
         == Dedup(HitKeywords(variants, title))
    decreases |variants| - i
  {
    if i < |variants| {
      assert variants[..i + 1][..i] == variants[..i];
      MatchFromIsDedup(variants, title, i + 1);
    } else {
      assert variants[..i] == variants;
    }
  }

  /** match_keywords returns each matching keyword once, in the order of
      its first hitting variant: exactly the keywords with a hitting
      variant, without duplicates. */
  lemma MatchKeywordsSpec(variants: seq<Variant>, title: string)
    ensures MatchKeywords(variants, title) == Dedup(HitKeywords(variants, title))
    ensures NoDuplicates(MatchKeywords(variants, title))
    ensures forall kw :: kw in MatchKeywords(variants, title) <==>
              exists v :: v in variants && v.0 == kw && Hits(v, title)
  {
    assert variants[..0] == [];
    MatchFromIsDedup(variants, title, 0);
    HitKeywordsMembers(variants, title);
  }

  lemma {:induction false} HitKeywordsMembers(variants: seq<Variant>, title: string)
    ensures forall kw :: kw in HitKeywords(variants, title) <==>
              exists v :: v in variants && v.0 == kw && Hits(v, title)
    decreases |variants|
  {
    if variants != [] {
      var init := variants[..|variants| - 1];
      HitKeywordsMembers(init, title);
      assert variants == init + [variants[|variants| - 1]];
    }
  }
}
