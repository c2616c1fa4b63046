/** String operations of Python's `str` that the tools rely on, restricted to
    what they are used for: whitespace handling, `split`/`join`, prefix and
    substring tests, ASCII character classes, and hexadecimal and decimal
    renderings of integers. */
module Text {

  /** Python's `str.isspace()`; the same set is used by `\s`, by `strip()`
      and by `split()` without arguments. */
  predicate IsSpace(c: char)
  {
    ('\t' <= c <= '\r') || ('\U{1C}' <= c <= '\U{1F}') || c == ' '
    || c == '\U{85}' || c == '\U{A0}' || c == '\U{1680}'
    || ('\U{2000}' <= c <= '\U{200A}') || c == '\U{2028}' || c == '\U{2029}'
    || c == '\U{202F}' || c == '\U{205F}' || c == '\U{3000}'
  }

  predicate NoSpace(s: string)
  {
    forall k :: 0 <= k < |s| ==> !IsSpace(s[k])
  }

  predicate AllSpace(s: string)
  {
    forall k :: 0 <= k < |s| ==> IsSpace(s[k])
  }

  /** Number of whitespace characters that `s` starts with. */
  function LeadingSpaces(s: string): (n: nat)
    ensures n <= |s| && (n == |s| || !IsSpace(s[n]))
    ensures forall k :: 0 <= k < n ==> IsSpace(s[k])
    decreases |s|
  {
    if s != [] && IsSpace(s[0]) then 1 + LeadingSpaces(s[1..]) else 0
  }

  /** Number of whitespace characters that `s` ends with. */
  function TrailingSpaces(s: string): (n: nat)
    ensures n <= |s| && (n == |s| || !IsSpace(s[|s| - n - 1]))
    ensures forall k :: |s| - n <= k < |s| ==> IsSpace(s[k])
    decreases |s|
  {
    if s != [] && IsSpace(s[|s| - 1]) then 1 + TrailingSpaces(s[..|s| - 1]) else 0
  }

  /** `s.lstrip()` */
  function LStrip(s: string): (r: string)
    ensures |r| <= |s| && r == s[|s| - |r|..]
    ensures r == [] || !IsSpace(r[0])
    ensures AllSpace(s[..|s| - |r|])
  {
    var n := LeadingSpaces(s);
    assert forall k :: 0 <= k < n ==> s[..n][k] == s[k];
    s[n..]
  }

  /** `s.rstrip()` */
  function RStrip(s: string): (r: string)
    ensures |r| <= |s| && r == s[..|r|]
    ensures r == [] || !IsSpace(r[|r| - 1])
    ensures AllSpace(s[|r|..])
  {
    var n := |s| - TrailingSpaces(s);
    assert forall k :: n <= k < |s| ==> s[n..][k - n] == s[k];
    s[..n]
  }

  /** `s.strip()` */
  function Strip(s: string): string
  {
    RStrip(LStrip(s))
  }

  /** Length of the leading run of non-whitespace characters. */
  function RunLength(s: string): (n: nat)
    ensures n <= |s|
    ensures NoSpace(s[..n])
    ensures n < |s| ==> IsSpace(s[n])
  {
    if s == [] || IsSpace(s[0]) then 0 else 1 + RunLength(s[1..])
  }

  /** `s.split()`: the maximal runs of non-whitespace characters, in order.
      `[t for t in re.split(r"\s+", s.strip()) if t]` is the same list. */
  function Tokens(s: string): (ts: seq<string>)
    ensures forall k :: 0 <= k < |ts| ==> ts[k] != [] && NoSpace(ts[k])
    decreases |s|
  {
    if s == [] then []
    else if IsSpace(s[0]) then Tokens(s[1..])
    else
      var n := RunLength(s);
      [s[..n]] + Tokens(s[n..])
  }

  /** A string splits into no tokens exactly when it is all whitespace
      (the empty string included). */
  lemma {:induction false} TokensEmptyIffAllSpace(s: string)
    ensures Tokens(s) == [] <==> AllSpace(s)
    decreases |s|
  {
    if s != [] && IsSpace(s[0]) {
      TokensEmptyIffAllSpace(s[1..]);
      if AllSpace(s[1..]) {
        forall k | 0 <= k < |s| ensures IsSpace(s[k]) {
          if k > 0 { assert s[k] == s[1..][k - 1]; }
        }
      } else {
        var k :| 0 <= k < |s[1..]| && !IsSpace(s[1..][k]);
        assert !IsSpace(s[k + 1]);
      }
    }
  }

  /** `sep.join(parts)` */
  function JoinWith(parts: seq<string>, sep: string): string
    decreases |parts|
  {
    if parts == [] then ""
    else if |parts| == 1 then parts[0]
    else parts[0] + sep + JoinWith(parts[1..], sep)
  }

  /** `"".join(parts)` */
  function Concat(parts: seq<string>): string
    decreases |parts|
  {
    if parts == [] then "" else parts[0] + Concat(parts[1..])
  }

  lemma {:induction false} ConcatAppend(parts: seq<string>, last: string)
    ensures Concat(parts + [last]) == Concat(parts) + last
    decreases |parts|
  {
    if parts != [] {
      assert (parts + [last])[1..] == parts[1..] + [last];
      ConcatAppend(parts[1..], last);
    }
  }

  lemma {:induction false} TokensSkipSpaces(sp: string, s: string)
    requires AllSpace(sp)
    ensures Tokens(sp + s) == Tokens(s)
    decreases |sp|
  {
    if sp == [] {
      assert sp + s == s;
    } else {
      assert (sp + s)[0] == sp[0];
      assert (sp + s)[1..] == sp[1..] + s;
      assert AllSpace(sp[1..]) by {
        forall k | 0 <= k < |sp[1..]| ensures IsSpace(sp[1..][k]) { assert sp[1..][k] == sp[k + 1]; }
      }
      TokensSkipSpaces(sp[1..], s);
    }
  }

  lemma RunLengthOfWord(w: string, rest: string)
    requires w != [] && NoSpace(w)
    requires rest == [] || IsSpace(rest[0])
    ensures RunLength(w + rest) == |w|
  {
    var s := w + rest;
    var n := RunLength(s);
    assert forall k :: 0 <= k < |w| ==> s[k] == w[k];
    assert rest != [] ==> s[|w|] == rest[0];
    assert forall k :: 0 <= k < n ==> s[..n][k] == s[k];
  }

  /** A word followed by whitespace (or nothing) is the first token. */
  lemma TokensAfterWord(w: string, rest: string)
    requires w != [] && NoSpace(w)
    requires rest == [] || IsSpace(rest[0])
    ensures Tokens(w + rest) == [w] + Tokens(rest)
  {
    var s := w + rest;
    RunLengthOfWord(w, rest);
    assert s[0] == w[0];
    assert s[..|w|] == w && s[|w|..] == rest;
  }

  /** Two words with whitespace between them are two tokens. */
  lemma TokensOfTwoWords(a: string, sp: string, b: string)
    requires a != [] && NoSpace(a) && b != [] && NoSpace(b)
    requires sp != [] && AllSpace(sp)
    ensures Tokens(a + sp + b) == [a, b]
  {
    assert a + sp + b == a + (sp + b);
    assert (sp + b)[0] == sp[0];
    TokensAfterWord(a, sp + b);
    TokensSkipSpaces(sp, b);
    TokensAfterWord(b, []);
    assert b + [] == b;
  }

  /** Joining words with single spaces and splitting again gives the words
      back. */
  lemma {:induction false} TokensOfJoin(words: seq<string>)
    requires forall k :: 0 <= k < |words| ==> words[k] != [] && NoSpace(words[k])
    ensures Tokens(JoinWith(words, " ")) == words
    decreases |words|
  {
    if |words| == 1 {
      TokensAfterWord(words[0], []);
      assert words[0] + [] == words[0];
    } else if |words| > 1 {
      var w := words[0];
      var rest := JoinWith(words[1..], " ");
      assert JoinWith(words, " ") == w + (" " + rest);
      TokensAfterWord(w, " " + rest);
      TokensSkipSpaces(" ", rest);
      TokensOfJoin(words[1..]);
    }
  }

  /** Position of the first `c` in `s`, or `|s|` when there is none. */
  function IndexOf(s: string, c: char): (i: nat)
    ensures i <= |s|
    ensures i < |s| ==> s[i] == c
    ensures forall k :: 0 <= k < i ==> s[k] != c
  {
    if s == [] then 0
    else if s[0] == c then 0
    else 1 + IndexOf(s[1..], c)
  }

  /** `s.split(c)` for a one-character separator. */
  function SplitOn(s: string, c: char): (parts: seq<string>)
    ensures parts != []
    decreases |s|
  {
    var i := IndexOf(s, c);
    if i == |s| then [s] else [s[..i]] + SplitOn(s[i + 1..], c)
  }

  /** `s.split(c, 1)[0]`: the text before the first `c`, or all of `s`. */
  function CutAt(s: string, c: char): (r: string)
    ensures |r| <= |s| && r == s[..|r|] && c !in r
    ensures |r| < |s| ==> s[|r|] == c
  {
    s[..IndexOf(s, c)]
  }

  /** Splitting a joined list on a separator that occurs in no part gives the
      parts back. */
  lemma {:induction false} SplitJoin(parts: seq<string>, c: char)
    requires parts != []
    requires forall k :: 0 <= k < |parts| ==> c !in parts[k]
    ensures SplitOn(JoinWith(parts, [c]), c) == parts
    decreases |parts|
  {
    var p := parts[0];
    if |parts| == 1 {
      assert c !in p;
      assert IndexOf(p, c) == |p|;
    } else {
      var rest := JoinWith(parts[1..], [c]);
      var s := p + [c] + rest;
      assert JoinWith(parts, [c]) == s;
      assert c !in p;
      assert IndexOf(s, c) == |p| by {
        assert s[|p|] == c;
        forall k | 0 <= k < |p| ensures s[k] != c { assert s[k] == p[k]; }
      }
      assert s[..|p|] == p;
      assert s[|p| + 1..] == rest;
      SplitJoin(parts[1..], c);
    }
  }

  function StartsWith(s: string, prefix: string): bool
  {
    |prefix| <= |s| && s[..|prefix|] == prefix
  }

  function EndsWith(s: string, suffix: string): bool
  {
    |suffix| <= |s| && s[|s| - |suffix|..] == suffix
  }

  /** `sub in s` */
  predicate Contains(s: string, sub: string)
    decreases |s|
  {
    StartsWith(s, sub) || (s != [] && Contains(s[1..], sub))
  }

  /** An occurrence of `sub` at some position means `sub in s`. */
  lemma {:induction false} ContainsAt(s: string, sub: string, i: nat)
    requires i + |sub| <= |s| && s[i..i + |sub|] == sub
    ensures Contains(s, sub)
    decreases i
  {
    if i > 0 {
      assert s[1..][i - 1..i - 1 + |sub|] == s[i..i + |sub|];
      ContainsAt(s[1..], sub, i - 1);
    } else {
      assert s[..|sub|] == sub;
    }
  }

  // ASCII character classes (`ch.isascii() and ch.isalnum()`, `lower()`)

  predicate IsAsciiDigit(c: char)
  {
    '0' <= c <= '9'
  }

  predicate IsAsciiAlnum(c: char)
  {
    ('a' <= c <= 'z') || ('A' <= c <= 'Z') || IsAsciiDigit(c)
  }

  predicate IsLowerAlnum(c: char)
  {
    ('a' <= c <= 'z') || IsAsciiDigit(c)
  }

  function LowerChar(c: char): (r: char)
  {
    if 'A' <= c <= 'Z' then (c as int + 32) as char else c
  }

  /** `s.lower()` on the ASCII range; other characters are kept. */
  function LowerAscii(s: string): (r: string)
    ensures |r| == |s|
    ensures forall k :: 0 <= k < |s| ==> r[k] == LowerChar(s[k])
  {
    seq(|s|, k requires 0 <= k < |s| => LowerChar(s[k]))
  }

  function UpperChar(c: char): (r: char)
  {
    if 'a' <= c <= 'z' then (c as int - 32) as char else c
  }

  /** `s.upper()` on the ASCII range; other characters are kept. */
  function UpperAscii(s: string): (r: string)
    ensures |r| == |s|
    ensures forall k :: 0 <= k < |s| ==> r[k] == UpperChar(s[k])
  {
    seq(|s|, k requires 0 <= k < |s| => UpperChar(s[k]))
  }

  /** `s.replace(c, "")` for a single character. */
  function Remove(s: string, c: char): (r: string)
    ensures c !in r
    ensures |r| <= |s|
    ensures forall x :: x in r <==> x in s && x != c
    decreases |s|
  {
    if s == [] then []
    else (if s[0] == c then [] else [s[0]]) + Remove(s[1..], c)
  }

  lemma {:induction false} RemoveAbsent(s: string, c: char)
    requires c !in s
    ensures Remove(s, c) == s
    decreases |s|
  {
    if s != [] {
      RemoveAbsent(s[1..], c);
      assert s == [s[0]] + s[1..];
    }
  }

  // Hexadecimal code points: f"{n:x}"

  function HexDigit(d: nat): (c: char)
    requires d < 16
  {
    if d < 10 then ('0' as int + d) as char else ('a' as int + d - 10) as char
  }

  predicate IsHexDigit(c: char)
  {
    IsAsciiDigit(c) || ('a' <= c <= 'f')
  }

  function HexValue(c: char): (d: nat)
    ensures d < 16
  {
    if IsAsciiDigit(c) then c as int - '0' as int
    else if 'a' <= c <= 'f' then c as int - 'a' as int + 10
    else 0
  }

  /** Lower-case hexadecimal without leading zeros ("0" for zero). */
  function Hex(n: nat): (h: string)
    ensures h != []
    ensures forall k :: 0 <= k < |h| ==> IsHexDigit(h[k])
    decreases n
  {
    if n < 16 then [HexDigit(n)] else Hex(n / 16) + [HexDigit(n % 16)]
  }

  function ParseHex(h: string): nat
    decreases |h|
  {
    if h == [] then 0 else ParseHex(h[..|h| - 1]) * 16 + HexValue(h[|h| - 1])
  }

  lemma {:induction false} HexRoundTrip(n: nat)
    ensures ParseHex(Hex(n)) == n
    decreases n
  {
    if n >= 16 {
      var h := Hex(n);
      assert h[..|h| - 1] == Hex(n / 16);
      HexRoundTrip(n / 16);
    }
  }

  /** `"-".join(f"{ord(ch):x}" for ch in s)` */
  function HexCodepoints(s: string): string
  {
    JoinWith(HexParts(s), "-")
  }

  function HexParts(s: string): (parts: seq<string>)
    ensures |parts| == |s|
    ensures forall k :: 0 <= k < |s| ==> parts[k] == Hex(s[k] as int)
  {
    seq(|s|, k requires 0 <= k < |s| => Hex(s[k] as int))
  }

  /** The hex form of a non-empty string splits back into one part per
      character, and each part reads back as that character's code point. */
  lemma HexCodepointsReversible(s: string)
    requires s != []
    ensures |SplitOn(HexCodepoints(s), '-')| == |s|
    ensures forall k :: 0 <= k < |s| ==> ParseHex(SplitOn(HexCodepoints(s), '-')[k]) == s[k] as int
  {
    var parts := HexParts(s);
    forall k | 0 <= k < |parts| ensures '-' !in parts[k] {
      assert forall j :: 0 <= j < |parts[k]| ==> IsHexDigit(parts[k][j]);
    }
    SplitJoin(parts, '-');
    forall k | 0 <= k < |s| ensures ParseHex(parts[k]) == s[k] as int {
      HexRoundTrip(s[k] as int);
    }
  }

  // Decimal integers: f"{n}" and int() on ASCII digit strings

  function DecimalDigits(n: nat): (r: string)
    ensures r != [] && forall k :: 0 <= k < |r| ==> IsAsciiDigit(r[k])
    decreases n
  {
    if n < 10 then [('0' as int + n) as char]
    else DecimalDigits(n / 10) + [('0' as int + n % 10) as char]
  }

  /** `str(n)` for an integer. */
  function Decimal(n: int): string
  {
    if n < 0 then "-" + DecimalDigits(-n) else DecimalDigits(n)
  }

  predicate AllDigits(s: string)
  {
    forall k :: 0 <= k < |s| ==> IsAsciiDigit(s[k])
  }

  /** The value of a string of ASCII digits. */
  function DigitsValue(s: string): nat
    requires AllDigits(s)
    decreases |s|
  {
    if s == [] then 0 else DigitsValue(s[..|s| - 1]) * 10 + (s[|s| - 1] as int - '0' as int)
  }

  predicate AllZeros(s: string)
  {
    forall k :: 0 <= k < |s| ==> s[k] == '0'
  }

  lemma {:induction false} ZerosValue(z: string)
    requires AllZeros(z)
    ensures AllDigits(z) && DigitsValue(z) == 0
    decreases |z|
  {
    if z != [] {
      ZerosValue(z[..|z| - 1]);
    }
  }

  /** Leading zeros add nothing to the value of a digit string. */
  lemma {:induction false} LeadingZerosValue(z: string, s: string)
    requires AllZeros(z) && AllDigits(s)
    ensures AllDigits(z + s) && DigitsValue(z + s) == DigitsValue(s)
    decreases |s|
  {
    if s == [] {
      assert z + s == z;
      ZerosValue(z);
    } else {
      var t := z + s;
      assert t[..|t| - 1] == z + s[..|s| - 1];
      LeadingZerosValue(z, s[..|s| - 1]);
    }
  }

  lemma {:induction false} DecimalRoundTrip(n: nat)
    ensures AllDigits(DecimalDigits(n))
    ensures DigitsValue(DecimalDigits(n)) == n
    decreases n
  {
    if n >= 10 {
      var d := DecimalDigits(n);
      assert d[..|d| - 1] == DecimalDigits(n / 10);
      DecimalRoundTrip(n / 10);
    }
  }

  // Python's string order: lexicographic by code point

  predicate LexLe(a: string, b: string)
    decreases |a|
  {
    a == [] || (b != [] && (a[0] < b[0] || (a[0] == b[0] && LexLe(a[1..], b[1..]))))
  }

  lemma {:induction false} LexLeTotal(a: string, b: string)
    ensures LexLe(a, b) || LexLe(b, a)
    decreases |a|
  {
    if a != [] && b != [] && a[0] == b[0] {
      LexLeTotal(a[1..], b[1..]);
    }
  }

  lemma {:induction false} LexLeTransitive(a: string, b: string, c: string)
    requires LexLe(a, b) && LexLe(b, c)
    ensures LexLe(a, c)
    decreases |a|
  {
    if a != [] && b != [] && c != [] && a[0] == b[0] && b[0] == c[0] {
      LexLeTransitive(a[1..], b[1..], c[1..]);
    }
  }

  lemma {:induction false} LexLeAntisymmetric(a: string, b: string)
    requires LexLe(a, b) && LexLe(b, a)
    ensures a == b
    decreases |a|
  {
    if a != [] {
      LexLeAntisymmetric(a[1..], b[1..]);
      assert a == [a[0]] + a[1..] && b == [b[0]] + b[1..];
    }
  }
  // Substring occurrences

  /** `sub` occurs in `s` at position `i`. */
  predicate OccursAt(s: string, sub: string, i: nat)
  {
    i + |sub| <= |s| && s[i..i + |sub|] == sub
  }

  /** `sub in s` holds exactly when `sub` occurs at some position. */
  lemma {:induction false} ContainsIffOccurs(s: string, sub: string)
    ensures Contains(s, sub) <==> exists i: nat :: OccursAt(s, sub, i)
    decreases |s|
  {
    if Contains(s, sub) {
      if StartsWith(s, sub) {
        assert OccursAt(s, sub, 0);
      } else {
        ContainsIffOccurs(s[1..], sub);
        var i: nat :| OccursAt(s[1..], sub, i);
        assert s[i + 1..i + 1 + |sub|] == s[1..][i..i + |sub|];
        assert OccursAt(s, sub, i + 1);
      }
    }
    if exists i: nat :: OccursAt(s, sub, i) {
      var i: nat :| OccursAt(s, sub, i);
      ContainsAt(s, sub, i);
    }
  }

  lemma OccursInSlice(s: string, a: nat, m: string, w: string, i: nat)
    requires a + |m| <= |s| && m == s[a..a + |m|] && OccursAt(m, w, i)
    ensures OccursAt(s, w, a + i)
  {
    forall k | 0 <= k < |w| ensures s[a + i + k] == w[k] {
      assert m[i + k] == m[i..i + |w|][k];
    }
    assert s[a + i..a + i + |w|] == w;
  }

  /** An occurrence of a word without whitespace lies clear of whitespace
      at the ends. */
  lemma OccursClearOfEnds(s: string, a: nat, m: string, w: string, i: nat)
    requires a + |m| <= |s| && m == s[a..a + |m|]
    requires AllSpace(s[..a]) && AllSpace(s[a + |m|..])
    requires w != [] && NoSpace(w) && OccursAt(s, w, i)
    ensures a <= i && i + |w| <= a + |m| && OccursAt(m, w, i - a)
  {
    var b := a + |m|;
    forall k | 0 <= k < a ensures IsSpace(s[k]) {
      assert s[..a][k] == s[k];
    }
    forall k | b <= k < |s| ensures IsSpace(s[k]) {
      assert s[b..][k - b] == s[k];
    }
    assert s[i] == w[0];
    assert s[i + |w| - 1] == s[i..i + |w|][|w| - 1];
    forall k | 0 <= k < |w| ensures m[i - a + k] == w[k] {
      assert s[i..i + |w|][k] == s[i + k];
    }
    assert m[i - a..i - a + |w|] == w;
  }

  /** Whitespace trimmed from the ends of `s` cannot hold part of a word
      without whitespace, so the word occurs in the middle part `m` exactly
      when it occurs in `s`. */
  lemma ContainsInMiddle(s: string, a: nat, m: string, w: string)
    requires a + |m| <= |s| && m == s[a..a + |m|]
    requires AllSpace(s[..a]) && AllSpace(s[a + |m|..])
    requires w != [] && NoSpace(w)
    ensures Contains(m, w) <==> Contains(s, w)
  {
    ContainsIffOccurs(m, w);
    ContainsIffOccurs(s, w);
    if exists i: nat :: OccursAt(m, w, i) {
      var i: nat :| OccursAt(m, w, i);
      OccursInSlice(s, a, m, w, i);
    }
    if exists i: nat :: OccursAt(s, w, i) {
      var i: nat :| OccursAt(s, w, i);
      OccursClearOfEnds(s, a, m, w, i);
    }
  }

  /** Stripping keeps every word without whitespace that the text holds. */
  lemma StripKeepsWords(s: string, w: string)
    requires w != [] && NoSpace(w)
    ensures Contains(Strip(s), w) <==> Contains(s, w)
  {
    StripIsMiddle(s);
    ContainsInMiddle(s, |s| - |LStrip(s)|, Strip(s), w);
  }

  /** `s.strip()` is the part of `s` between whitespace ends. */
  lemma StripIsMiddle(s: string)
    ensures var a := |s| - |LStrip(s)|;
            && a + |Strip(s)| <= |s| && Strip(s) == s[a..a + |Strip(s)|]
            && AllSpace(s[..a]) && AllSpace(s[a + |Strip(s)|..])
  {
    MiddleOf(s, LStrip(s), Strip(s));
  }

  lemma MiddleOf(s: string, l: string, r: string)
    requires |l| <= |s| && l == s[|s| - |l|..] && AllSpace(s[..|s| - |l|])
    requires |r| <= |l| && r == l[..|r|] && AllSpace(l[|r|..])
    ensures var a := |s| - |l|;
            && a + |r| <= |s| && r == s[a..a + |r|]
            && AllSpace(s[..a]) && AllSpace(s[a + |r|..])
  {
    var a := |s| - |l|;
    assert r == s[a..a + |r|];
    assert s[a + |r|..] == l[|r|..];
  }

  /** A part of a word that occurs is itself contained. */
  lemma ContainsPart(s: string, u: string, w: string, v: string)
    requires Contains(s, u + w + v)
    ensures Contains(s, w)
  {
    var sub := u + w + v;
    ContainsIffOccurs(s, sub);
    var i: nat :| OccursAt(s, sub, i);
    forall k | 0 <= k < |w| ensures s[i + |u| + k] == w[k] {
      assert sub[|u| + k] == w[k];
      assert s[i..i + |sub|][|u| + k] == s[i + |u| + k];
    }
    assert s[i + |u|..i + |u| + |w|] == w;
    ContainsAt(s, w, i + |u|);
  }

  /** `lstrip` passes over leading whitespace up to the first other
      character. */
  lemma {:induction false} LStripAfterSpace(sp: string, s: string)
    requires AllSpace(sp) && s != [] && !IsSpace(s[0])
    ensures LStrip(sp + s) == s
    decreases |sp|
  {
    if sp != [] {
      assert (sp + s)[1..] == sp[1..] + s;
      LStripAfterSpace(sp[1..], s);
    }
  }

  /** A cut stops at the first separator: text before it that lacks the
      separator is kept whole. */
  lemma CutAtAfter(h: string, rest: string, c: char)
    requires c !in h
    ensures CutAt(h + rest, c) == h + CutAt(rest, c)
  {
    IndexOfAfter(h, rest, c);
    var j := IndexOf(rest, c);
    assert (h + rest)[..|h| + j] == h + rest[..j];
  }

  /** The first `c` after text without one is found by searching the rest. */
  lemma IndexOfAfter(h: string, rest: string, c: char)
    requires c !in h
    ensures IndexOf(h + rest, c) == |h| + IndexOf(rest, c)
  {
    var s := h + rest;
    assert forall k :: 0 <= k < |h| ==> s[k] == h[k];
    assert forall k :: 0 <= k < |rest| ==> s[|h| + k] == rest[k];
  }
}
