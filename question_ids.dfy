/** The URL and number readers of parliament/tools/fetch_written_questions.py:
    the Diet session of a listing URL, the question id of a question URL, and
    the question number of a table cell. The regular expressions are written
    out as scanners; `\d` is taken as the ASCII digits. */
module QuestionIds {
  import opened Values
  import opened Text

  /** Length of the leading run of ASCII digits. */
  function DigitRun(s: string): (n: nat)
    ensures n <= |s| && AllDigits(s[..n])
    ensures n < |s| ==> !IsAsciiDigit(s[n])
    decreases |s|
  {
    if s == [] || !IsAsciiDigit(s[0]) then 0
    else
      var n := 1 + DigitRun(s[1..]);
      assert forall k :: 1 <= k < n ==> s[..n][k] == s[1..][..n - 1][k - 1];
      n
  }

  /** `kaiji(\d+)_` matches at position `p`. Digits cannot match `_`, so the
      greedy run is the only way to reach it. */
  predicate SessionAt(url: string, p: nat)
  {
    && p + 5 <= |url| && url[p..p + 5] == "kaiji"
    && var n := DigitRun(url[p + 5..]);
       n > 0 && p + 5 + n < |url| && url[p + 5 + n] == '_'
  }

  function SessionValue(url: string, p: nat): nat
    requires p + 5 <= |url|
  {
    var digits := url[p + 5..][..DigitRun(url[p + 5..])];
    DigitsValue(digits)
  }

  /** The leftmost match from position `p` on. */
  function SessionFrom(url: string, p: nat): (r: Option<nat>)
    requires p <= |url|
    ensures r.None? <==> forall q :: p <= q < |url| ==> !SessionAt(url, q)
    ensures r.Some? ==> exists q :: p <= q < |url| && SessionAt(url, q) && r.value == SessionValue(url, q)
                                    && forall q' :: p <= q' < q ==> !SessionAt(url, q')
    decreases |url| - p
  {
    if p == |url| then None
    else if SessionAt(url, p) then Some(SessionValue(url, p))
    else SessionFrom(url, p + 1)
  }

  /** extract_session: the number in the first `kaiji<digits>_` of the URL. */
  function ExtractSession(url: string): Option<nat>
  {
    SessionFrom(url, 0)
  }

  /** A URL that begins with `kaiji<n>_` is read back as session n. */
  lemma ExtractSessionRoundTrip(n: nat, rest: string)
    ensures ExtractSession("kaiji" + DecimalDigits(n) + "_" + rest) == Some(n)
  {
    DecimalRoundTrip(n);
    SessionAtStart(DecimalDigits(n), rest);
  }

  lemma SessionAtStart(d: string, rest: string)
    requires d != [] && AllDigits(d)
    ensures var url := "kaiji" + d + "_" + rest;
            SessionAt(url, 0) && SessionValue(url, 0) == DigitsValue(d)
  {
    var url := "kaiji" + d + "_" + rest;
    assert url[0..5] == "kaiji";
    var tail := url[5..];
    assert tail == d + ("_" + rest);
    DigitRunOf(d, "_" + rest);
    assert url[5 + |d|] == '_';
    assert tail[..|d|] == d;
  }

  lemma {:induction false} DigitRunOf(d: string, rest: string)
    requires AllDigits(d)
    requires rest == [] || !IsAsciiDigit(rest[0])
    ensures DigitRun(d + rest) == |d|
    decreases |d|
  {
    if d == [] {
      assert d + rest == rest;
    } else {
      assert (d + rest)[1..] == d[1..] + rest;
      DigitRunOf(d[1..], rest);
    }
  }

  /** parse_number over the strings the model reads: empty or missing text
      is None, a string of ASCII digits is its value, anything else None. */
  function ParseNumber(text: Option<string>): (r: Option<int>)
    ensures r.Some? ==> r.value >= 0
    ensures r.Some? ==> text.Some? && text.value != "" && AllDigits(text.value)
    ensures text.Some? && text.value != "" && AllDigits(text.value) ==> r == Some(DigitsValue(text.value))
  {
    if text.None? || text.value == "" then None
    else if AllDigits(text.value) then Some(DigitsValue(text.value))
    else None
  }

  lemma ParseNumberRoundTrip(n: nat)
    ensures ParseNumber(Some(DecimalDigits(n))) == Some(n)
  {
    DecimalRoundTrip(n);
  }

  /** Like `int()`, leading zeros do not change the number: "007" is 7. */
  lemma ParseNumberLeadingZeros(zeros: string, n: nat)
    requires AllZeros(zeros)
    ensures ParseNumber(Some(zeros + DecimalDigits(n))) == Some(n)
  {
    DecimalRoundTrip(n);
    LeadingZerosValue(zeros, DecimalDigits(n));
  }

  /** A question id: `a` or `b` and six ASCII digits. */
  predicate IsQuestionId(id: string)
  {
    |id| == 7 && (id[0] == 'a' || id[0] == 'b') && AllDigits(id[1..])
  }

  predicate IsHtmExtension(ext: string)
  {
    |ext| == 4 && ext[0] == '.' && (ext[1] == 'h' || ext[1] == 'H')
    && (ext[2] == 't' || ext[2] == 'T') && (ext[3] == 'm' || ext[3] == 'M')
  }

  /** `/([ab]\d{6})\.[Hh][Tt][Mm]` matches the twelve characters ending at `e`. */
  predicate IdPatternEndsAt(s: string, e: nat)
  {
    12 <= e <= |s| && s[e - 12] == '/' && IsQuestionId(s[e - 11..e - 4]) && IsHtmExtension(s[e - 4..e])
  }

  /** compute_question_id: the id in a URL ending in `/<id>.htm` (any case),
      the end being the end of the string or a final newline, as `$` allows. */
  function ComputeQuestionId(url: Option<string>): (r: Option<string>)
    ensures r.Some? ==> IsQuestionId(r.value)
  {
    if url.None? || url.value == "" then None
    else
      var s := url.value;
      if IdPatternEndsAt(s, |s|) then Some(s[|s| - 11..|s| - 4])
      else if |s| > 0 && s[|s| - 1] == '\n' && IdPatternEndsAt(s, |s| - 1) then Some(s[|s| - 12..|s| - 5])
      else None
  }

  /** The id of any URL `<prefix>/<id>.htm` is read back, in any case of the
      extension and with or without a final newline. */
  lemma QuestionIdRoundTrip(prefix: string, id: string, ext: string, newline: bool)
    requires IsQuestionId(id) && IsHtmExtension(ext)
    ensures var s := prefix + "/" + id + ext + (if newline then "\n" else "");
            ComputeQuestionId(Some(s)) == Some(id)
  {
    var core := prefix + "/" + id + ext;
    var e := |core|;
    assert core[e - 12] == '/';
    assert core[e - 11..e - 4] == id;
    assert core[e - 4..e] == ext;
    if newline {
      var s := core + "\n";
      assert s[..e] == core;
      assert s[e - 12] == '/' && s[e - 11..e - 4] == id && s[e - 4..e] == ext;
      assert IdPatternEndsAt(s, |s| - 1);
      assert s[|s| - 4..|s|][3] == s[|s| - 1] == '\n';
      assert !IdPatternEndsAt(s, |s|);
      assert s[|s| - 12..|s| - 5] == id;
      assert prefix + "/" + id + ext + (if newline then "\n" else "") == s;
      assert ComputeQuestionId(Some(s)) == Some(id);
    } else {
      assert prefix + "/" + id + ext + (if newline then "\n" else "") == core;
    }
  }

  /** The pattern is anchored at the end: a ".html" URL has no id. */
  lemma HtmlHasNoQuestionId(prefix: string, id: string)
    ensures ComputeQuestionId(Some(prefix + "/" + id + ".html")) == None
  {
    var s := prefix + "/" + id + ".html";
    assert s[|s| - 1] == 'l';
  }
}
