/** Python's `sorted(xs, key=...)` and `list.sort(key=...)`: a stable sort.
    A key comparison is given as `le(a, b)`, "the key of a is at most the key
    of b"; `reverse=True`, which Python also keeps stable, is the same sort
    with the comparison turned round. */
module Sorting {

  ghost predicate TotalPreorder<T(!new)>(le: (T, T) -> bool)
  {
    && (forall a, b :: le(a, b) || le(b, a))
    && (forall a, b, c :: le(a, b) && le(b, c) ==> le(a, c))
  }

  ghost predicate SortedBy<T>(s: seq<T>, le: (T, T) -> bool)
  {
    forall i, j :: 0 <= i < j < |s| ==> le(s[i], s[j])
  }

  /** Puts `x` after every element whose key is not above `x`'s. */
  function Insert<T>(x: T, s: seq<T>, le: (T, T) -> bool): (r: seq<T>)
    ensures multiset(r) == multiset(s) + multiset{x}
    decreases |s|
  {
    if s == [] then [x]
    else if le(s[0], x) then
      assert s == [s[0]] + s[1..];
      [s[0]] + Insert(x, s[1..], le)
    else [x] + s
  }

  /** Insertion sort taking the input from left to right. */
  function Sort<T>(s: seq<T>, le: (T, T) -> bool): (r: seq<T>)
    ensures multiset(r) == multiset(s)
    decreases |s|
  {
    if s == [] then []
    else
      assert s == s[..|s| - 1] + [s[|s| - 1]];
      Insert(s[|s| - 1], Sort(s[..|s| - 1], le), le)
  }

  lemma {:induction false} InsertSorted<T(!new)>(x: T, s: seq<T>, le: (T, T) -> bool)
    requires TotalPreorder(le) && SortedBy(s, le)
    ensures SortedBy(Insert(x, s, le), le)
    decreases |s|
  {
    if s != [] && le(s[0], x) {
      InsertSorted(x, s[1..], le);
      var r := Insert(x, s, le);
      var t := Insert(x, s[1..], le);
      assert r == [s[0]] + t;
      assert multiset(t) == multiset(s[1..]) + multiset{x};
      forall j | 1 <= j < |r| ensures le(r[0], r[j]) {
        assert r[j] in multiset(t);
        if r[j] == x {
        } else {
          assert r[j] in multiset(s[1..]);
          var k :| 0 <= k < |s[1..]| && s[1..][k] == r[j];
          assert s[k + 1] == r[j];
        }
      }
    }
  }

  /** The result of `Sort` is in key order. */
  lemma {:induction false} SortSorted<T(!new)>(s: seq<T>, le: (T, T) -> bool)
    requires TotalPreorder(le)
    ensures SortedBy(Sort(s, le), le)
    decreases |s|
  {
    if s != [] {
      SortSorted(s[..|s| - 1], le);
      InsertSorted(s[|s| - 1], Sort(s[..|s| - 1], le), le);
    }
  }

  /** The elements of `s` whose key equals `x`'s, in their order in `s`. */
  function EqualKeys<T>(s: seq<T>, x: T, le: (T, T) -> bool): seq<T>
    decreases |s|
  {
    if s == [] then []
    else (if le(s[0], x) && le(x, s[0]) then [s[0]] else []) + EqualKeys(s[1..], x, le)
  }

  lemma {:induction false} EqualKeysAppend<T>(s: seq<T>, y: T, x: T, le: (T, T) -> bool)
    ensures EqualKeys(s + [y], x, le)
         == EqualKeys(s, x, le) + (if le(y, x) && le(x, y) then [y] else [])
    decreases |s|
  {
    if s != [] {
      assert (s + [y])[1..] == s[1..] + [y];
      EqualKeysAppend(s[1..], y, x, le);
    }
  }

  lemma {:induction false} EqualKeysNone<T(!new)>(s: seq<T>, x: T, y: T, le: (T, T) -> bool)
    requires TotalPreorder(le)
    requires forall k :: 0 <= k < |s| ==> !le(s[k], y)
    requires le(y, x) && le(x, y)
    ensures EqualKeys(s, x, le) == []
    decreases |s|
  {
    if s != [] {
      assert !le(s[0], y);
      EqualKeysNone(s[1..], x, y, le);
    }
  }

  lemma {:induction false} InsertEqualKeys<T(!new)>(y: T, s: seq<T>, x: T, le: (T, T) -> bool)
    requires TotalPreorder(le) && SortedBy(s, le)
    ensures EqualKeys(Insert(y, s, le), x, le)
         == EqualKeys(s, x, le) + (if le(y, x) && le(x, y) then [y] else [])
    decreases |s|
  {
    if s == [] {
    } else if le(s[0], y) {
      SortedTail(s, le);
      InsertEqualKeys(y, s[1..], x, le);
      EqualKeysCons(s[0], Insert(y, s[1..], le), x, le);
    } else if le(y, x) && le(x, y) {
      InsertBeforeEqual(y, s, x, le);
    } else {
      EqualKeysCons(y, s, x, le);
    }
  }

  lemma EqualKeysCons<T>(h: T, t: seq<T>, x: T, le: (T, T) -> bool)
    ensures EqualKeys([h] + t, x, le) == (if le(h, x) && le(x, h) then [h] else []) + EqualKeys(t, x, le)
  {
    assert ([h] + t)[1..] == t;
  }

  /** Inserted before the first element, `y` comes first of its key: no
      element of `s` has it. */
  lemma InsertBeforeEqual<T(!new)>(y: T, s: seq<T>, x: T, le: (T, T) -> bool)
    requires TotalPreorder(le) && SortedBy(s, le)
    requires s != [] && !le(s[0], y) && le(y, x) && le(x, y)
    ensures EqualKeys(Insert(y, s, le), x, le) == EqualKeys(s, x, le) + [y]
  {
    forall k | 0 <= k < |s| ensures !le(s[k], y) {
      if k > 0 { assert le(s[0], s[k]); }
    }
    EqualKeysNone(s, x, y, le);
    assert ([y] + s)[1..] == s;
  }

  lemma SortedTail<T>(s: seq<T>, le: (T, T) -> bool)
    requires s != [] && SortedBy(s, le)
    ensures SortedBy(s[1..], le)
  {
    forall i, j | 0 <= i < j < |s| - 1 ensures le(s[1..][i], s[1..][j]) {
      assert s[1..][i] == s[i + 1] && s[1..][j] == s[j + 1];
    }
  }

  /** `Sort` is stable: elements with equal keys keep their input order. */
  lemma {:induction false} SortStable<T(!new)>(s: seq<T>, x: T, le: (T, T) -> bool)
    requires TotalPreorder(le)
    ensures EqualKeys(Sort(s, le), x, le) == EqualKeys(s, x, le)
    decreases |s|
  {
    if s != [] {
      var init, y := s[..|s| - 1], s[|s| - 1];
      SortStable(init, x, le);
      SortSorted(init, le);
      assert s == init + [y];
      StableStep(init, y, Sort(init, le), x, le);
    }
  }

  /** Inserting the next element into a stable sort of the elements before
      it keeps the sort stable. */
  lemma StableStep<T(!new)>(init: seq<T>, y: T, sorted: seq<T>, x: T, le: (T, T) -> bool)
    requires TotalPreorder(le) && SortedBy(sorted, le)
    requires EqualKeys(sorted, x, le) == EqualKeys(init, x, le)
    ensures EqualKeys(Insert(y, sorted, le), x, le) == EqualKeys(init + [y], x, le)
  {
    InsertEqualKeys(y, sorted, x, le);
    EqualKeysAppend(init, y, x, le);
  }

  /** The total of `f` over a sequence. */
  function SumBy<T>(s: seq<T>, f: T -> nat): nat
    decreases |s|
  {
    if s == [] then 0 else f(s[0]) + SumBy(s[1..], f)
  }

  lemma {:induction false} SumByAppend<T>(s: seq<T>, t: seq<T>, f: T -> nat)
    ensures SumBy(s + t, f) == SumBy(s, f) + SumBy(t, f)
    decreases |s|
  {
    if s == [] {
      assert s + t == t;
    } else {
      assert (s + t)[1..] == s[1..] + t;
      SumByAppend(s[1..], t, f);
    }
  }

  /** Replacing one element changes the total by the difference. */
  lemma SumByUpdate<T>(s: seq<T>, i: nat, v: T, f: T -> nat)
    requires i < |s|
    ensures SumBy(s[i := v], f) + f(s[i]) == SumBy(s, f) + f(v)
  {
    assert s == s[..i] + [s[i]] + s[i + 1..];
    assert s[i := v] == s[..i] + [v] + s[i + 1..];
    SumByAppend(s[..i] + [s[i]], s[i + 1..], f);
    SumByAppend(s[..i], [s[i]], f);
    SumByAppend(s[..i] + [v], s[i + 1..], f);
    SumByAppend(s[..i], [v], f);
  }

  lemma {:induction false} InsertSum<T>(x: T, s: seq<T>, le: (T, T) -> bool, f: T -> nat)
    ensures SumBy(Insert(x, s, le), f) == SumBy(s, f) + f(x)
    decreases |s|
  {
    if s != [] && le(s[0], x) {
      InsertSum(x, s[1..], le, f);
      assert ([s[0]] + Insert(x, s[1..], le))[1..] == Insert(x, s[1..], le);
    }
  }

  /** Sorting keeps the total. */
  lemma {:induction false} SortSum<T>(s: seq<T>, le: (T, T) -> bool, f: T -> nat)
    ensures SumBy(Sort(s, le), f) == SumBy(s, f)
    decreases |s|
  {
    if s != [] {
      var init, y := s[..|s| - 1], s[|s| - 1];
      SortSum(init, le, f);
      assert s == init + [y];
      SumStep(init, y, Sort(init, le), le, f);
    }
  }

  lemma SumStep<T>(init: seq<T>, y: T, sorted: seq<T>, le: (T, T) -> bool, f: T -> nat)
    requires SumBy(sorted, f) == SumBy(init, f)
    ensures SumBy(Insert(y, sorted, le), f) == SumBy(init + [y], f)
  {
    InsertSum(y, sorted, le, f);
    SumByAppend(init, [y], f);
  }
}
