/** Sequence operations used by both clients: the library calls `filter`, `find`,
    `take`/`slice` and stable sorting by a key, stated once with their properties. */
module Seqs {
  import opened Wrappers

  /** `xs` keeps some of the elements of `ys`, in their original relative order. */
  ghost predicate IsSubseq<T>(xs: seq<T>, ys: seq<T>)
    decreases |ys|
  {
    xs == [] || (ys != [] && ((xs[0] == ys[0] && IsSubseq(xs[1..], ys[1..])) || IsSubseq(xs, ys[1..])))
  }

  /** `filter`: the elements of `s` that satisfy `p`, in order. */
  function Filter<T>(p: T -> bool, s: seq<T>): (r: seq<T>)
    ensures |r| <= |s|
    ensures forall i :: 0 <= i < |r| ==> p(r[i])
  {
    if s == [] then [] else (if p(s[0]) then [s[0]] else []) + Filter(p, s[1..])
  }

  /** Filtering a sequence that starts with `x`. */
  lemma FilterCons<T>(p: T -> bool, x: T, t: seq<T>)
    ensures Filter(p, [x] + t) == (if p(x) then [x] else []) + Filter(p, t)
  {
    assert ([x] + t)[1..] == t;
  }

  /** Every element the filter keeps comes from `s`. */
  lemma {:induction false} FilterSound<T>(p: T -> bool, s: seq<T>)
    ensures forall x :: x in Filter(p, s) ==> x in s
  {
    if s != [] {
      FilterSound(p, s[1..]);
      FilterCons(p, s[0], s[1..]);
      assert s == [s[0]] + s[1..];
    }
  }

  /** The filter counts every element satisfying `p` as often as `s` does, and no other. */
  lemma {:induction false} FilterCount<T>(p: T -> bool, s: seq<T>, x: T)
    ensures multiset(Filter(p, s))[x] == if p(x) then multiset(s)[x] else 0
  {
    if s != [] {
      FilterCount(p, s[1..], x);
      FilterCons(p, s[0], s[1..]);
      assert s == [s[0]] + s[1..];
      assert multiset(s) == multiset([s[0]]) + multiset(s[1..]);
    }
  }

  /** The filter is complete: an element of `s` satisfying `p` is kept. */
  lemma FilterComplete<T>(p: T -> bool, s: seq<T>, x: T)
    requires x in s && p(x)
    ensures x in Filter(p, s)
  {
    FilterCount(p, s, x);
  }

  /** The filter keeps the relative order of what it keeps. */
  lemma {:induction false} FilterSubseq<T>(p: T -> bool, s: seq<T>)
    ensures IsSubseq(Filter(p, s), s)
  {
    if s != [] {
      var r, rest := Filter(p, s), Filter(p, s[1..]);
      FilterSubseq(p, s[1..]);
      FilterCons(p, s[0], s[1..]);
      assert s == [s[0]] + s[1..];
      if p(s[0]) {
        assert r == [s[0]] + rest;
        assert r[0] == s[0] && r[1..] == rest;
        assert IsSubseq(r[1..], s[1..]);
      } else {
        assert r == rest;
      }
    }
  }

  lemma {:induction false} FilterAppend<T>(p: T -> bool, a: seq<T>, b: seq<T>)
    ensures Filter(p, a + b) == Filter(p, a) + Filter(p, b)
  {
    if a == [] {
      assert a + b == b;
    } else {
      assert (a + b)[0] == a[0];
      assert (a + b)[1..] == a[1..] + b;
      FilterAppend(p, a[1..], b);
    }
  }

  /** A filter that keeps every element returns its input unchanged. */
  lemma {:induction false} FilterAll<T>(p: T -> bool, s: seq<T>)
    requires forall i :: 0 <= i < |s| ==> p(s[i])
    ensures Filter(p, s) == s
  {
    if s != [] {
      FilterAll(p, s[1..]);
    }
  }

  /** `take(n)` / `slice(0, n)`: the longest prefix of `s` with at most `n` elements. */
  function Take<T>(n: nat, s: seq<T>): (r: seq<T>)
    ensures |r| == if n < |s| then n else |s|
    ensures forall i :: 0 <= i < |r| ==> r[i] == s[i]
    ensures multiset(r) <= multiset(s)
    ensures |s| <= n ==> r == s
  {
    if n < |s| then
      assert s == s[..n] + s[n..];
      s[..n]
    else s
  }

  /** `find`: the first element of `s` that satisfies `p`, if any. */
  function Find<T>(p: T -> bool, s: seq<T>): (r: Option<T>)
    ensures r.None? <==> forall i :: 0 <= i < |s| ==> !p(s[i])
    ensures r.Some? ==> exists i :: 0 <= i < |s| && s[i] == r.value && p(s[i]) && forall j :: 0 <= j < i ==> !p(s[j])
  {
    if s == [] then None
    else if p(s[0]) then Some(s[0])
    else
      var r := Find(p, s[1..]);
      assert r.Some? ==> exists i :: 1 <= i < |s| && s[i] == r.value && p(s[i]) && forall j :: 0 <= j < i ==> !p(s[j]) by {
        if r.Some? {
          var i :| 0 <= i < |s[1..]| && s[1..][i] == r.value && p(s[1..][i]) && forall j :: 0 <= j < i ==> !p(s[1..][j]);
          assert forall j :: 0 <= j < i + 1 ==> !p(s[j]) by {
            forall j | 0 <= j < i + 1 ensures !p(s[j]) {
              if j > 0 { assert s[j] == s[1..][j - 1]; }
            }
          }
        }
      }
      r
  }

  /** Non-increasing order of `key` along `s`. */
  ghost predicate SortedDesc<T>(key: T -> int, s: seq<T>)
  {
    forall i, j :: 0 <= i < j < |s| ==> key(s[i]) >= key(s[j])
  }

  /** The predicate "has key `k`", used to state stability one key at a time. */
  function HasKey<T>(key: T -> int, k: int): T -> bool
  {
    x => key(x) == k
  }

  /** Inserts `x` in front of the first element whose key is not greater than its own. */
  function Insert<T>(key: T -> int, x: T, t: seq<T>): seq<T>
  {
    if t == [] || key(t[0]) <= key(x) then [x] + t
    else [t[0]] + Insert(key, x, t[1..])
  }

  /** A stable sort by `key`, largest key first (insertion sort). */
  function SortByKeyDesc<T>(key: T -> int, s: seq<T>): seq<T>
  {
    if s == [] then [] else Insert(key, s[0], SortByKeyDesc(key, s[1..]))
  }

  lemma {:induction false} InsertPermutes<T>(key: T -> int, x: T, t: seq<T>)
    ensures multiset(Insert(key, x, t)) == multiset([x] + t)
  {
    if !(t == [] || key(t[0]) <= key(x)) {
      InsertPermutes(key, x, t[1..]);
      assert t == [t[0]] + t[1..];
    }
  }

  lemma {:induction false} InsertSorted<T>(key: T -> int, x: T, t: seq<T>)
    requires SortedDesc(key, t)
    ensures SortedDesc(key, Insert(key, x, t))
  {
    if t == [] || key(t[0]) <= key(x) {
      var r := [x] + t;
      forall i, j | 0 <= i < j < |r| ensures key(r[i]) >= key(r[j]) {
        if i > 0 { assert r[i] == t[i - 1] && r[j] == t[j - 1]; }
        else { assert r[j] == t[j - 1]; }
      }
    } else {
      var u := t[1..];
      var rest := Insert(key, x, u);
      var r := [t[0]] + rest;
      assert SortedDesc(key, u);
      InsertSorted(key, x, u);
      InsertPermutes(key, x, u);
      forall i | 0 <= i < |rest| ensures key(t[0]) >= key(rest[i]) {
        assert rest[i] in multiset([x] + u);
        assert rest[i] == x || rest[i] in u;
      }
      forall i, j | 0 <= i < j < |r| ensures key(r[i]) >= key(r[j]) {
        assert r[j] == rest[j - 1];
        if i > 0 { assert r[i] == rest[i - 1]; }
      }
    }
  }

  /** Inserting preserves, for every key, the order of the elements carrying that key,
      with `x` placed before the elements of `t` that share its key. */
  lemma {:induction false} InsertStable<T>(key: T -> int, x: T, t: seq<T>, k: int)
    ensures Filter(HasKey(key, k), Insert(key, x, t)) == Filter(HasKey(key, k), [x] + t)
  {
    var p := HasKey(key, k);
    if !(t == [] || key(t[0]) <= key(x)) {
      var y, u := t[0], t[1..];
      assert t == [y] + u;
      InsertStable(key, x, u, k);
      FilterCons(p, y, Insert(key, x, u));
      FilterCons(p, x, u);
      FilterCons(p, x, t);
      FilterCons(p, y, u);
      if p(x) {
        assert !p(y);
      }
    }
  }

  /** The stable descending sort orders by key, permutes its input, and keeps the
      relative order of every group of elements with equal keys. */
  lemma {:induction false} SortByKeyDescSpec<T>(key: T -> int, s: seq<T>)
    ensures SortedDesc(key, SortByKeyDesc(key, s))
    ensures multiset(SortByKeyDesc(key, s)) == multiset(s)
    ensures forall k :: Filter(HasKey(key, k), SortByKeyDesc(key, s)) == Filter(HasKey(key, k), s)
  {
    if s != [] {
      var t := SortByKeyDesc(key, s[1..]);
      SortByKeyDescSpec(key, s[1..]);
      InsertSorted(key, s[0], t);
      InsertPermutes(key, s[0], t);
      assert s == [s[0]] + s[1..];
      forall k ensures Filter(HasKey(key, k), SortByKeyDesc(key, s)) == Filter(HasKey(key, k), s) {
        var p := HasKey(key, k);
        InsertStable(key, s[0], t, k);
        FilterAppend(p, [s[0]], t);
        FilterAppend(p, [s[0]], s[1..]);
      }
    }
  }
}
