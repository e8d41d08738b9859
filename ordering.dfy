// Generic selectors over record sequences: the JavaScript array operations
// the dashboard composes (`filter`, `find`, `[0]`, a stable `sort` with a
// numeric comparator, `Math.max`), each with the facts the components rely on.

module Ordering {
  import opened Wrappers

  /** The smaller of two counts: `s.slice(0, n)` keeps `Min(n, |s|)` elements. */
  function Min(a: int, b: int): int
  {
    if a <= b then a else b
  }

  /** `s[0]`, or `undefined` for an empty array. */
  function Head<T>(s: seq<T>): Option<T>
  {
    if s == [] then None else Some(s[0])
  }

  function Always<T>(x: T): bool
  {
    true
  }

  /** The predicate "has key k". */
  function KeyIs<T>(key: T -> int, k: int): T -> bool
  {
    x => key(x) == k
  }

  /** `s.filter(p)`: the elements satisfying `p`, in their original order. */
  function Filter<T>(p: T -> bool, s: seq<T>): (r: seq<T>)
    ensures |r| <= |s|
    ensures forall x :: x in r ==> x in s && p(x)
    ensures forall i :: 0 <= i < |s| && p(s[i]) ==> s[i] in r
    ensures multiset(r) <= multiset(s)
  {
    if s == [] then []
    else
      assert s == [s[0]] + s[1..];
      if p(s[0]) then [s[0]] + Filter(p, s[1..]) else Filter(p, s[1..])
  }

  lemma {:induction false} FilterNone<T>(p: T -> bool, s: seq<T>)
    requires forall i :: 0 <= i < |s| ==> !p(s[i])
    ensures Filter(p, s) == []
  {
    if s != [] {
      FilterNone(p, s[1..]);
    }
  }

  /** `s.find(p)`: the first element satisfying `p`. */
  function Find<T>(p: T -> bool, s: seq<T>): (r: Option<T>)
    ensures r.None? <==> forall x :: x in s ==> !p(x)
    ensures r.Some? ==> r.value in s && p(r.value)
  {
    if s == [] then None
    else
      assert s == [s[0]] + s[1..];
      if p(s[0]) then Some(s[0]) else Find(p, s[1..])
  }

  /** `find` returns the first match: no earlier element satisfies `p`. */
  lemma {:induction false} FindIsFirst<T>(p: T -> bool, s: seq<T>)
    ensures Find(p, s).Some? ==>
      exists i :: 0 <= i < |s| && s[i] == Find(p, s).value && forall j :: 0 <= j < i ==> !p(s[j])
  {
    if s != [] && !p(s[0]) {
      FindIsFirst(p, s[1..]);
      if Find(p, s).Some? {
        var i :| 0 <= i < |s[1..]| && s[1..][i] == Find(p, s[1..]).value && forall j :: 0 <= j < i ==> !p(s[1..][j]);
        assert s[i + 1] == Find(p, s).value;
        assert forall j :: 0 <= j < i + 1 ==> !p(s[j]) by {
          forall j | 0 <= j < i + 1
            ensures !p(s[j])
          {
            if j > 0 {
              assert s[j] == s[1..][j - 1];
            }
          }
        }
      }
    } else if s != [] {
      assert s[0] == Find(p, s).value;
    }
  }

  /** `Math.max(...s)`, with `None` standing for the `-Infinity` of an empty list. */
  function MaxOf(s: seq<int>): (r: Option<int>)
    ensures r.None? <==> s == []
    ensures r.Some? ==> r.value in s && forall x :: x in s ==> x <= r.value
  {
    if s == [] then None
    else
      assert s == [s[0]] + s[1..];
      match MaxOf(s[1..])
      case None => Some(s[0])
      case Some(m) => if s[0] >= m then Some(s[0]) else Some(m)
  }

  // ---------------------------------------------------------------------------
  // Stable sort into non-increasing key order: `s.sort((a, b) => key(b) - key(a))`.
  // ECMAScript requires Array.prototype.sort to be stable, so elements with equal
  // keys keep their input order. Insertion from the back: the earlier element is
  // placed before every later element whose key does not exceed its own.
  // ---------------------------------------------------------------------------

  function Insert<T>(key: T -> int, x: T, s: seq<T>): (r: seq<T>)
    ensures |r| == |s| + 1
  {
    if s == [] || key(s[0]) <= key(x) then [x] + s
    else [s[0]] + Insert(key, x, s[1..])
  }

  /** Inserting adds `x` and keeps every other element. */
  lemma {:induction false} InsertPermutes<T>(key: T -> int, x: T, s: seq<T>)
    ensures multiset(Insert(key, x, s)) == multiset(s) + multiset{x}
  {
    if s != [] && key(s[0]) > key(x) {
      InsertPermutes(key, x, s[1..]);
      assert s == [s[0]] + s[1..];
    }
  }

  function SortDesc<T>(key: T -> int, s: seq<T>): (r: seq<T>)
    ensures |r| == |s|
    ensures multiset(r) == multiset(s)
  {
    if s == [] then []
    else
      assert s == [s[0]] + s[1..];
      InsertPermutes(key, s[0], SortDesc(key, s[1..]));
      Insert(key, s[0], SortDesc(key, s[1..]))
  }

  predicate SortedDesc<T>(key: T -> int, s: seq<T>)
  {
    forall i, j :: 0 <= i < j < |s| ==> key(s[i]) >= key(s[j])
  }

  /** Sorting neither adds nor drops an element. */
  lemma SortDescMembers<T>(key: T -> int, s: seq<T>)
    ensures forall x :: x in SortDesc(key, s) <==> x in s
  {
    var r := SortDesc(key, s);
    forall x
      ensures x in r <==> x in s
    {
      assert x in r <==> x in multiset(r);
      assert x in s <==> x in multiset(s);
    }
  }

  /** Inserting below a bound keeps every element below it. */
  lemma {:induction false} InsertBelow<T>(key: T -> int, x: T, s: seq<T>, b: int)
    requires forall i :: 0 <= i < |s| ==> key(s[i]) <= b
    requires key(x) <= b
    ensures forall i :: 0 <= i < |Insert(key, x, s)| ==> key(Insert(key, x, s)[i]) <= b
  {
    if s != [] && key(s[0]) > key(x) {
      var t := s[1..];
      assert forall i :: 0 <= i < |t| ==> t[i] == s[i + 1];
      InsertBelow(key, x, t, b);
      var r := Insert(key, x, t);
      assert Insert(key, x, s) == [s[0]] + r;
    }
  }

  lemma {:induction false} InsertSorted<T>(key: T -> int, x: T, s: seq<T>)
    requires SortedDesc(key, s)
    ensures SortedDesc(key, Insert(key, x, s))
  {
    if s == [] || key(s[0]) <= key(x) {
      var r := [x] + s;
      assert Insert(key, x, s) == r;
      forall i, j | 0 <= i < j < |r|
        ensures key(r[i]) >= key(r[j])
      {
        assert r[j] == s[j - 1];
        if i > 0 {
          assert r[i] == s[i - 1];
        } else {
          assert key(s[0]) >= key(s[j - 1]);
        }
      }
    } else {
      var t := s[1..];
      assert SortedDesc(key, t) by {
        forall i, j | 0 <= i < j < |t|
          ensures key(t[i]) >= key(t[j])
        {
          assert t[i] == s[i + 1] && t[j] == s[j + 1];
        }
      }
      assert forall i :: 0 <= i < |t| ==> key(t[i]) <= key(s[0]) by {
        forall i | 0 <= i < |t|
          ensures key(t[i]) <= key(s[0])
        {
          assert t[i] == s[i + 1];
        }
      }
      InsertSorted(key, x, t);
      InsertBelow(key, x, t, key(s[0]));
      var it := Insert(key, x, t);
      var r := [s[0]] + it;
      assert Insert(key, x, s) == r;
      forall i, j | 0 <= i < j < |r|
        ensures key(r[i]) >= key(r[j])
      {
        assert r[j] == it[j - 1];
        if i > 0 {
          assert r[i] == it[i - 1];
        }
      }
    }
  }

  /** The sort's result is ordered by non-increasing key. */
  lemma {:induction false} SortDescSorted<T>(key: T -> int, s: seq<T>)
    ensures SortedDesc(key, SortDesc(key, s))
  {
    if s != [] {
      SortDescSorted(key, s[1..]);
      InsertSorted(key, s[0], SortDesc(key, s[1..]));
    }
  }

  lemma {:induction false} InsertStable<T>(key: T -> int, k: int, x: T, s: seq<T>)
    ensures Filter(KeyIs(key, k), Insert(key, x, s))
         == (if key(x) == k then [x] else []) + Filter(KeyIs(key, k), s)
  {
    var p := KeyIs(key, k);
    var fx := if key(x) == k then [x] else [];
    if s == [] || key(s[0]) <= key(x) {
      assert Filter(p, Insert(key, x, s)) == fx + Filter(p, s) by {
        assert Insert(key, x, s) == [x] + s;
        FilterCons(p, x, s);
      }
    } else {
      var it := Insert(key, x, s[1..]);
      InsertStable(key, k, x, s[1..]);
      StableStep(p, s, it, fx);
      assert Insert(key, x, s) == [s[0]] + it;
    }
  }

  /** A head that the filter drops, or that passes it ahead of the inserted
      element, leaves the filtered insertion as it was. */
  lemma StableStep<T>(p: T -> bool, s: seq<T>, it: seq<T>, fx: seq<T>)
    requires s != []
    requires Filter(p, it) == fx + Filter(p, s[1..])
    requires p(s[0]) ==> fx == []
    ensures Filter(p, [s[0]] + it) == fx + Filter(p, s)
  {
    FilterCons(p, s[0], it);
    assert Filter(p, s) == if p(s[0]) then [s[0]] + Filter(p, s[1..]) else Filter(p, s[1..]);
    if p(s[0]) {
      assert fx + Filter(p, s[1..]) == Filter(p, s[1..]);
    }
  }

  /** Filtering a list with a given head: the head is kept when it qualifies. */
  lemma FilterCons<T>(p: T -> bool, h: T, t: seq<T>)
    ensures Filter(p, [h] + t) == (if p(h) then [h] + Filter(p, t) else Filter(p, t))
  {
    assert ([h] + t)[1..] == t;
  }

  /** Stability: for every key value, the elements with that key appear in the
      result in exactly their input order. */
  lemma {:induction false} SortDescStable<T>(key: T -> int, k: int, s: seq<T>)
    ensures Filter(KeyIs(key, k), SortDesc(key, s)) == Filter(KeyIs(key, k), s)
  {
    if s != [] {
      SortDescStable(key, k, s[1..]);
      InsertStable(key, k, s[0], SortDesc(key, s[1..]));
    }
  }

  /** Where `Insert` puts `x`: after the leading elements with a greater key. */
  lemma {:induction false} InsertAt<T>(key: T -> int, x: T, s: seq<T>, n: nat)
    requires n <= |s|
    requires forall m :: 0 <= m < n ==> key(s[m]) > key(x)
    requires n == |s| || key(s[n]) <= key(x)
    ensures Insert(key, x, s) == s[..n] + [x] + s[n..]
  {
    if n == 0 {
      assert s[..0] == [] && s[0..] == s;
    } else {
      var t := s[1..];
      forall m | 0 <= m < n - 1
        ensures key(t[m]) > key(x)
      {
        assert t[m] == s[m + 1];
      }
      if n - 1 < |t| {
        assert t[n - 1] == s[n];
      }
      InsertAt(key, x, t, n - 1);
      InsertAtStep(key, x, s, n);
    }
  }

  lemma InsertAtStep<T>(key: T -> int, x: T, s: seq<T>, n: nat)
    requires 0 < n <= |s|
    requires key(s[0]) > key(x)
    requires Insert(key, x, s[1..]) == s[1..][..n - 1] + [x] + s[1..][n - 1..]
    ensures Insert(key, x, s) == s[..n] + [x] + s[n..]
  {
    assert Insert(key, x, s) == [s[0]] + Insert(key, x, s[1..]);
    ConsSplit(s, x, n);
  }

  /** Putting the head back in front of a split of the tail splits the whole. */
  lemma ConsSplit<T>(s: seq<T>, x: T, n: nat)
    requires 0 < n <= |s|
    ensures [s[0]] + (s[1..][..n - 1] + [x] + s[1..][n - 1..]) == s[..n] + [x] + s[n..]
  {
    var t := s[1..];
    var l := [s[0]] + (t[..n - 1] + [x] + t[n - 1..]);
    var r := s[..n] + [x] + s[n..];
    assert |l| == |r|;
    forall i | 0 <= i < |r|
      ensures l[i] == r[i]
    {
      if i == 0 {
      } else if i < n {
        assert l[i] == t[i - 1] == s[i];
      } else if i == n {
      } else {
        assert l[i] == t[i - 2] == s[i - 1];
      }
    }
  }

  // ---------------------------------------------------------------------------
  // "Latest": the reference definition of what sorting by key and taking the
  // first match selects.
  // ---------------------------------------------------------------------------

  /** `s[i]` satisfies `p`, no element satisfying `p` has a greater key, and every
      element before it satisfying `p` has a smaller key: it is the first, in
      sequence order, of the elements satisfying `p` with the greatest key. */
  ghost predicate IsFirstNewest<T>(p: T -> bool, key: T -> int, s: seq<T>, i: int)
  {
    && 0 <= i < |s|
    && p(s[i])
    && (forall j :: 0 <= j < |s| && p(s[j]) ==> key(s[j]) <= key(s[i]))
    && (forall j :: 0 <= j < i && p(s[j]) ==> key(s[j]) < key(s[i]))
  }

  /** The conditions of IsFirstNewest pin down one index. */
  lemma FirstNewestUnique<T>(p: T -> bool, key: T -> int, s: seq<T>, i: int, j: int)
    requires IsFirstNewest(p, key, s, i) && IsFirstNewest(p, key, s, j)
    ensures i == j
  {
  }

  function NewestIndex<T>(p: T -> bool, key: T -> int, s: seq<T>): (r: Option<nat>)
    ensures r.None? <==> forall j :: 0 <= j < |s| ==> !p(s[j])
    ensures r.Some? ==> IsFirstNewest(p, key, s, r.value)
  {
    if s == [] then None
    else
      match NewestIndex(p, key, s[1..])
      case None => if p(s[0]) then Some(0) else None
      case Some(k) =>
        assert s[k + 1] == s[1..][k];
        if p(s[0]) && key(s[0]) >= key(s[k + 1]) then Some(0) else Some(k + 1)
  }

  function Pick<T>(s: seq<T>, i: Option<nat>): Option<T>
    requires i.Some? ==> i.value < |s|
  {
    if i.Some? then Some(s[i.value]) else None
  }

  /** One step of selecting the newest: keep the candidate `o` found further on,
      unless `x` qualifies and its key is at least as great. */
  function Prefer<T>(key: T -> int, x: T, qualifies: bool, o: Option<T>): Option<T>
  {
    if !qualifies then o
    else match o
         case None => Some(x)
         case Some(y) => if key(x) >= key(y) then Some(x) else Some(y)
  }

  lemma NewestStep<T>(p: T -> bool, key: T -> int, s: seq<T>)
    requires s != []
    ensures Pick(s, NewestIndex(p, key, s)) == Prefer(key, s[0], p(s[0]), Pick(s[1..], NewestIndex(p, key, s[1..])))
  {
    match NewestIndex(p, key, s[1..])
    case None =>
    case Some(k) => assert s[k + 1] == s[1..][k];
  }

  lemma {:induction false} FindInsert<T>(p: T -> bool, key: T -> int, x: T, s: seq<T>)
    requires SortedDesc(key, s)
    ensures Find(p, Insert(key, x, s)) == Prefer(key, x, p(x), Find(p, s))
  {
    if s == [] || key(s[0]) <= key(x) {
      assert ([x] + s)[1..] == s;
      var f := Find(p, s);
      if f.Some? {
        var i :| 0 <= i < |s| && s[i] == f.value;
        assert key(s[i]) <= key(s[0]);
      }
    } else {
      assert ([s[0]] + Insert(key, x, s[1..]))[1..] == Insert(key, x, s[1..]);
      if !p(s[0]) {
        FindInsert(p, key, x, s[1..]);
      }
    }
  }

  /** Sorting by key (stably, newest first) and then taking the first element
      satisfying `q` selects the first, in input order, of the elements
      satisfying `q` with the greatest key. */
  lemma {:induction false} FindAfterSort<T>(q: T -> bool, key: T -> int, s: seq<T>)
    ensures Find(q, SortDesc(key, s)) == Pick(s, NewestIndex(q, key, s))
  {
    if s != [] {
      FindAfterSort(q, key, s[1..]);
      SortDescSorted(key, s[1..]);
      FindInsert(q, key, s[0], SortDesc(key, s[1..]));
      NewestStep(q, key, s);
    }
  }

  /** Looking among the elements of `s` satisfying `p` for the newest one
      satisfying `q` is looking in `s` for the newest one satisfying both. */
  lemma {:induction false} FilterNewest<T>(p: T -> bool, q: T -> bool, r: T -> bool, key: T -> int, s: seq<T>)
    requires forall x :: r(x) == (p(x) && q(x))
    ensures Pick(Filter(p, s), NewestIndex(q, key, Filter(p, s))) == Pick(s, NewestIndex(r, key, s))
  {
    if s != [] {
      FilterNewest(p, q, r, key, s[1..]);
      NewestStep(r, key, s);
      var f := Filter(p, s[1..]);
      if p(s[0]) {
        var g := [s[0]] + f;
        assert Filter(p, s) == g;
        assert g[1..] == f;
        NewestStep(q, key, g);
      }
    }
  }

  lemma {:induction false} HeadOfFilter<T>(q: T -> bool, s: seq<T>)
    ensures Head(Filter(q, s)) == Find(q, s)
  {
    if s != [] && !q(s[0]) {
      HeadOfFilter(q, s[1..]);
    }
  }

  /** `s.filter(p).sort(newest first)[0]` is the newest element satisfying `p`. */
  lemma LatestOfFiltered<T>(p: T -> bool, key: T -> int, s: seq<T>)
    ensures Head(SortDesc(key, Filter(p, s))) == Pick(s, NewestIndex(p, key, s))
  {
    var f := Filter(p, s);
    FindAfterSort(Always, key, f);
    FilterNewest(p, Always, p, key, s);
  }

  /** `s.filter(p).sort(newest first).find(q)` is the newest element satisfying both. */
  lemma FindInSortedFiltered<T>(p: T -> bool, q: T -> bool, r: T -> bool, key: T -> int, s: seq<T>)
    requires forall x :: r(x) == (p(x) && q(x))
    ensures Find(q, SortDesc(key, Filter(p, s))) == Pick(s, NewestIndex(r, key, s))
  {
    FindAfterSort(q, key, Filter(p, s));
    FilterNewest(p, q, r, key, s);
  }

  /** Re-sorting a list that is already newest-first by `secondary` on a
      `primary` key puts first an element with the greatest primary key and,
      among those, the greatest secondary key. */
  lemma ResortHead<T>(primary: T -> int, secondary: T -> int, s: seq<T>)
    requires SortedDesc(secondary, s)
    requires s != []
    ensures Head(SortDesc(primary, s)).Some?
    ensures var x := Head(SortDesc(primary, s)).value;
      && x in s
      && forall y :: y in s ==>
           primary(y) < primary(x) || (primary(y) == primary(x) && secondary(y) <= secondary(x))
  {
    var r := SortDesc(primary, s);
    FindAfterSort(Always, primary, s);
    var i := NewestIndex(Always, primary, s).value;
    assert Head(r) == Some(s[i]) by {
      assert Head(r) == Find(Always, r);
    }
    FirstNewestOfSorted(primary, secondary, s, i);
    forall y | y in s
      ensures primary(y) < primary(s[i]) || (primary(y) == primary(s[i]) && secondary(y) <= secondary(s[i]))
    {
      var j :| 0 <= j < |s| && s[j] == y;
    }
  }

  /** When `k` is the greatest key in `s`, the head of the stable sort is the
      first element of `s` whose key is `k`. */
  lemma FirstOfGreatestKey<T>(key: T -> int, s: seq<T>, k: int)
    requires forall x :: x in s ==> key(x) <= k
    requires exists x :: x in s && key(x) == k
    ensures Head(SortDesc(key, s)) == Find(KeyIs(key, k), s)
  {
    var r := SortDesc(key, s);
    FindAfterSort(Always, key, s);
    assert Head(r) == Find(Always, r);
    var w :| w in s && key(w) == k;
    var iw :| 0 <= iw < |s| && s[iw] == w;
    assert Always(s[iw]);
    var i := NewestIndex(Always, key, s).value;
    assert key(s[i]) == k by {
      assert key(s[iw]) <= key(s[i]);
      assert s[i] in s;
    }
    FindIsFirst(KeyIs(key, k), s);
    assert KeyIs(key, k)(s[iw]);
    var j :| 0 <= j < |s| && s[j] == Find(KeyIs(key, k), s).value
      && forall j' :: 0 <= j' < j ==> !KeyIs(key, k)(s[j']);
    assert Always(s[j]) && KeyIs(key, k)(s[i]);
    assert j == i;
  }

  lemma FirstNewestOfSorted<T>(primary: T -> int, secondary: T -> int, s: seq<T>, i: int)
    requires SortedDesc(secondary, s)
    requires IsFirstNewest(Always, primary, s, i)
    ensures forall j :: 0 <= j < |s| ==>
      primary(s[j]) < primary(s[i]) || (primary(s[j]) == primary(s[i]) && secondary(s[j]) <= secondary(s[i]))
  {
    forall j | 0 <= j < |s|
      ensures primary(s[j]) < primary(s[i]) || (primary(s[j]) == primary(s[i]) && secondary(s[j]) <= secondary(s[i]))
    {
      assert Always(s[j]);
      if i < j {
        assert secondary(s[i]) >= secondary(s[j]);
      }
    }
  }
}
