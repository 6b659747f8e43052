/**
  Orders, stable sorting and "the first k" of a possibly infinite set.

  The timetable query relies on two library facts: SQLite's ORDER BY ... LIMIT and Python's
  stable list sort.  Both are specified here by one stable insertion sort; a stable sort is
  unique, so any other implementation returns the same list.
*/
module Orders {

  /** Code point order on text: Python's string comparison and SQLite's BINARY collation. */
  predicate StrLt(a: string, b: string) {
    |b| > 0 && (|a| == 0 || a[0] < b[0] || (a[0] == b[0] && StrLt(a[1..], b[1..])))
  }

  lemma {:induction false} StrLtTotal(a: string, b: string)
    ensures a == b ==> !StrLt(a, b)
    ensures a != b ==> StrLt(a, b) != StrLt(b, a)
  {
    if |a| > 0 && |b| > 0 {
      StrLtTotal(a[1..], b[1..]);
      assert a == [a[0]] + a[1..] && b == [b[0]] + b[1..];
    }
  }

  lemma {:induction false} StrLtTransitive(a: string, b: string, c: string)
    requires StrLt(a, b) && StrLt(b, c)
    ensures StrLt(a, c)
  {
    if |a| > 0 && a[0] == b[0] && b[0] == c[0] {
      StrLtTransitive(a[1..], b[1..], c[1..]);
    }
  }

  /** The first difference decides, and a proper prefix comes first. */
  lemma {:induction false} StrLtExact(a: string, b: string)
    ensures StrLt(a, b) <==> exists i: nat ::
      i <= |a| && i < |b| && a[..i] == b[..i] && (i == |a| || a[i] < b[i])
  {
    if |a| > 0 && |b| > 0 && a[0] == b[0] {
      StrLtExact(a[1..], b[1..]);
      if StrLt(a[1..], b[1..]) {
        var i: nat :| i <= |a[1..]| && i < |b[1..]| && a[1..][..i] == b[1..][..i] && (i == |a[1..]| || a[1..][i] < b[1..][i]);
        assert a[..i + 1] == [a[0]] + a[1..][..i] && b[..i + 1] == [b[0]] + b[1..][..i];
      }
      if i: nat :| 0 < i <= |a| && i < |b| && a[..i] == b[..i] && (i == |a| || a[i] < b[i]) {
        assert a[1..][..i - 1] == a[..i][1..] && b[1..][..i - 1] == b[..i][1..];
      }
    } else if |b| > 0 && (|a| == 0 || a[0] < b[0]) {
      assert a[..0] == b[..0];
    } else if |a| > 0 && |b| > 0 {
      forall i: nat | 0 < i <= |a| && i < |b| ensures a[..i] != b[..i] { assert a[..i][0] != b[..i][0]; }
    }
  }

  /** Irreflexive, transitive and total on the members of `dom`. */
  ghost predicate StrictTotalOn<T(!new)>(lt: (T, T) -> bool, dom: iset<T>) {
    && (forall x | x in dom :: !lt(x, x))
    && (forall x, y, z | x in dom && y in dom && z in dom && lt(x, y) && lt(y, z) :: lt(x, z))
    && (forall x, y | x in dom && y in dom && x != y :: lt(x, y) || lt(y, x))
  }

  /** Strictly increasing; in particular without repeats when `lt` is irreflexive. */
  ghost predicate Ascending<T>(lt: (T, T) -> bool, s: seq<T>) {
    forall i, j | 0 <= i < j < |s| :: lt(s[i], s[j])
  }

  ghost predicate Within<T>(s: seq<T>, dom: iset<T>) {
    forall x | x in s :: x in dom
  }

  /** Puts `x` behind every element that does not come strictly after it. */
  function Insert<T>(le: (T, T) -> bool, s: seq<T>, x: T): seq<T> {
    if |s| == 0 then [x]
    else if le(s[|s| - 1], x) then s + [x]
    else Insert(le, s[..|s| - 1], x) + [s[|s| - 1]]
  }

  function StableSort<T>(le: (T, T) -> bool, s: seq<T>): seq<T> {
    if |s| == 0 then [] else Insert(le, StableSort(le, s[..|s| - 1]), s[|s| - 1])
  }

  lemma {:induction false} InsertContents<T>(le: (T, T) -> bool, s: seq<T>, x: T)
    ensures multiset(Insert(le, s, x)) == multiset(s) + multiset{x}
  {
    if |s| > 0 {
      assert s == s[..|s| - 1] + [s[|s| - 1]];
      if !le(s[|s| - 1], x) { InsertContents(le, s[..|s| - 1], x); }
    }
  }

  lemma {:induction false} SortPermutes<T>(le: (T, T) -> bool, s: seq<T>)
    ensures multiset(StableSort(le, s)) == multiset(s)
  {
    if |s| > 0 {
      SortPermutes(le, s[..|s| - 1]);
      InsertContents(le, StableSort(le, s[..|s| - 1]), s[|s| - 1]);
      assert s == s[..|s| - 1] + [s[|s| - 1]];
    }
  }

  lemma SameMembers<T>(a: seq<T>, b: seq<T>)
    requires multiset(a) == multiset(b)
    ensures |a| == |b|
    ensures forall x :: x in a <==> x in b
  {
    assert |multiset(a)| == |a| && |multiset(b)| == |b|;
    forall x ensures x in a <==> x in b {
      assert x in a <==> x in multiset(a);
      assert x in b <==> x in multiset(b);
    }
  }

  /** A sorted list has the elements of the list, each as often. */
  lemma SortContents<T>(le: (T, T) -> bool, s: seq<T>)
    ensures multiset(StableSort(le, s)) == multiset(s)
    ensures |StableSort(le, s)| == |s|
    ensures forall x :: x in StableSort(le, s) <==> x in s
  {
    SortPermutes(le, s);
    SameMembers(StableSort(le, s), s);
  }

  lemma {:induction false} InsertAscending<T(!new)>(le: (T, T) -> bool, lt: (T, T) -> bool, dom: iset<T>, s: seq<T>, x: T)
    requires StrictTotalOn(lt, dom) && Within(s, dom) && x in dom && Ascending(lt, s)
    requires forall y | y in s :: if le(y, x) then lt(y, x) else lt(x, y)
    ensures Ascending(lt, Insert(le, s, x))
  {
    if |s| > 0 {
      var last := s[|s| - 1];
      var front := s[..|s| - 1];
      if le(last, x) {
        forall i | 0 <= i < |s| ensures lt(s[i], x) {
          if i < |s| - 1 { assert lt(s[i], last) && s[i] in dom; }
        }
      } else {
        InsertAscending(le, lt, dom, front, x);
        InsertContents(le, front, x);
        var r := Insert(le, front, x);
        forall i | 0 <= i < |r| ensures lt(r[i], last) {
          assert r[i] in multiset(r);
          assert r[i] == x || r[i] in multiset(front);
        }
      }
    }
  }

  /**
    A stable sort by a coarse key also sorts by a finer order, when equal coarse keys already
    appear in the finer order: for i before j, the coarse test agrees with the fine one.
  */
  lemma {:induction false} SortRefines<T(!new)>(le: (T, T) -> bool, lt: (T, T) -> bool, dom: iset<T>, s: seq<T>)
    requires StrictTotalOn(lt, dom) && Within(s, dom)
    requires forall i, j | 0 <= i < j < |s| :: if le(s[i], s[j]) then lt(s[i], s[j]) else lt(s[j], s[i])
    ensures Ascending(lt, StableSort(le, s))
  {
    if |s| > 0 {
      var front := s[..|s| - 1];
      SortRefines(le, lt, dom, front);
      SortContents(le, front);
      InsertAscending(le, lt, dom, StableSort(le, front), s[|s| - 1]);
    }
  }

  function Take<T>(s: seq<T>, k: nat): seq<T> {
    if |s| <= k then s else s[..k]
  }

  /** `r` lists exactly the first `k` members of `all` in `lt` order (all of them when fewer). */
  ghost predicate IsFirstK<T(!new)>(lt: (T, T) -> bool, all: iset<T>, k: nat, r: seq<T>) {
    && |r| <= k
    && Ascending(lt, r)
    && Within(r, all)
    && (forall x | x in all && x !in r :: |r| == k && forall y | y in r :: lt(y, x))
  }

  lemma AscendingDistinct<T(!new)>(lt: (T, T) -> bool, dom: iset<T>, s: seq<T>)
    requires StrictTotalOn(lt, dom) && Within(s, dom) && Ascending(lt, s)
    ensures forall i, j | 0 <= i < j < |s| :: s[i] != s[j]
  {
    forall i, j | 0 <= i < j < |s| ensures s[i] != s[j] {
      assert lt(s[i], s[j]) && s[i] in dom;
    }
  }

  function Elements<T>(s: seq<T>): set<T> { set x | x in s }

  lemma {:induction false} ElementsSize<T>(s: seq<T>)
    requires forall i, j | 0 <= i < j < |s| :: s[i] != s[j]
    ensures |Elements(s)| == |s|
  {
    if |s| > 0 {
      var front := s[..|s| - 1];
      ElementsSize(front);
      assert Elements(s) == Elements(front) + {s[|s| - 1]};
      assert s[|s| - 1] !in front;
    }
  }

  lemma {:induction false} ElementsBound<T>(s: seq<T>)
    ensures |Elements(s)| <= |s|
  {
    if |s| > 0 {
      var front := s[..|s| - 1];
      ElementsBound(front);
      assert Elements(s) == Elements(front) + {s[|s| - 1]};
    }
  }

  lemma SubsetSize<T>(a: set<T>, b: set<T>)
    requires a <= b
    ensures |a| <= |b|
  {
    assert b == a + (b - a);
  }

  /** Two lists that are both "the first k" of the same set are the same list. */
  lemma FirstKUnique<T(!new)>(lt: (T, T) -> bool, all: iset<T>, k: nat, r: seq<T>, s: seq<T>)
    requires StrictTotalOn(lt, all)
    requires IsFirstK(lt, all, k, r) && IsFirstK(lt, all, k, s)
    ensures r == s
  {
    if i: nat :| i < |r| && i < |s| && r[i] != s[i] && r[..i] == s[..i] {
      if lt(r[i], s[i]) { FirstKNoSkip(lt, all, k, r, s, i); } else { FirstKNoSkip(lt, all, k, s, r, i); }
    } else {
      CommonPrefix(r, s);
      FirstKNotShorter(lt, all, k, r, s);
      FirstKNotShorter(lt, all, k, s, r);
    }
  }

  lemma {:induction false} CommonPrefix<T>(r: seq<T>, s: seq<T>)
    requires !exists i: nat :: i < |r| && i < |s| && r[i] != s[i] && r[..i] == s[..i]
    ensures forall i | 0 <= i < |r| && i < |s| :: r[i] == s[i]
  {
    var i := 0;
    while i < |r| && i < |s|
      invariant i <= |r| && i <= |s| && r[..i] == s[..i]
    {
      assert r[i] == s[i];
      assert r[..i + 1] == r[..i] + [r[i]] && s[..i + 1] == s[..i] + [s[i]];
      i := i + 1;
    }
    forall j | 0 <= j < i ensures r[j] == s[j] { assert r[..i][j] == s[..i][j]; }
  }

  lemma FirstKNoSkip<T(!new)>(lt: (T, T) -> bool, all: iset<T>, k: nat, r: seq<T>, s: seq<T>, i: nat)
    requires StrictTotalOn(lt, all)
    requires IsFirstK(lt, all, k, r) && IsFirstK(lt, all, k, s)
    requires i < |r| && i < |s| && r[..i] == s[..i]
    ensures !lt(r[i], s[i])
  {
    AscendingDistinct(lt, all, r);
    var x := r[i];
    forall j | 0 <= j < i ensures s[j] == r[j] { assert r[..i][j] == s[..i][j]; }
    if x in s {
      var j :| 0 <= j < |s| && s[j] == x;
      assert j == i || lt(s[i], x);
    } else {
      assert lt(s[i], x);
    }
  }

  lemma FirstKNotShorter<T(!new)>(lt: (T, T) -> bool, all: iset<T>, k: nat, r: seq<T>, s: seq<T>)
    requires StrictTotalOn(lt, all)
    requires IsFirstK(lt, all, k, r) && IsFirstK(lt, all, k, s)
    ensures |s| <= |r|
  {
    if |r| != k {
      AscendingDistinct(lt, all, s);
      ElementsSize(s);
      SubsetSize(Elements(s), Elements(r));
      ElementsBound(r);
    }
  }

  /** Asking for one more than `k` tells exactly whether the first `k` are everything. */
  lemma FirstKPlusOne<T(!new)>(lt: (T, T) -> bool, all: iset<T>, k: nat, r: seq<T>)
    requires StrictTotalOn(lt, all)
    requires IsFirstK(lt, all, k + 1, r)
    ensures IsFirstK(lt, all, k, Take(r, k))
    ensures |r| > k <==> exists x :: x in all && x !in Take(r, k)
  {
    var t := Take(r, k);
    if |r| > k {
      assert r[k] in all && r[k] !in t by {
        AscendingDistinct(lt, all, r);
      }
      forall x | x in all && x !in t ensures |t| == k && forall y | y in t :: lt(y, x) {
        if x in r {
          var j :| 0 <= j < |r| && r[j] == x;
          assert j == k;
        }
      }
    }
  }

  /**
    `data` is enough to know the first `k` of `all`: whatever it omits has `k` different
    members of `data` before it.
  */
  ghost predicate Covers<T(!new)>(lt: (T, T) -> bool, all: iset<T>, k: nat, data: seq<T>) {
    && Within(data, all)
    && forall x | x in all && x !in data :: Witnessed(lt, k, data, x)
  }

  ghost predicate Witnessed<T(!new)>(lt: (T, T) -> bool, k: nat, data: seq<T>, x: T) {
    exists w: seq<T> :: Witness(lt, k, data, x, w)
  }

  ghost predicate Witness<T>(lt: (T, T) -> bool, k: nat, data: seq<T>, x: T, w: seq<T>) {
    |w| == k && Ascending(lt, w) && forall y | y in w :: y in data && lt(y, x)
  }

  /** Adding the first `k` of another part keeps the cover. */
  lemma CoversUnion<T(!new)>(lt: (T, T) -> bool, a: iset<T>, b: iset<T>, k: nat, data: seq<T>, part: seq<T>)
    requires Covers(lt, a, k, data) && IsFirstK(lt, b, k, part)
    ensures Covers(lt, a + b, k, data + part)
  {
    var u := data + part;
    forall x | x in a + b && x !in u ensures Witnessed(lt, k, u, x) {
      if x in a {
        assert Witnessed(lt, k, data, x);
        var w :| Witness(lt, k, data, x, w);
        assert Witness(lt, k, u, x, w);
      } else {
        assert Witness(lt, k, u, x, part);
      }
    }
  }

  /** Sorting a cover and cutting it at `k` gives exactly the first `k`. */
  lemma FirstKOfCover<T(!new)>(lt: (T, T) -> bool, all: iset<T>, k: nat, data: seq<T>, sorted: seq<T>)
    requires StrictTotalOn(lt, all) && Covers(lt, all, k, data)
    requires Ascending(lt, sorted) && forall x :: x in sorted <==> x in data
    ensures IsFirstK(lt, all, k, Take(sorted, k))
  {
    var r := Take(sorted, k);
    forall x | x in all && x !in r ensures |r| == k && forall y | y in r :: lt(y, x) {
      if x in data {
        var j :| 0 <= j < |sorted| && sorted[j] == x;
        assert j >= k;
      } else {
        assert Witnessed(lt, k, data, x);
        var w :| Witness(lt, k, data, x, w);
        WitnessFills(lt, all, k, data, sorted, x, w);
      }
    }
  }

  lemma WitnessFills<T(!new)>(lt: (T, T) -> bool, all: iset<T>, k: nat, data: seq<T>, sorted: seq<T>, x: T, w: seq<T>)
    requires StrictTotalOn(lt, all) && Within(data, all) && x in all && x !in data
    requires Ascending(lt, sorted) && forall y :: y in sorted <==> y in data
    requires Witness(lt, k, data, x, w)
    ensures |sorted| >= k
    ensures forall i | 0 <= i < k :: lt(sorted[i], x)
  {
    AscendingDistinct(lt, all, w);
    ElementsSize(w);
    SubsetSize(Elements(w), Elements(sorted));
    ElementsBound(sorted);
    forall i | 0 <= i < k ensures lt(sorted[i], x) {
      var s := sorted[i];
      assert s in data;
      if !lt(s, x) {
        assert lt(x, s);
        forall y | y in w ensures y in sorted[..i] {
          assert y in sorted && lt(y, x) && lt(y, s);
          var j :| 0 <= j < |sorted| && sorted[j] == y;
          assert sorted[..i][j] == y;
        }
        SubsetSize(Elements(w), Elements(sorted[..i]));
        ElementsBound(sorted[..i]);
      }
    }
  }
}
