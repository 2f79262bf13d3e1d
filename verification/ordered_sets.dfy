/** Insertion-ordered sets, the behaviour of a JavaScript `Set` that the
    scanner relies on when it turns a set back into a list with
    `Array.from` or a spread: the elements come out in the order in which
    they were first added. A set is modelled as a sequence without
    duplicates, kept in first-insertion order. */
module OrderedSets {

  predicate NoDuplicates<T(==)>(s: seq<T>) {
    forall i, j :: 0 <= i < j < |s| ==> s[i] != s[j]
  }

  function Elems<T(==)>(s: seq<T>): set<T> {
    set x | x in s
  }

  /** `Set.prototype.add`: a new element goes to the end, an element
      already present leaves the set (and its order) unchanged. */
  function Add<T(==)>(s: seq<T>, x: T): (r: seq<T>)
    ensures Elems(r) == Elems(s) + {x}
    ensures |s| <= |r| <= |s| + 1 && r[..|s|] == s
    ensures x in s ==> r == s
    ensures NoDuplicates(s) ==> NoDuplicates(r)
  {
    if x in s then s else s + [x]
  }

  /** Adds the elements of `xs` one at a time, left to right, as a
      `forEach(x => set.add(x))` does. */
  function AddAll<T(==)>(s: seq<T>, xs: seq<T>): (r: seq<T>)
    ensures Elems(r) == Elems(s) + Elems(xs)
    ensures NoDuplicates(s) ==> NoDuplicates(r)
    decreases |xs|
  {
    if xs == [] then s
    else
      assert Elems(xs) == Elems(xs[..|xs| - 1]) + {xs[|xs| - 1]} by {
        assert xs == xs[..|xs| - 1] + [xs[|xs| - 1]];
      }
      Add(AddAll(s, xs[..|xs| - 1]), xs[|xs| - 1])
  }

  /** The set obtained by adding every element of `xs` to an empty set. */
  function Dedup<T(==)>(xs: seq<T>): (r: seq<T>)
    ensures NoDuplicates(r)
    ensures Elems(r) == Elems(xs)
  {
    AddAll([], xs)
  }

  /** Keeps the elements not in `c`, in order: `[...s].filter(x => !c.has(x))`. */
  function Without<T(==)>(s: seq<T>, c: set<T>): (r: seq<T>)
    ensures Elems(r) == Elems(s) - c
    ensures |r| <= |s|
    ensures NoDuplicates(s) ==> NoDuplicates(r)
  {
    if s == [] then []
    else
      var rest := Without(s[1..], c);
      ElemsCons(s);
      assert NoDuplicates(s) ==> s[0] !in Elems(rest) by {
        if NoDuplicates(s) {
          forall k | 0 <= k < |s[1..]| ensures s[1..][k] != s[0] {
            assert s[1..][k] == s[k + 1];
          }
        }
      }
      assert NoDuplicates(s) ==> NoDuplicates(s[1..]) by {
        if NoDuplicates(s) {
          forall i, j | 0 <= i < j < |s[1..]| ensures s[1..][i] != s[1..][j] {
            assert s[1..][i] == s[i + 1] && s[1..][j] == s[j + 1];
          }
        }
      }
      var head := if s[0] in c then [] else [s[0]];
      ElemsAppend(head, rest);
      assert Elems(head) == {s[0]} - c;
      head + rest
  }

  /** `Set.prototype.delete`. */
  function Delete<T(==)>(s: seq<T>, x: T): (r: seq<T>)
    ensures Elems(r) == Elems(s) - {x}
    ensures NoDuplicates(s) ==> NoDuplicates(r)
  {
    Without(s, {x})
  }

  /** `Array.prototype.filter`: the elements satisfying `p`, in order. */
  function Filter<T(!new)>(s: seq<T>, p: T -> bool): (r: seq<T>)
    ensures forall x :: x in r <==> x in s && p(x)
    ensures |r| <= |s|
  {
    if s == [] then []
    else
      var rest := Filter(s[1..], p);
      assert forall x :: x in s <==> x == s[0] || x in s[1..];
      (if p(s[0]) then [s[0]] else []) + rest
  }

  /** The position of the first occurrence of `x` in `s`. */
  function FirstIndex<T(==)>(s: seq<T>, x: T): (i: nat)
    requires x in s
    ensures i < |s| && s[i] == x && x !in s[..i]
  {
    if s[0] == x then 0
    else
      assert s == [s[0]] + s[1..];
      var k := FirstIndex(s[1..], x);
      assert s[..k + 1] == [s[0]] + s[1..][..k];
      k + 1
  }

  /** `r` lists distinct elements of `s`, ordered by where each first occurs in `s`. */
  predicate FirstOccurrenceOrder<T(==)>(r: seq<T>, s: seq<T>) {
    && NoDuplicates(r)
    && (forall i :: 0 <= i < |r| ==> r[i] in s)
    && (forall i, j :: 0 <= i < j < |r| ==> FirstIndex(s, r[i]) < FirstIndex(s, r[j]))
  }

  /** `a` can be obtained from `b` by dropping elements. */
  predicate IsSubsequence<T(==)>(a: seq<T>, b: seq<T>)
    decreases |b|
  {
    if a == [] then true
    else if b == [] then false
    else if a[0] == b[0] then IsSubsequence(a[1..], b[1..])
    else IsSubsequence(a, b[1..])
  }

  lemma {:induction false} AddAllAppend<T>(s: seq<T>, a: seq<T>, b: seq<T>)
    ensures AddAll(AddAll(s, a), b) == AddAll(s, a + b)
    decreases |b|
  {
    if b == [] {
      assert a + b == a;
    } else {
      var b' := b[..|b| - 1];
      AddAllAppend(s, a, b');
      assert (a + b)[..|a + b| - 1] == a + b';
      assert (a + b)[|a + b| - 1] == b[|b| - 1];
    }
  }

  /** Adding a duplicate-free `s` to an empty set gives back `s`. */
  lemma {:induction false} DedupOfDistinct<T>(s: seq<T>)
    requires NoDuplicates(s)
    ensures Dedup(s) == s
    decreases |s|
  {
    if s != [] {
      var s' := s[..|s| - 1];
      DedupOfDistinct(s');
      assert s[|s| - 1] !in s';
    }
  }

  lemma ElemsEmpty<T>(s: seq<T>)
    ensures Elems(s) == {} ==> s == []
  {
    if s != [] {
      assert s[0] in Elems(s);
    }
  }

  lemma ElemsCons<T>(s: seq<T>)
    requires s != []
    ensures Elems(s) == {s[0]} + Elems(s[1..])
  {
    assert s == [s[0]] + s[1..];
  }

  lemma ElemsAppend<T>(a: seq<T>, b: seq<T>)
    ensures Elems(a + b) == Elems(a) + Elems(b)
  {
    forall x | x in a + b ensures x in a || x in b {
      var k :| 0 <= k < |a + b| && (a + b)[k] == x;
      if k >= |a| {
        assert b[k - |a|] == x;
      }
    }
  }

  /** An index holding `x` with no `x` before it is the first index. */
  lemma {:induction false} FirstIndexUnique<T>(s: seq<T>, x: T, k: nat)
    requires k < |s| && s[k] == x && x !in s[..k]
    ensures FirstIndex(s, x) == k
    decreases k
  {
    if s[0] != x {
      assert s[1..][k - 1] == x;
      assert s[1..][..k - 1] == s[..k][1..];
      FirstIndexUnique(s[1..], x, k - 1);
    }
  }

  lemma FirstIndexOfPrefix<T>(s: seq<T>, x: T, y: T)
    requires x in s
    ensures FirstIndex(s + [y], x) == FirstIndex(s, x)
  {
    var i := FirstIndex(s, x);
    assert (s + [y])[..i] == s[..i];
    FirstIndexUnique(s + [y], x, i);
  }

  lemma FirstIndexOfNew<T>(s: seq<T>, y: T)
    requires y !in s
    ensures FirstIndex(s + [y], y) == |s|
  {
    assert (s + [y])[..|s|] == s;
    FirstIndexUnique(s + [y], y, |s|);
  }

  /** Building a set by insertion keeps the elements in first-occurrence order. */
  lemma {:induction false} DedupFirstOccurrence<T>(xs: seq<T>)
    ensures FirstOccurrenceOrder(Dedup(xs), xs)
    decreases |xs|
  {
    var r := Dedup(xs);
    forall i | 0 <= i < |r|
      ensures r[i] in xs
    {
      assert r[i] in Elems(r);
    }
    if xs != [] {
      var init, y := xs[..|xs| - 1], xs[|xs| - 1];
      assert xs == init + [y];
      var d := Dedup(init);
      DedupFirstOccurrence(init);
      assert Elems(d) == Elems(init);
      forall i, j | 0 <= i < j < |r|
        ensures FirstIndex(xs, r[i]) < FirstIndex(xs, r[j])
      {
        if y in d {
          FirstIndexOfPrefix(init, r[i], y);
          FirstIndexOfPrefix(init, r[j], y);
        } else if j < |d| {
          FirstIndexOfPrefix(init, r[i], y);
          FirstIndexOfPrefix(init, r[j], y);
        } else {
          assert r[j] == y && r[i] == d[i];
          FirstIndexOfPrefix(init, r[i], y);
          FirstIndexOfNew(init, y);
        }
      }
    }
  }

  /** Filtering out nothing changes nothing. */
  lemma {:induction false} WithoutNothing<T>(s: seq<T>)
    ensures Without(s, {}) == s
    decreases |s|
  {
    if s != [] {
      WithoutNothing(s[1..]);
    }
  }

  lemma {:induction false} FilterIsSubsequence<T(!new)>(s: seq<T>, p: T -> bool)
    ensures IsSubsequence(Filter(s, p), s)
    decreases |s|
  {
    if s != [] {
      FilterIsSubsequence(s[1..], p);
      var f := Filter(s, p);
      if p(s[0]) {
        assert f[0] == s[0] && f[1..] == Filter(s[1..], p);
      } else {
        assert f == Filter(s[1..], p);
        if f != [] {
          assert f[0] in f;
        }
      }
    }
  }

  /** A filter that no element passes leaves nothing. */
  lemma {:induction false} FilterNone<T(!new)>(s: seq<T>, p: T -> bool)
    requires forall i :: 0 <= i < |s| ==> !p(s[i])
    ensures Filter(s, p) == []
    decreases |s|
  {
    if s != [] {
      FilterNone(s[1..], p);
    }
  }

  /** Filtering out a superset of the elements leaves nothing. */
  lemma {:induction false} WithoutAll<T>(s: seq<T>, c: set<T>)
    requires Elems(s) <= c
    ensures Without(s, c) == []
    decreases |s|
  {
    if s != [] {
      ElemsCons(s);
      WithoutAll(s[1..], c);
    }
  }

  lemma {:induction false} WithoutWithout<T>(s: seq<T>, c: set<T>, d: set<T>)
    ensures Without(Without(s, c), d) == Without(s, c + d)
    decreases |s|
  {
    if s != [] {
      WithoutWithout(s[1..], c, d);
      if s[0] in c {
        assert Without(s, c) == Without(s[1..], c);
      } else {
        assert Without(s, c) == [s[0]] + Without(s[1..], c);
        assert Without(s, c)[1..] == Without(s[1..], c);
      }
    }
  }

  /** Only the members of `s` matter in the set being filtered out. */
  lemma {:induction false} WithoutAgree<T>(s: seq<T>, c: set<T>, d: set<T>)
    requires c * Elems(s) == d * Elems(s)
    ensures Without(s, c) == Without(s, d)
    decreases |s|
  {
    if s != [] {
      ElemsCons(s);
      assert s[0] in c * Elems(s) <==> s[0] in d * Elems(s);
      forall x | x in Elems(s[1..]) ensures x in c <==> x in d {
        assert x in c * Elems(s) <==> x in d * Elems(s);
      }
      WithoutAgree(s[1..], c, d);
    }
  }

  lemma {:induction false} WithoutIsSubsequence<T>(s: seq<T>, c: set<T>)
    ensures IsSubsequence(Without(s, c), s)
    decreases |s|
  {
    if s != [] {
      WithoutIsSubsequence(s[1..], c);
      var w := Without(s, c);
      if s[0] !in c {
        assert w[0] == s[0] && w[1..] == Without(s[1..], c);
      } else {
        assert w == Without(s[1..], c);
        if w != [] {
          assert w[0] in Elems(w);
        }
      }
    }
  }

  /** Filtering keeps the first-occurrence order of what remains. */
  lemma {:induction false} WithoutKeepsOrder<T>(r: seq<T>, s: seq<T>, c: set<T>)
    requires FirstOccurrenceOrder(r, s)
    ensures FirstOccurrenceOrder(Without(r, c), s)
    decreases |r|
  {
    var w := Without(r, c);
    if r != [] {
      var rest := r[1..];
      assert FirstOccurrenceOrder(rest, s) by {
        forall i, j | 0 <= i < j < |rest|
          ensures FirstIndex(s, rest[i]) < FirstIndex(s, rest[j])
        {
          assert rest[i] == r[i + 1] && rest[j] == r[j + 1];
        }
      }
      WithoutKeepsOrder(rest, s, c);
      var wr := Without(rest, c);
      forall i | 0 <= i < |w|
        ensures w[i] in s
      {
        assert w[i] in Elems(w);
        assert w[i] in Elems(r);
      }
      if r[0] !in c {
        assert w == [r[0]] + wr;
        forall i, j | 0 <= i < j < |w|
          ensures FirstIndex(s, w[i]) < FirstIndex(s, w[j])
        {
          if i == 0 {
            assert w[j] == wr[j - 1];
            assert w[j] in Elems(wr);
            assert w[j] in rest;
            var k :| 0 <= k < |rest| && rest[k] == w[j];
            assert r[k + 1] == w[j];
          } else {
            assert w[i] == wr[i - 1] && w[j] == wr[j - 1];
          }
        }
      } else {
        assert w == wr;
      }
    }
  }
}
