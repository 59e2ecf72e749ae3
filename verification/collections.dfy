/** Sequence and set helpers shared by the generator, the pipeline and the matcher. */
module Collections {

  /** The set of elements of a sequence (the key set of a Go `map[string]bool`). */
  function Elems<T>(xs: seq<T>): set<T> {
    set x | x in xs
  }

  /** No element occurs twice. */
  predicate Distinct<T(==)>(xs: seq<T>) {
    forall i, j :: 0 <= i < j < |xs| ==> xs[i] != xs[j]
  }

  /** Concatenation is associative. */
  lemma ConcatAssoc<T>(a: seq<T>, b: seq<T>, c: seq<T>)
    ensures (a + b) + c == a + (b + c)
  {
  }

  /** Appending one element adds it to the element set. */
  lemma ElemsAppend<T>(xs: seq<T>, x: T)
    ensures Elems(xs + [x]) == Elems(xs) + {x}
  {
  }

  /** Appending an element not yet present keeps a sequence free of repetitions. */
  lemma DistinctAppend<T>(xs: seq<T>, x: T)
    requires Distinct(xs) && x !in xs
    ensures Distinct(xs + [x])
  {
  }

  /** A sequence without repetitions has as many distinct elements as positions. */
  lemma {:induction false} DistinctCard<T>(xs: seq<T>)
    requires Distinct(xs)
    ensures |Elems(xs)| == |xs|
  {
    if xs != [] {
      var init := xs[..|xs| - 1];
      var last := xs[|xs| - 1];
      assert Distinct(init);
      DistinctCard(init);
      assert Elems(xs) == Elems(init) + {last} by {
        assert xs == init + [last];
      }
      assert last !in Elems(init) by {
        forall i | 0 <= i < |init| ensures init[i] != last {
          assert xs[i] == init[i];
        }
      }
    }
  }

  /** A subset is no larger than its superset. */
  lemma SubsetCard<T>(a: set<T>, b: set<T>)
    requires a <= b
    ensures |a| <= |b|
  {
    assert b == a + (b - a);
  }

  /** The first position of `x` in `xs`. */
  function FirstIndex<T(==)>(xs: seq<T>, x: T): (i: nat)
    requires x in xs
    ensures i < |xs| && xs[i] == x
    ensures forall j :: 0 <= j < i ==> xs[j] != x
  {
    if xs[0] == x then 0 else 1 + FirstIndex(xs[1..], x)
  }

  /** `xs` with its empty strings left out, the rest kept in order
      (the filtering loops at main.go:224-228 and find.go:59-64). */
  function DropEmpty(xs: seq<string>): (r: seq<string>)
    ensures |r| <= |xs|
    ensures forall x :: x in r <==> x in xs && x != ""
  {
    if xs == [] then []
    else if xs[0] == "" then DropEmpty(xs[1..])
    else [xs[0]] + DropEmpty(xs[1..])
  }

  /** Filtering a list without empty strings changes nothing. */
  lemma {:induction false} DropEmptyNone(xs: seq<string>)
    requires forall x :: x in xs ==> x != ""
    ensures DropEmpty(xs) == xs
  {
    if xs != [] {
      assert xs[0] in xs;
      assert forall x :: x in xs[1..] ==> x in xs;
      DropEmptyNone(xs[1..]);
    }
  }

  /** Filtering commutes with concatenation: every kept element stays where it was
      relative to the others. */
  lemma {:induction false} DropEmptyAppend(a: seq<string>, b: seq<string>)
    ensures DropEmpty(a + b) == DropEmpty(a) + DropEmpty(b)
  {
    if a != [] {
      assert (a + b)[0] == a[0];
      assert (a + b)[1..] == a[1..] + b;
      DropEmptyAppend(a[1..], b);
    } else {
      assert a + b == b;
    }
  }

  /** The first occurrence of every element of `xs`, in order of first occurrence:
      the effect of filtering a stream through a `seen` set (main.go:263-267). */
  function Dedup<T(==)>(xs: seq<T>): seq<T>
  {
    if xs == [] then []
    else
      var init := xs[..|xs| - 1];
      var last := xs[|xs| - 1];
      if last in init then Dedup(init) else Dedup(init) + [last]
  }

  /** `Dedup` keeps one copy of every element, nothing else, in order of first occurrence. */
  lemma {:induction false} DedupSpec<T>(xs: seq<T>)
    ensures Distinct(Dedup(xs))
    ensures Elems(Dedup(xs)) == Elems(xs)
    ensures |Dedup(xs)| <= |xs|
    ensures forall i :: 0 <= i < |Dedup(xs)| ==> Dedup(xs)[i] in xs
    ensures forall i, j :: 0 <= i < j < |Dedup(xs)| ==> FirstIndex(xs, Dedup(xs)[i]) < FirstIndex(xs, Dedup(xs)[j])
  {
    if xs != [] {
      var init := xs[..|xs| - 1];
      var last := xs[|xs| - 1];
      DedupSpec(init);
      assert xs == init + [last];
      if last in init {
        DedupSeen(init, last, Dedup(init));
      } else {
        DedupFresh(init, last, Dedup(init));
      }
    }
  }

  /** What `DedupSpec` states of `d` as the de-duplication of `xs`. */
  ghost predicate DedupOf<T>(xs: seq<T>, d: seq<T>) {
    && Distinct(d)
    && Elems(d) == Elems(xs)
    && |d| <= |xs|
    && (forall i :: 0 <= i < |d| ==> d[i] in xs)
    && (forall i, j :: 0 <= i < j < |d| ==> FirstIndex(xs, d[i]) < FirstIndex(xs, d[j]))
  }

  /** An element seen before adds nothing. */
  lemma DedupSeen<T>(init: seq<T>, last: T, d: seq<T>)
    requires last in init && DedupOf(init, d)
    ensures DedupOf(init + [last], d)
  {
    var xs := init + [last];
    FirstIndexExtend(init, last);
    assert Elems(xs) == Elems(init) + {last};
  }

  /** A new element is appended. */
  lemma DedupFresh<T>(init: seq<T>, last: T, d: seq<T>)
    requires last !in init && DedupOf(init, d)
    ensures DedupOf(init + [last], d + [last])
  {
    var xs := init + [last];
    FirstIndexExtend(init, last);
    assert Elems(xs) == Elems(init) + {last};
    assert Elems(d + [last]) == Elems(d) + {last};
  }

  /** Extending a sequence does not move first occurrences, and a new element is first seen at the end. */
  lemma FirstIndexExtend<T>(init: seq<T>, last: T)
    ensures forall x :: x in init ==> FirstIndex(init + [last], x) == FirstIndex(init, x)
    ensures last !in init ==> FirstIndex(init + [last], last) == |init|
  {
    var xs := init + [last];
    forall x | x in init ensures FirstIndex(xs, x) == FirstIndex(init, x) {
      var i, k := FirstIndex(xs, x), FirstIndex(init, x);
      assert xs[k] == x;
      assert i <= k;
      assert init[i] == x;
    }
    if last !in init {
      forall j | 0 <= j < |init| ensures xs[j] != last {
        assert xs[j] == init[j];
      }
    }
  }
}
