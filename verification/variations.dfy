/** The variation generator of main.go: a breadth-first worklist that expands one URL
    into every prefix ending at a delimiter, repeatedly, for every configured delimiter. */
module Variations {
  import opened GoStrings
  import opened Collections

  /** The `i`-th truncation of `s` at `d`: the first `i` parts of the split, re-joined,
      followed by `d` (main.go:311-315). */
  function Truncation(s: string, d: string, i: int): string
    requires d != "" && 1 <= i < |Split(s, d)|
  {
    Join(Split(s, d)[..i], d) + d
  }

  /** Every truncation is a prefix of the string it was cut from: the rest of the parts,
      re-joined, follow it. */
  lemma TruncationIsPrefix(s: string, d: string, i: int)
    requires d != "" && 1 <= i < |Split(s, d)|
    ensures Truncation(s, d, i) <= s
  {
    var parts := Split(s, d);
    JoinSplit(s, d);
    JoinAt(parts, i, d);
    assert s == Truncation(s, d, i) + Join(parts[i..], d);
  }

  /** A truncation ends with the delimiter it was cut at. */
  lemma TruncationEndsWith(s: string, d: string, i: int)
    requires d != "" && 1 <= i < |Split(s, d)|
    ensures EndsWith(Truncation(s, d, i), d)
  {
    var x := Join(Split(s, d)[..i], d);
    assert (x + d)[|x|..] == d;
  }

  /** The first truncation runs up to the end of the first occurrence. */
  lemma FirstTruncation(s: string, d: string)
    requires d != "" && Index(s, d) >= 0
    ensures |Split(s, d)| >= 2
    ensures Truncation(s, d, 1) == s[..Index(s, d)] + d
  {
    SplitUnfold(s, d);
    assert Split(s, d)[..1] == [s[..Index(s, d)]];
  }

  /** A later truncation is the text up to the first occurrence, the delimiter, and a
      truncation of the rest. */
  lemma LaterTruncation(s: string, d: string, i: int)
    requires d != "" && Index(s, d) >= 0 && 2 <= i < |Split(s, d)|
    ensures var rest := s[Index(s, d) + |d|..];
            && 1 <= i - 1 < |Split(rest, d)|
            && Truncation(s, d, i) == s[..Index(s, d)] + d + Truncation(rest, d, i - 1)
  {
    var k := Index(s, d);
    var tail := Split(s[k + |d|..], d);
    SplitUnfold(s, d);
    JoinTakeCons(s[..k], tail, i, d);
    ConcatAssoc(s[..k] + d, Join(tail[..i - 1], d), d);
  }

  /** Joining the first `i` parts of `[x] + xs`, for `i >= 2`. */
  lemma JoinTakeCons(x: string, xs: seq<string>, i: int, d: string)
    requires 2 <= i <= |xs| + 1
    ensures Join(([x] + xs)[..i], d) == x + d + Join(xs[..i - 1], d)
  {
    assert ([x] + xs)[..i] == [x] + xs[..i - 1];
    JoinCons(x, xs[..i - 1], d);
  }

  /** The truncations of `v` at `d` that one expansion step adds; none for an empty delimiter
      (main.go:302-304), and none when `d` does not occur (main.go:306-308). */
  function Children(v: string, d: string): set<string>
  {
    if d == "" then {} else ChildrenBelow(v, d, |Split(v, d)|)
  }

  /** The truncations of `v` at `d` numbered below `i`, the ones the loop of
      main.go:311-324 has produced before its `i`-th round. */
  function ChildrenBelow(v: string, d: string, i: int): set<string>
    requires d != "" && i <= |Split(v, d)|
    decreases i
  {
    if i <= 1 then {} else ChildrenBelow(v, d, i - 1) + {Truncation(v, d, i - 1)}
  }

  /** `ChildrenBelow(v, d, i)` holds exactly the truncations numbered 1 to `i - 1`. */
  lemma {:induction false} ChildrenBelowMembers(v: string, d: string, i: int)
    requires d != "" && i <= |Split(v, d)|
    ensures forall x :: x in ChildrenBelow(v, d, i) <==> exists j :: 1 <= j < i && x == Truncation(v, d, j)
    decreases i
  {
    if i > 1 {
      ChildrenBelowMembers(v, d, i - 1);
    }
  }

  /** The children of `v` at a non-empty `d` are exactly its truncations. */
  lemma ChildrenMembers(v: string, d: string)
    requires d != ""
    ensures forall x :: x in Children(v, d) <==> exists j :: 1 <= j < |Split(v, d)| && x == Truncation(v, d, j)
  {
    ChildrenBelowMembers(v, d, |Split(v, d)|);
  }

  /** Every truncation of `v` at `d` is a child of `v`. */
  lemma TruncationIsChild(v: string, d: string, i: int)
    requires d != "" && 1 <= i < |Split(v, d)|
    ensures Truncation(v, d, i) in Children(v, d)
  {
    ChildrenMembers(v, d);
  }

  /** The truncations numbered below `i` are prefixes of `v` ending with `d`. */
  lemma {:induction false} ChildrenBelowPrefixes(v: string, d: string, i: int)
    requires d != "" && i <= |Split(v, d)|
    ensures forall x :: x in ChildrenBelow(v, d, i) ==> x <= v && EndsWith(x, d)
    decreases i
  {
    if i > 1 {
      ChildrenBelowPrefixes(v, d, i - 1);
      TruncationIsPrefix(v, d, i - 1);
      TruncationEndsWith(v, d, i - 1);
    }
  }

  /** Every child of `v` is a prefix of `v` ending with `d`. */
  lemma ChildrenArePrefixes(v: string, d: string)
    ensures forall x :: x in Children(v, d) ==> x <= v && d != "" && EndsWith(x, d)
  {
    if d != "" {
      ChildrenBelowPrefixes(v, d, |Split(v, d)|);
    }
  }

  /** `S` is closed under expansion: every truncation of a member is a member. */
  ghost predicate Closed(S: set<string>, ds: seq<string>) {
    forall v, d {:trigger Children(v, d)} :: v in S && d in ds ==> Children(v, d) <= S
  }

  /** `R` is the variation set of `url`: the least set that holds `url` and is closed
      under expansion with the delimiters `ds`. */
  ghost predicate IsVariationSet(R: set<string>, url: string, ds: seq<string>) {
    && url in R
    && Closed(R, ds)
    && forall S {:trigger Closed(S, ds)} :: url in S && Closed(S, ds) ==> R <= S
  }

  /** `v` ends with one of the (non-empty) delimiters in `ds`. */
  ghost predicate EndsWithDelimiter(v: string, ds: seq<string>) {
    exists d :: d in ds && d != "" && EndsWith(v, d)
  }

  /** What the worklist keeps true: `visited` is the set of queued strings, without
      repetitions, starting with `url`; every member is a prefix of `url` that is `url`
      itself or ends with a delimiter; and every member lies in every closed set that holds `url`. */
  ghost predicate Sound(url: string, ds: seq<string>, visited: set<string>, queue: seq<string>) {
    && visited == Elems(queue)
    && Distinct(queue)
    && url in visited
    && (forall v :: v in visited ==> v <= url && (v == url || EndsWithDelimiter(v, ds)))
    && (forall S {:trigger Closed(S, ds)} :: url in S && Closed(S, ds) ==> visited <= S)
  }

  /** A queue of distinct prefixes of `url` holds at most `|url| + 1` strings. */
  lemma PrefixQueueBound(url: string, queue: seq<string>)
    requires Distinct(queue)
    requires forall v :: v in queue ==> v <= url
    ensures |queue| <= |url| + 1
  {
    DistinctCard(queue);
    PrefixesCard(url);
    assert Elems(queue) <= Prefixes(url) by {
      forall v | v in Elems(queue) ensures v in Prefixes(url) {
        assert v == url[..|v|];
      }
    }
    SubsetCard(Elems(queue), Prefixes(url));
  }

  /** All prefixes of `s`. */
  function Prefixes(s: string): set<string> {
    set k | 0 <= k <= |s| :: s[..k]
  }

  /** A string of length `n` has exactly `n + 1` prefixes. */
  lemma {:induction false} PrefixesCard(s: string)
    ensures |Prefixes(s)| == |s| + 1
  {
    if s == [] {
      assert Prefixes(s) == {s} by {
        assert s[..0] == s;
      }
    } else {
      var t := s[..|s| - 1];
      PrefixesCard(t);
      assert Prefixes(s) == Prefixes(t) + {s} by {
        forall v | v in Prefixes(s) ensures v in Prefixes(t) + {s} {
          var k :| 0 <= k <= |s| && v == s[..k];
          if k < |s| {
            assert v == t[..k];
          } else {
            assert v == s;
          }
        }
        forall v | v in Prefixes(t) ensures v in Prefixes(s) {
          var k :| 0 <= k <= |t| && v == t[..k];
          assert v == s[..k];
        }
        assert s == s[..|s|];
      }
      assert s !in Prefixes(t);
    }
  }

  /** One pass of the delimiter loop of main.go:300-334 for the string `cur` and the
      delimiter `d`: every truncation not yet seen is recorded and queued. */
  method ExpandWith(ghost url: string, ghost ds: seq<string>, cur: string, d: string,
                    visited: set<string>, queue: seq<string>)
    returns (visited': set<string>, queue': seq<string>)
    requires Sound(url, ds, visited, queue)
    requires cur in visited && d in ds
    ensures Sound(url, ds, visited', queue')
    ensures visited' == visited + Children(cur, d)
    ensures queue <= queue'
    ensures forall v :: v in visited' - visited ==> v < cur
  {
    visited', queue' := visited, queue;
    if d == "" {
      return;
    }
    var parts := Split(cur, d);
    if |parts| <= 1 {
      assert Children(cur, d) == {};
      return;
    }
    visited', queue' := VisitAll(url, ds, cur, d, visited, queue);
    // The re-join step of main.go:326-334 rebuilds `cur` itself, which is already visited,
    // so it never adds anything.
    var rejoined := Join(parts, d);
    JoinSplit(cur, d);
    assert rejoined in visited';
    NewChildrenShorter(cur, d, visited);
    assert visited' - visited == Children(cur, d) - visited;
  }

  /** The loop of main.go:311-324: every truncation of `cur` at `d` is visited in turn. */
  method VisitAll(ghost url: string, ghost ds: seq<string>, cur: string, d: string,
                  visited: set<string>, queue: seq<string>)
    returns (visited': set<string>, queue': seq<string>)
    requires Sound(url, ds, visited, queue)
    requires cur in visited && d in ds && d != ""
    ensures Sound(url, ds, visited', queue')
    ensures visited' == visited + Children(cur, d)
    ensures queue <= queue'
  {
    visited', queue' := visited, queue;
    var parts := Split(cur, d);
    var i := 1;
    assert ChildrenBelow(cur, d, i) == {};
    while i < |parts|
      invariant 1 <= i <= |parts| || |parts| == 1 == i
      invariant Sound(url, ds, visited', queue')
      invariant visited' == visited + ChildrenBelow(cur, d, i)
      invariant queue <= queue'
    {
      visited', queue' := VisitNext(url, ds, cur, d, i, visited, queue, visited', queue');
      i := i + 1;
    }
    assert i == |parts|;
    assert Children(cur, d) == ChildrenBelow(cur, d, i);
  }

  /** One round of the loop of main.go:311-324: the `i`-th truncation is visited. */
  method VisitNext(ghost url: string, ghost ds: seq<string>, cur: string, d: string, i: int,
                   ghost visited0: set<string>, ghost queue0: seq<string>,
                   visited: set<string>, queue: seq<string>)
    returns (visited': set<string>, queue': seq<string>)
    requires d != "" && 1 <= i < |Split(cur, d)| && cur in visited0 && d in ds
    requires Sound(url, ds, visited, queue)
    requires visited == visited0 + ChildrenBelow(cur, d, i)
    requires queue0 <= queue
    ensures Sound(url, ds, visited', queue')
    ensures visited' == visited0 + ChildrenBelow(cur, d, i + 1)
    ensures queue0 <= queue'
  {
    var prefix := Truncation(cur, d, i);
    TruncationIsChild(cur, d, i);
    visited', queue' := Visit(url, ds, cur, d, prefix, visited, queue);
  }

  /** Record a truncation of `cur` and queue it for expansion, unless it was seen
      before (main.go:317-323). */
  method Visit(ghost url: string, ghost ds: seq<string>, ghost cur: string, ghost d: string,
               prefix: string, visited: set<string>, queue: seq<string>)
    returns (visited': set<string>, queue': seq<string>)
    requires Sound(url, ds, visited, queue)
    requires cur in visited && d in ds && prefix in Children(cur, d)
    ensures Sound(url, ds, visited', queue')
    ensures visited' == visited + {prefix}
    ensures queue <= queue'
  {
    visited', queue' := visited, queue;
    if prefix !in visited {
      AddVisited(url, ds, cur, d, prefix, visited, queue);
      visited' := visited + {prefix};
      queue' := queue + [prefix];
    }
  }

  /** The children of a visited string that were not visited before are strictly shorter
      than it. */
  lemma NewChildrenShorter(cur: string, d: string, visited: set<string>)
    requires cur in visited
    ensures forall v :: v in Children(cur, d) - visited ==> v < cur
  {
    ChildrenArePrefixes(cur, d);
    forall v | v in Children(cur, d) - visited ensures v < cur {
      assert v <= cur && v != cur;
      assert cur[..|cur|] == cur;
    }
  }

  /** Recording and queueing a fresh truncation of a visited string keeps the worklist sound. */
  lemma AddVisited(url: string, ds: seq<string>, cur: string, d: string, prefix: string,
                   visited: set<string>, queue: seq<string>)
    requires Sound(url, ds, visited, queue)
    requires cur in visited && d in ds && prefix in Children(cur, d) && prefix !in visited
    ensures Sound(url, ds, visited + {prefix}, queue + [prefix])
  {
    ChildrenArePrefixes(cur, d);
    ElemsAppend(queue, prefix);
    DistinctAppend(queue, prefix);
    assert EndsWithDelimiter(prefix, ds);
    forall S | url in S && Closed(S, ds) ensures visited + {prefix} <= S {
      assert cur in S;
      assert Children(cur, d) <= S;
    }
  }

  /** `generateVariations` (main.go:280-344): the variation set of `url`, listed without
      repetitions in order of discovery. */
  method GenerateVariations(url: string, ds: seq<string>) returns (r: seq<string>)
    ensures Distinct(r)
    ensures IsVariationSet(Elems(r), url, ds)
    ensures forall v :: v in r ==> v <= url && (v == url || EndsWithDelimiter(v, ds))
    ensures |r| <= |url| + 1
    ensures (forall d :: d in ds && d != "" ==> !Contains(url, d)) ==> r == [url]
  {
    if |ds| == 0 {
      return [url];
    }
    var visited := {url};
    var queue := [url];
    var head := 0;
    while head < |queue|
      invariant 0 <= head <= |queue| <= |url| + 1
      invariant Sound(url, ds, visited, queue)
      invariant forall j, d :: 0 <= j < head && d in ds ==> Children(queue[j], d) <= visited
      decreases |url| + 1 - head
    {
      var cur := queue[head];
      ghost var queue0 := queue;
      visited, queue := ExpandCurrent(url, ds, cur, visited, queue);
      forall j, d | 0 <= j < head && d in ds ensures Children(queue[j], d) <= visited {
        assert queue[j] == queue0[j];
      }
      head := head + 1;
      assert forall v :: v in queue ==> v in Elems(queue);
      PrefixQueueBound(url, queue);
    }
    r := queue;
    Finished(url, ds, visited, queue);
    if forall d :: d in ds && d != "" ==> !Contains(url, d) {
      NoDelimiterSingleton(url, ds);
      VariationSetUnique(Elems(r), {url}, url, ds);
      SingletonSeq(r, url);
    }
  }

  /** One round of the outer loop of main.go:296-339: `cur` is expanded with every delimiter
      in turn (main.go:300-334). */
  method ExpandCurrent(ghost url: string, ds: seq<string>, cur: string, visited: set<string>, queue: seq<string>)
    returns (visited': set<string>, queue': seq<string>)
    requires Sound(url, ds, visited, queue) && cur in visited
    ensures Sound(url, ds, visited', queue')
    ensures visited <= visited'
    ensures queue <= queue'
    ensures forall d :: d in ds ==> Children(cur, d) <= visited'
  {
    visited', queue' := visited, queue;
    var di := 0;
    while di < |ds|
      invariant 0 <= di <= |ds|
      invariant Sound(url, ds, visited', queue')
      invariant visited <= visited'
      invariant queue <= queue'
      invariant forall d :: d in ds[..di] ==> Children(cur, d) <= visited'
    {
      visited', queue' := ExpandWith(url, ds, cur, ds[di], visited', queue');
      di := di + 1;
    }
    assert ds[..di] == ds;
  }

  /** When every queued string has been expanded with every delimiter, the visited strings
      form the variation set. */
  lemma Finished(url: string, ds: seq<string>, visited: set<string>, queue: seq<string>)
    requires Sound(url, ds, visited, queue)
    requires forall j, d :: 0 <= j < |queue| && d in ds ==> Children(queue[j], d) <= visited
    ensures IsVariationSet(Elems(queue), url, ds)
    ensures forall v :: v in queue ==> v in visited
  {
    forall v, d | v in Elems(queue) && d in ds ensures Children(v, d) <= visited {
      var j :| 0 <= j < |queue| && queue[j] == v;
    }
  }

  /** Every variation is a prefix of the URL that is the URL itself or ends with a delimiter:
      the strings of that shape form a closed set holding the URL. */
  lemma VariationsArePrefixes(R: set<string>, url: string, ds: seq<string>)
    requires IsVariationSet(R, url, ds)
    ensures forall v :: v in R ==> v <= url && (v == url || EndsWithDelimiter(v, ds))
  {
    var P := set k | 0 <= k <= |url| && (url[..k] == url || EndsWithDelimiter(url[..k], ds)) :: url[..k];
    assert url == url[..|url|];
    forall v, d | v in P && d in ds ensures Children(v, d) <= P {
      ChildrenArePrefixes(v, d);
      forall x | x in Children(v, d) ensures x in P {
        assert x == url[..|x|];
        assert EndsWithDelimiter(x, ds);
      }
    }
    assert Closed(P, ds);
    assert R <= P;
    forall v | v in R ensures v <= url {
      var k :| 0 <= k <= |url| && v == url[..k];
    }
  }

  /** A string has exactly one variation set. */
  lemma VariationSetUnique(R1: set<string>, R2: set<string>, url: string, ds: seq<string>)
    requires IsVariationSet(R1, url, ds) && IsVariationSet(R2, url, ds)
    ensures R1 == R2
  {
  }

  /** When no delimiter occurs in `url`, its only variation is `url` itself
      (main.go:283-288 and main.go:306-308). */
  lemma NoDelimiterSingleton(url: string, ds: seq<string>)
    requires forall d :: d in ds && d != "" ==> !Contains(url, d)
    ensures IsVariationSet({url}, url, ds)
  {
    forall d | d in ds ensures Children(url, d) == {} {
      if d != "" {
        SplitSingle(url, d);
      }
    }
  }

  /** A sequence without repetitions whose only element is `x` is `[x]`. */
  lemma SingletonSeq(r: seq<string>, x: string)
    requires Distinct(r) && Elems(r) == {x}
    ensures r == [x]
  {
    DistinctCard(r);
    assert r[0] in Elems(r);
  }

  /** Every truncation of a variation is itself a variation (main.go:296-323). */
  lemma VariationsClosed(R: set<string>, url: string, ds: seq<string>, v: string, d: string, i: int)
    requires IsVariationSet(R, url, ds) && v in R && d in ds && d != "" && 1 <= i < |Split(v, d)|
    ensures Join(Split(v, d)[..i], d) + d in R
  {
    TruncationIsChild(v, d, i);
  }

  /** Generating the variations of a variation yields nothing new: they all lie in the
      original variation set. */
  lemma VariationsIdempotent(R: set<string>, url: string, ds: seq<string>, v: string, R2: set<string>)
    requires IsVariationSet(R, url, ds) && v in R && IsVariationSet(R2, v, ds)
    ensures R2 <= R
  {
  }
}
