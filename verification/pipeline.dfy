/** `processURLs` of main.go: clean the delimiter list, expand every URL into its
    variations, extend every variation with the suffixes, and optionally drop repeats. */
module Pipeline {
  import opened GoStrings
  import opened Collections
  import opened Variations
  import opened Appends

  /** The delimiter list of main.go:221-242: the comma-separated pieces of `spec` that are not
      empty, in order (pieces are not trimmed), followed by `"/"` when `splitPath` asks for it
      and it is not already there. */
  function ParseDelimiters(spec: string, splitPath: bool): seq<string> {
    var kept := DropEmpty(Split(spec, ","));
    if splitPath && "/" !in kept then kept + ["/"] else kept
  }

  /** The delimiters are exactly the non-empty comma-separated pieces, kept in order, plus `"/"`
      when path splitting is asked for, which is added only when missing; none is empty and no
      piece holds a comma. */
  lemma ParseDelimitersSpec(spec: string, splitPath: bool)
    ensures var ds := ParseDelimiters(spec, splitPath);
            && (forall d :: d in ds ==> d != "" && (d == "/" || ',' !in d))
            && (forall d :: d in ds <==> (d in Split(spec, ",") && d != "") || (splitPath && d == "/"))
            && DropEmpty(Split(spec, ",")) <= ds
            && |ds| == |DropEmpty(Split(spec, ","))| + (if splitPath && "/" !in DropEmpty(Split(spec, ",")) then 1 else 0)
  {
    SplitPiecesFreeOf(spec, ',');
  }

  /** When `spec` has no empty piece and no path delimiter is added, the delimiter list
      joined with commas gives `spec` back. */
  lemma ParseDelimitersRoundTrip(spec: string)
    requires forall p :: p in Split(spec, ",") ==> p != ""
    ensures Join(ParseDelimiters(spec, false), ",") == spec
  {
    DropEmptyNone(Split(spec, ","));
    JoinSplit(spec, ",");
  }

  /** The outputs for the variations `vs` of one URL: for each variation in turn,
      its appended forms (main.go:255-259). */
  function Product(vs: seq<string>, appendString: string, appendStrings: seq<string>): seq<string>
  {
    if vs == [] then []
    else Product(vs[..|vs| - 1], appendString, appendStrings) + ApplyAppends(vs[|vs| - 1], appendString, appendStrings)
  }

  /** Each variation contributes one output per suffix. */
  lemma {:induction false} ProductLength(vs: seq<string>, appendString: string, appendStrings: seq<string>)
    ensures |Product(vs, appendString, appendStrings)| == |vs| * |Suffixes(appendString, appendStrings)|
  {
    if vs != [] {
      var n := |Suffixes(appendString, appendStrings)|;
      ProductLength(vs[..|vs| - 1], appendString, appendStrings);
      assert (|vs| - 1) * n + n == |vs| * n;
    }
  }

  /** The product of two lists of variations, one after the other. */
  lemma {:induction false} ProductAppend(xs: seq<string>, ys: seq<string>, appendString: string, appendStrings: seq<string>)
    ensures Product(xs + ys, appendString, appendStrings)
         == Product(xs, appendString, appendStrings) + Product(ys, appendString, appendStrings)
    decreases |ys|
  {
    if ys == [] {
      assert xs + ys == xs;
    } else {
      var ys' := ys[..|ys| - 1];
      ProductAppendLast(xs, ys, appendString, appendStrings);
      ProductAppend(xs, ys', appendString, appendStrings);
      ProductLast(ys, appendString, appendStrings);
      ConcatAssoc(Product(xs, appendString, appendStrings), Product(ys', appendString, appendStrings),
                  ApplyAppends(ys[|ys| - 1], appendString, appendStrings));
    }
  }

  /** The outputs of `xs + ys` for a non-empty `ys` end with those of the last element of `ys`. */
  lemma ProductAppendLast(xs: seq<string>, ys: seq<string>, appendString: string, appendStrings: seq<string>)
    requires ys != []
    ensures Product(xs + ys, appendString, appendStrings)
         == Product(xs + ys[..|ys| - 1], appendString, appendStrings) + ApplyAppends(ys[|ys| - 1], appendString, appendStrings)
  {
    ProductLast(xs + ys, appendString, appendStrings);
    assert (xs + ys)[..|xs + ys| - 1] == xs + ys[..|ys| - 1];
  }

  /** The outputs of a non-empty list of variations end with those of its last variation. */
  lemma ProductLast(vs: seq<string>, appendString: string, appendStrings: seq<string>)
    requires vs != []
    ensures Product(vs, appendString, appendStrings)
         == Product(vs[..|vs| - 1], appendString, appendStrings) + ApplyAppends(vs[|vs| - 1], appendString, appendStrings)
  {
  }

  /** The outputs are ordered by variation: those of variation `j` come after those of every
      earlier variation and before those of every later one. */
  lemma ProductAt(vs: seq<string>, j: int, appendString: string, appendStrings: seq<string>)
    requires 0 <= j < |vs|
    ensures Product(vs, appendString, appendStrings)
         == Product(vs[..j], appendString, appendStrings)
            + ApplyAppends(vs[j], appendString, appendStrings)
            + Product(vs[j + 1..], appendString, appendStrings)
  {
    assert vs == vs[..j] + [vs[j]] + vs[j + 1..];
    ProductAppend(vs[..j] + [vs[j]], vs[j + 1..], appendString, appendStrings);
    ProductAppend(vs[..j], [vs[j]], appendString, appendStrings);
    assert [vs[j]][..0] == [];
  }

  /** Every output of the product is an appended form of some variation, and every
      appended form of every variation is an output. */
  lemma {:induction false} ProductMembers(vs: seq<string>, appendString: string, appendStrings: seq<string>)
    ensures forall x :: x in Product(vs, appendString, appendStrings) <==>
              exists j :: 0 <= j < |vs| && x in ApplyAppends(vs[j], appendString, appendStrings)
  {
    if vs != [] {
      var init := vs[..|vs| - 1];
      ProductMembers(init, appendString, appendStrings);
      forall j | 0 <= j < |init| ensures init[j] == vs[j] { }
    }
  }

  /** All outputs before de-duplication: the products of the URLs' variation lists, one
      URL after the other (main.go:252-272). */
  function ExpandAll(perUrl: seq<seq<string>>, appendString: string, appendStrings: seq<string>): seq<string>
  {
    if perUrl == [] then []
    else
      var last := perUrl[|perUrl| - 1];
      ExpandAll(perUrl[..|perUrl| - 1], appendString, appendStrings) + Product(last, appendString, appendStrings)
  }

  /** An output is an appended form of some variation of some URL, and every such appended
      form is an output. */
  lemma {:induction false} ExpandAllMembers(perUrl: seq<seq<string>>, appendString: string, appendStrings: seq<string>)
    ensures forall x :: x in ExpandAll(perUrl, appendString, appendStrings) <==>
              exists k, j :: 0 <= k < |perUrl| && 0 <= j < |perUrl[k]| &&
                             x in ApplyAppends(perUrl[k][j], appendString, appendStrings)
  {
    if perUrl != [] {
      var init := perUrl[..|perUrl| - 1];
      ExpandAllMembers(init, appendString, appendStrings);
      ProductMembers(perUrl[|perUrl| - 1], appendString, appendStrings);
      forall k | 0 <= k < |init| ensures init[k] == perUrl[k] { }
    }
  }

  /** Removing repeats from a stream with one more element: the element is kept exactly
      when it was not seen before. */
  lemma DedupSnoc<T>(xs: seq<T>, x: T)
    ensures Dedup(xs + [x]) == if x in xs then Dedup(xs) else Dedup(xs) + [x]
  {
    assert (xs + [x])[..|xs|] == xs;
  }

  /** `result` is what has been emitted for the stream `acc` of generated strings: all of it,
      or with `noDuplicates` its first occurrences, `seen` holding every string met so far. */
  ghost predicate Emitted(noDuplicates: bool, acc: seq<string>, result: seq<string>, seen: set<string>) {
    && result == (if noDuplicates then Dedup(acc) else acc)
    && (noDuplicates ==> seen == Elems(acc))
  }

  /** The body of the emitting loop of main.go:262-271 for one generated string `f`:
      with `noDuplicates`, it is emitted only the first time it is seen. */
  method EmitOne(noDuplicates: bool, f: string, ghost acc: seq<string>,
                 result: seq<string>, seen: set<string>)
    returns (result': seq<string>, seen': set<string>)
    requires Emitted(noDuplicates, acc, result, seen)
    ensures Emitted(noDuplicates, acc + [f], result', seen')
  {
    result', seen' := result, seen;
    if noDuplicates {
      DedupSnoc(acc, f);
      ElemsAppend(acc, f);
      if f !in seen {
        seen' := seen + {f};
        result' := result + [f];
      }
    } else {
      result' := result + [f];
    }
  }

  /** The emitting loop of main.go:262-271 over the appended forms `fs` of one variation. */
  method Emit(noDuplicates: bool, fs: seq<string>, ghost all: seq<string>,
              result: seq<string>, seen: set<string>)
    returns (result': seq<string>, seen': set<string>)
    requires Emitted(noDuplicates, all, result, seen)
    ensures Emitted(noDuplicates, all + fs, result', seen')
  {
    result', seen' := result, seen;
    ghost var acc := all;
    assert all + fs[..0] == all;
    var m := 0;
    while m < |fs|
      invariant 0 <= m <= |fs|
      invariant acc == all + fs[..m]
      invariant Emitted(noDuplicates, acc, result', seen')
    {
      result', seen' := EmitOne(noDuplicates, fs[m], acc, result', seen');
      assert fs[..m + 1] == fs[..m] + [fs[m]];
      acc := acc + [fs[m]];
      m := m + 1;
    }
    assert fs[..|fs|] == fs;
  }

  /** The loop over the variations of one URL (main.go:255-272). */
  method EmitUrl(noDuplicates: bool, vs: seq<string>, appendString: string, appendStrings: seq<string>,
                 ghost all: seq<string>, result: seq<string>, seen: set<string>)
    returns (result': seq<string>, seen': set<string>)
    requires Emitted(noDuplicates, all, result, seen)
    ensures Emitted(noDuplicates, all + Product(vs, appendString, appendStrings), result', seen')
  {
    result', seen' := result, seen;
    ghost var acc := all;
    assert all + Product(vs[..0], appendString, appendStrings) == all;
    var j := 0;
    while j < |vs|
      invariant 0 <= j <= |vs|
      invariant acc == all + Product(vs[..j], appendString, appendStrings)
      invariant Emitted(noDuplicates, acc, result', seen')
    {
      var fs := ApplyAppends(vs[j], appendString, appendStrings);
      result', seen' := Emit(noDuplicates, fs, acc, result', seen');
      ProductStep(all, vs, j, appendString, appendStrings);
      acc := acc + fs;
      j := j + 1;
    }
    assert vs[..|vs|] == vs;
  }

  /** Taking one more variation extends the outputs by its appended forms. */
  lemma ProductStep(all: seq<string>, vs: seq<string>, j: int, appendString: string, appendStrings: seq<string>)
    requires 0 <= j < |vs|
    ensures all + Product(vs[..j + 1], appendString, appendStrings)
         == (all + Product(vs[..j], appendString, appendStrings)) + ApplyAppends(vs[j], appendString, appendStrings)
  {
    ProductLast(vs[..j + 1], appendString, appendStrings);
    assert vs[..j + 1][..j] == vs[..j];
    ConcatAssoc(all, Product(vs[..j], appendString, appendStrings), ApplyAppends(vs[j], appendString, appendStrings));
  }

  /** One more URL extends the outputs by the product of its variations. */
  lemma ExpandAllSnoc(perUrl: seq<seq<string>>, vs: seq<string>, appendString: string, appendStrings: seq<string>)
    ensures ExpandAll(perUrl + [vs], appendString, appendStrings)
         == ExpandAll(perUrl, appendString, appendStrings) + Product(vs, appendString, appendStrings)
  {
    assert (perUrl + [vs])[..|perUrl|] == perUrl;
  }

  /** What the emitted stream amounts to once every URL has been processed. */
  lemma EmittedResult(noDuplicates: bool, perUrl: seq<seq<string>>, appendString: string, appendStrings: seq<string>,
                      result: seq<string>, seen: set<string>)
    requires Emitted(noDuplicates, ExpandAll(perUrl, appendString, appendStrings), result, seen)
    ensures noDuplicates ==> Distinct(result) && Elems(result) == Elems(ExpandAll(perUrl, appendString, appendStrings))
    ensures forall x :: x in result <==>
              exists k, j :: 0 <= k < |perUrl| && 0 <= j < |perUrl[k]| &&
                             x in ApplyAppends(perUrl[k][j], appendString, appendStrings)
  {
    var all := ExpandAll(perUrl, appendString, appendStrings);
    DedupSpec(all);
    ExpandAllMembers(perUrl, appendString, appendStrings);
    assert forall x :: x in result <==> x in Elems(result);
    assert forall x :: x in all <==> x in Elems(all);
  }

  /** `perUrl[k]` lists the variation set of `urls[k]` without repetitions, for every `k`.
      Stated one URL at a time from the end, so that the solver unfolds it only on demand. */
  ghost predicate VariationLists(urls: seq<string>, perUrl: seq<seq<string>>, ds: seq<string>)
    decreases |urls|
  {
    && |urls| == |perUrl|
    && (urls != [] ==>
          && VariationLists(urls[..|urls| - 1], perUrl[..|perUrl| - 1], ds)
          && Distinct(perUrl[|perUrl| - 1])
          && IsVariationSet(Elems(perUrl[|perUrl| - 1]), urls[|urls| - 1], ds))
  }

  /** Adding the variation list of the next URL. */
  lemma VariationListsSnoc(urls: seq<string>, k: int, perUrl: seq<seq<string>>, vs: seq<string>, ds: seq<string>)
    requires 0 <= k < |urls| && VariationLists(urls[..k], perUrl, ds)
    requires Distinct(vs) && IsVariationSet(Elems(vs), urls[k], ds)
    ensures VariationLists(urls[..k + 1], perUrl + [vs], ds)
  {
    assert urls[..k + 1][..k] == urls[..k];
    assert (perUrl + [vs])[..|perUrl|] == perUrl;
  }

  /** `VariationLists` position by position. */
  lemma {:induction false} VariationListsAt(urls: seq<string>, perUrl: seq<seq<string>>, ds: seq<string>)
    requires VariationLists(urls, perUrl, ds)
    ensures |perUrl| == |urls|
    ensures forall k :: 0 <= k < |urls| ==> Distinct(perUrl[k]) && IsVariationSet(Elems(perUrl[k]), urls[k], ds)
    decreases |urls|
  {
    if urls != [] {
      var n := |urls| - 1;
      VariationListsAt(urls[..n], perUrl[..n], ds);
      forall k | 0 <= k < n ensures perUrl[k] == perUrl[..n][k] && urls[k] == urls[..n][k] { }
    }
  }

  /** One round of the URL loop of main.go:253-273: the variations of `url` are generated and
      their appended forms emitted. */
  method ProcessUrl(url: string, ds: seq<string>, noDuplicates: bool, appendString: string, appendStrings: seq<string>,
                    ghost perUrl: seq<seq<string>>, result: seq<string>, seen: set<string>)
    returns (result': seq<string>, seen': set<string>, ghost vs: seq<string>)
    requires Emitted(noDuplicates, ExpandAll(perUrl, appendString, appendStrings), result, seen)
    ensures Distinct(vs) && IsVariationSet(Elems(vs), url, ds)
    ensures Emitted(noDuplicates, ExpandAll(perUrl + [vs], appendString, appendStrings), result', seen')
  {
    var variations := GenerateVariations(url, ds);
    result', seen' := EmitUrl(noDuplicates, variations, appendString, appendStrings,
                              ExpandAll(perUrl, appendString, appendStrings), result, seen);
    ExpandAllSnoc(perUrl, variations, appendString, appendStrings);
    vs := variations;
  }

  /** The pure part of `processURLs` (main.go:219-276). `perUrl` records the variation list
      produced for each URL; the result is their appended forms in the order URL, variation,
      suffix, with later repeats dropped when `noDuplicates` is set. */
  method ProcessUrls(urls: seq<string>, delimiters: string, noDuplicates: bool, splitPath: bool,
                     appendString: string, appendStrings: seq<string>)
    returns (result: seq<string>, ghost perUrl: seq<seq<string>>)
    ensures |perUrl| == |urls|
    ensures forall k :: 0 <= k < |urls| ==>
              Distinct(perUrl[k]) && IsVariationSet(Elems(perUrl[k]), urls[k], ParseDelimiters(delimiters, splitPath))
    ensures !noDuplicates ==> result == ExpandAll(perUrl, appendString, appendStrings)
    ensures noDuplicates ==> result == Dedup(ExpandAll(perUrl, appendString, appendStrings))
    ensures noDuplicates ==> Distinct(result)
    ensures noDuplicates ==> Elems(result) == Elems(ExpandAll(perUrl, appendString, appendStrings))
    ensures forall x :: x in result <==>
              exists k, j :: 0 <= k < |urls| && 0 <= j < |perUrl[k]| &&
                             x in ApplyAppends(perUrl[k][j], appendString, appendStrings)
    ensures forall k, m :: 0 <= k < |urls| && 0 <= m < |Suffixes(appendString, appendStrings)| ==>
              urls[k] + Suffixes(appendString, appendStrings)[m] in result
    ensures forall x :: x in result ==>
              FromSomeUrl(x, urls, Suffixes(appendString, appendStrings), ParseDelimiters(delimiters, splitPath))
  {
    var seen;
    result, seen, perUrl := EmitAll(urls, ParseDelimiters(delimiters, splitPath), noDuplicates, appendString, appendStrings);
    VariationListsAt(urls, perUrl, ParseDelimiters(delimiters, splitPath));
    EmittedResult(noDuplicates, perUrl, appendString, appendStrings, result, seen);
    UrlsInResult(urls, ParseDelimiters(delimiters, splitPath), noDuplicates, perUrl, appendString, appendStrings, result, seen);
    OutputsFromUrls(urls, ParseDelimiters(delimiters, splitPath), noDuplicates, perUrl, appendString, appendStrings, result, seen);
  }

  /** The URL loop of main.go:250-273: every URL in turn is expanded and its appended forms
      emitted. */
  method EmitAll(urls: seq<string>, ds: seq<string>, noDuplicates: bool,
                 appendString: string, appendStrings: seq<string>)
    returns (result: seq<string>, seen: set<string>, ghost perUrl: seq<seq<string>>)
    ensures VariationLists(urls, perUrl, ds)
    ensures Emitted(noDuplicates, ExpandAll(perUrl, appendString, appendStrings), result, seen)
  {
    seen := {};
    result := [];
    perUrl := [];
    var k := 0;
    assert urls[..0] == [];
    while k < |urls|
      invariant 0 <= k <= |urls| && |perUrl| == k
      invariant VariationLists(urls[..k], perUrl, ds)
      invariant Emitted(noDuplicates, ExpandAll(perUrl, appendString, appendStrings), result, seen)
    {
      ghost var vs;
      result, seen, vs := ProcessUrl(urls[k], ds, noDuplicates, appendString, appendStrings, perUrl, result, seen);
      VariationListsSnoc(urls, k, perUrl, vs, ds);
      perUrl := perUrl + [vs];
      k := k + 1;
    }
    assert urls[..|urls|] == urls;
  }

  /** `x` is a variation-shaped prefix of `url` (the URL itself, or a prefix ending with a
      delimiter of `ds`) followed by the suffix `sfx`. */
  ghost predicate FromUrl(x: string, url: string, sfx: string, ds: seq<string>) {
    && |sfx| <= |x|
    && x[|x| - |sfx|..] == sfx
    && x[..|x| - |sfx|] <= url
    && (x[..|x| - |sfx|] == url || EndsWithDelimiter(x[..|x| - |sfx|], ds))
  }

  /** `x` is a variation-shaped prefix of one of `urls` followed by one of the suffixes `sfx`. */
  ghost predicate FromSomeUrl(x: string, urls: seq<string>, sfx: seq<string>, ds: seq<string>) {
    exists k, m :: 0 <= k < |urls| && 0 <= m < |sfx| && FromUrl(x, urls[k], sfx[m], ds)
  }

  /** Given the variation sets and the membership of the result, every URL followed by every
      suffix is an output. */
  lemma UrlsInResult(urls: seq<string>, ds: seq<string>, noDuplicates: bool, perUrl: seq<seq<string>>,
                     appendString: string, appendStrings: seq<string>, result: seq<string>, seen: set<string>)
    requires VariationLists(urls, perUrl, ds)
    requires Emitted(noDuplicates, ExpandAll(perUrl, appendString, appendStrings), result, seen)
    ensures forall k, m :: 0 <= k < |urls| && 0 <= m < |Suffixes(appendString, appendStrings)| ==>
              urls[k] + Suffixes(appendString, appendStrings)[m] in result
  {
    VariationListsAt(urls, perUrl, ds);
    EmittedResult(noDuplicates, perUrl, appendString, appendStrings, result, seen);
    var sfx := Suffixes(appendString, appendStrings);
    forall k, m | 0 <= k < |urls| && 0 <= m < |sfx| ensures urls[k] + sfx[m] in result {
      assert urls[k] in Elems(perUrl[k]);
      var j :| 0 <= j < |perUrl[k]| && perUrl[k][j] == urls[k];
      ApplyAppendsIsConcat(urls[k], appendString, appendStrings);
      assert urls[k] + sfx[m] == ApplyAppends(perUrl[k][j], appendString, appendStrings)[m];
    }
  }

  /** Given the variation sets and the membership of the result, every output is a prefix of
      some URL followed by a suffix. */
  lemma OutputsFromUrls(urls: seq<string>, ds: seq<string>, noDuplicates: bool, perUrl: seq<seq<string>>,
                        appendString: string, appendStrings: seq<string>, result: seq<string>, seen: set<string>)
    requires VariationLists(urls, perUrl, ds)
    requires Emitted(noDuplicates, ExpandAll(perUrl, appendString, appendStrings), result, seen)
    ensures forall x :: x in result ==> FromSomeUrl(x, urls, Suffixes(appendString, appendStrings), ds)
  {
    VariationListsAt(urls, perUrl, ds);
    EmittedResult(noDuplicates, perUrl, appendString, appendStrings, result, seen);
    var sfx := Suffixes(appendString, appendStrings);
    forall x | x in result ensures FromSomeUrl(x, urls, sfx, ds) {
      var k, j :| 0 <= k < |urls| && 0 <= j < |perUrl[k]| &&
                  x in ApplyAppends(perUrl[k][j], appendString, appendStrings);
      assert perUrl[k][j] in Elems(perUrl[k]);
      var m := OutputFromVariation(x, perUrl[k][j], Elems(perUrl[k]), urls[k], ds, appendString, appendStrings);
    }
  }

  /** An appended form of a variation is a prefix of the URL followed by the `m`-th suffix. */
  lemma OutputFromVariation(x: string, v: string, R: set<string>, url: string, ds: seq<string>,
                            appendString: string, appendStrings: seq<string>) returns (m: int)
    requires IsVariationSet(R, url, ds) && v in R && x in ApplyAppends(v, appendString, appendStrings)
    ensures 0 <= m < |Suffixes(appendString, appendStrings)|
    ensures FromUrl(x, url, Suffixes(appendString, appendStrings)[m], ds)
  {
    var sfx := Suffixes(appendString, appendStrings);
    ApplyAppendsMembers(v, appendString, appendStrings);
    m :| 0 <= m < |sfx| && x == v + sfx[m];
    VariationsArePrefixes(R, url, ds);
    assert x[..|x| - |sfx[m]|] == v && x[|x| - |sfx[m]|..] == sfx[m];
  }
}
