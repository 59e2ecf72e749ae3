/** The keyword matcher of find.go: URLs are filtered by comma-separated keywords,
    either keeping those with any keyword (`Find`) or with every keyword (`FindX`),
    and the matches are named after the mode and the keywords. */
module Find {
  import opened GoStrings
  import opened Collections

  /** `TrimSpace` applied to every string, in order. */
  function TrimEach(xs: seq<string>): (r: seq<string>)
    ensures |r| == |xs|
    ensures forall i :: 0 <= i < |r| ==> r[i] == TrimSpace(xs[i])
  {
    if xs == [] then [] else [TrimSpace(xs[0])] + TrimEach(xs[1..])
  }

  /** `parseKeywords` (find.go:56-65): the comma-separated pieces of `keywords`, each
      stripped of surrounding white space, the empty ones left out, in order. */
  function ParseKeywords(keywords: string): (ks: seq<string>)
    ensures forall k :: k in ks ==> k != "" && ',' !in k && TrimSpace(k) == k
    ensures forall k :: k in ks <==> k != "" && exists p :: p in Split(keywords, ",") && k == TrimSpace(p)
  {
    SplitPiecesFreeOf(keywords, ',');
    var pieces := Split(keywords, ",");
    var trimmed := TrimEach(pieces);
    forall k | k in trimmed ensures ',' !in k && TrimSpace(k) == k {
      var i :| 0 <= i < |trimmed| && trimmed[i] == k;
      TrimSpaceKeeps(pieces[i], ',');
      TrimSpaceIdempotent(pieces[i]);
    }
    forall p | p in pieces ensures TrimSpace(p) in trimmed {
      var i :| 0 <= i < |pieces| && pieces[i] == p;
      assert trimmed[i] == TrimSpace(p);
    }
    DropEmpty(trimmed)
  }

  /** When no piece is blank, the keywords are the trimmed pieces, one for one and in order. */
  lemma ParseKeywordsInOrder(keywords: string)
    requires forall p :: p in Split(keywords, ",") ==> TrimSpace(p) != ""
    ensures |ParseKeywords(keywords)| == |Split(keywords, ",")|
    ensures forall i :: 0 <= i < |ParseKeywords(keywords)| ==>
              ParseKeywords(keywords)[i] == TrimSpace(Split(keywords, ",")[i])
  {
    var pieces := Split(keywords, ",");
    var trimmed := TrimEach(pieces);
    forall x | x in trimmed ensures x != "" {
      var i :| 0 <= i < |trimmed| && trimmed[i] == x;
      assert pieces[i] in pieces;
    }
    DropEmptyNone(trimmed);
  }

  /** Some keyword of `ks` occurs in `url` (the inner loop of find.go:21-26). */
  function ContainsAny(url: string, ks: seq<string>): (b: bool)
    ensures b <==> exists k :: k in ks && Contains(url, k)
  {
    if ks == [] then false
    else
      assert ks[0] in ks && forall k :: k in ks[1..] ==> k in ks;
      assert forall k :: k in ks ==> k == ks[0] || k in ks[1..];
      Contains(url, ks[0]) || ContainsAny(url, ks[1..])
  }

  /** Every keyword of `ks` occurs in `url` (the inner loop of find.go:41-47); vacuously
      true for no keywords. */
  function ContainsAll(url: string, ks: seq<string>): (b: bool)
    ensures b <==> forall k :: k in ks ==> Contains(url, k)
  {
    if ks == [] then true
    else
      assert ks[0] in ks && forall k :: k in ks[1..] ==> k in ks;
      assert forall k :: k in ks ==> k == ks[0] || k in ks[1..];
      Contains(url, ks[0]) && ContainsAll(url, ks[1..])
  }

  /** `processFind` (find.go:13-29): the URLs holding at least one of the keywords;
      none at all when the keyword string is empty. */
  function ProcessFind(urls: seq<string>, keywords: string): (r: set<string>)
    ensures forall u :: u in r <==>
              keywords != "" && u in urls &&
              exists k :: k in ParseKeywords(keywords) && Contains(u, k)
  {
    if keywords == "" then {}
    else
      var ks := ParseKeywords(keywords);
      set u | u in urls && ContainsAny(u, ks)
  }

  /** `processFindX` (find.go:33-53): the URLs holding every one of the keywords;
      none at all when the keyword string is empty. */
  function ProcessFindX(urls: seq<string>, keywords: string): (r: set<string>)
    ensures forall u :: u in r <==>
              keywords != "" && u in urls &&
              forall k :: k in ParseKeywords(keywords) ==> Contains(u, k)
  {
    if keywords == "" then {}
    else
      var ks := ParseKeywords(keywords);
      set u | u in urls && ContainsAll(u, ks)
  }

  /** Both matchers only return input URLs, and when at least one keyword is parsed,
      every URL holding all keywords holds one of them. */
  lemma FindXWithinFind(urls: seq<string>, keywords: string)
    ensures ProcessFind(urls, keywords) <= Elems(urls)
    ensures ProcessFindX(urls, keywords) <= Elems(urls)
    ensures ParseKeywords(keywords) != [] ==> ProcessFindX(urls, keywords) <= ProcessFind(urls, keywords)
  {
    var ks := ParseKeywords(keywords);
    if ks != [] {
      forall u | u in ProcessFindX(urls, keywords) ensures u in ProcessFind(urls, keywords) {
        assert ks[0] in ks;
      }
    }
  }

  /** A non-empty keyword string without any keyword in it (such as `" , "`) matches nothing
      under `Find` and everything under `FindX`. */
  lemma NoKeywordsParsed(urls: seq<string>, keywords: string)
    requires keywords != "" && ParseKeywords(keywords) == []
    ensures ProcessFind(urls, keywords) == {}
    ensures ProcessFindX(urls, keywords) == Elems(urls)
  {
  }

  /** The characters the file name may not contain. */
  predicate Unsafe(c: char) {
    c == '/' || c == '\\' || c == ':'
  }

  /** The sanitization of find.go:73-75: `/`, `\` and `:` each become `_`. */
  function Sanitize(s: string): (r: string)
    ensures |r| == |s|
    ensures forall i :: 0 <= i < |s| ==> r[i] == if Unsafe(s[i]) then '_' else s[i]
  {
    var a := ReplaceAll(s, "/", "_");
    var b := ReplaceAll(a, "\\", "_");
    var c := ReplaceAll(b, ":", "_");
    ReplaceChar(s, '/', '_');
    ReplaceChar(a, '\\', '_');
    ReplaceChar(b, ':', '_');
    c
  }

  /** A sanitized string holds no unsafe character, and sanitizing it again changes nothing. */
  lemma SanitizeSafe(s: string)
    ensures forall i :: 0 <= i < |Sanitize(s)| ==> !Unsafe(Sanitize(s)[i])
    ensures Sanitize(Sanitize(s)) == Sanitize(s)
  {
  }

  /** `generateOutputFileName` (find.go:69-79): the mode, a dash, the keywords joined by dashes
      with unsafe characters replaced, and `.txt`. */
  function GenerateOutputFileName(mode: string, keywords: string): (name: string)
    ensures var joined := Join(ParseKeywords(keywords), "-");
            && |name| == |mode| + 1 + |joined| + 4
            && name[..|mode| + 1] == mode + "-"
            && name[|name| - 4..] == ".txt"
            && forall i :: 0 <= i < |joined| ==>
                 name[|mode| + 1 + i] == if Unsafe(joined[i]) then '_' else joined[i]
  {
    mode + "-" + Sanitize(Join(ParseKeywords(keywords), "-")) + ".txt"
  }

  /** The keyword part of an output file name holds no `/`, `\` or `:`. */
  lemma OutputFileNameSafe(mode: string, keywords: string)
    ensures var name := GenerateOutputFileName(mode, keywords);
            forall i :: |mode| + 1 <= i < |name| - 4 ==> !Unsafe(name[i])
  {
    var name := GenerateOutputFileName(mode, keywords);
    var joined := Join(ParseKeywords(keywords), "-");
    forall i | |mode| + 1 <= i < |name| - 4 ensures !Unsafe(name[i]) {
      assert name[i] == if Unsafe(joined[i - |mode| - 1]) then '_' else joined[i - |mode| - 1];
    }
  }
}
