/** The parts of Go's `strings` package that the URL shortener relies on:
    `Index`, `Contains`, `Split`, `Join`, `TrimSpace` and `ReplaceAll`.
    Strings are sequences of code points; Go's byte/rune distinction is not modelled. */
module GoStrings {

  /** `d` occurs in `s` starting at position `i`. */
  predicate OccursAt(s: string, d: string, i: int) {
    0 <= i && i + |d| <= |s| && s[i..i + |d|] == d
  }

  /** `s` ends with `d` (Go's `strings.HasSuffix`). */
  predicate EndsWith(s: string, d: string) {
    |d| <= |s| && s[|s| - |d|..] == d
  }

  /** The first occurrence of `d` in `s` at or after position `i`, or -1. */
  function IndexFrom(s: string, d: string, i: nat): (r: int)
    ensures r == -1 || (i <= r && OccursAt(s, d, r))
    decreases |s| - i
  {
    if i + |d| > |s| then -1
    else if s[i..i + |d|] == d then i
    else IndexFrom(s, d, i + 1)
  }

  /** `IndexFrom` skips no occurrence: none lies between `i` and its answer. */
  lemma {:induction false} IndexFromFirst(s: string, d: string, i: nat)
    ensures IndexFrom(s, d, i) == -1 ==> forall j :: i <= j ==> !OccursAt(s, d, j)
    ensures IndexFrom(s, d, i) >= 0 ==> forall j :: i <= j < IndexFrom(s, d, i) ==> !OccursAt(s, d, j)
    decreases |s| - i
  {
    if i + |d| <= |s| && s[i..i + |d|] != d {
      IndexFromFirst(s, d, i + 1);
    }
  }

  /** `strings.Index`: the position of the first occurrence of `d` in `s`, or -1. */
  function Index(s: string, d: string): (r: int)
    ensures r == -1 || OccursAt(s, d, r)
  {
    IndexFrom(s, d, 0)
  }

  /** `Index` finds the first occurrence, and -1 means there is none. */
  lemma IndexFirst(s: string, d: string)
    ensures Index(s, d) == -1 <==> forall j :: !OccursAt(s, d, j)
    ensures Index(s, d) >= 0 ==> forall j :: 0 <= j < Index(s, d) ==> !OccursAt(s, d, j)
  {
    IndexFromFirst(s, d, 0);
  }

  /** `strings.Contains`: some occurrence of `sub` lies inside `s`. */
  function Contains(s: string, sub: string): (b: bool)
    ensures b <==> exists j :: OccursAt(s, sub, j)
  {
    IndexFirst(s, sub);
    Index(s, sub) >= 0
  }

  /** A single-character separator occurs exactly when the character does. */
  lemma IndexChar(s: string, c: char)
    ensures Index(s, [c]) == -1 <==> c !in s
  {
    IndexFirst(s, [c]);
    if c in s {
      var j :| 0 <= j < |s| && s[j] == c;
      assert s[j..j + 1] == [c];
      assert OccursAt(s, [c], j);
    } else {
      forall j | 0 <= j && j + 1 <= |s| ensures !OccursAt(s, [c], j) {
        assert s[j..j + 1][0] == s[j];
      }
    }
  }

  /** No occurrence of `d` starts before `k` in `s`, so the prefix `s[..k]` holds none. */
  lemma NoOccurrenceInPrefix(s: string, d: string, k: int)
    requires d != "" && 0 <= k <= |s|
    requires forall j :: 0 <= j < k ==> !OccursAt(s, d, j)
    ensures Index(s[..k], d) == -1
  {
    IndexFirst(s[..k], d);
    forall j | 0 <= j && j + |d| <= k ensures !OccursAt(s[..k], d, j) {
      assert s[..k][j..j + |d|] == s[j..j + |d|];
      assert !OccursAt(s, d, j);
    }
  }

  /** `strings.Split` for a non-empty separator: the text between successive
      non-overlapping occurrences of `sep`, scanned left to right. */
  function Split(s: string, sep: string): (parts: seq<string>)
    requires sep != ""
    ensures |parts| >= 1
    decreases |s|
  {
    var k := Index(s, sep);
    if k < 0 then [s]
    else [s[..k]] + Split(s[k + |sep|..], sep)
  }

  /** The split has one part exactly when the separator does not occur. */
  lemma SplitSingle(s: string, sep: string)
    requires sep != ""
    ensures |Split(s, sep)| == 1 <==> Index(s, sep) == -1
    ensures |Split(s, sep)| == 1 ==> Split(s, sep) == [s]
  {
  }

  /** No part of a split contains the separator. */
  lemma {:induction false} SplitPartsFree(s: string, sep: string)
    requires sep != ""
    ensures forall i :: 0 <= i < |Split(s, sep)| ==> Index(Split(s, sep)[i], sep) == -1
    decreases |s|
  {
    var k := Index(s, sep);
    if k >= 0 {
      IndexFirst(s, sep);
      NoOccurrenceInPrefix(s, sep, k);
      SplitPartsFree(s[k + |sep|..], sep);
    }
  }

  /** No part of a split at a single character holds that character. */
  lemma SplitPiecesFreeOf(s: string, c: char)
    ensures forall p :: p in Split(s, [c]) ==> c !in p
  {
    SplitPartsFree(s, [c]);
    forall p | p in Split(s, [c]) ensures c !in p {
      IndexChar(p, c);
    }
  }

  /** `strings.Join`: the parts with `sep` between consecutive ones. */
  function Join(parts: seq<string>, sep: string): string
  {
    if |parts| == 0 then ""
    else if |parts| == 1 then parts[0]
    else parts[0] + sep + Join(parts[1..], sep)
  }

  /** A split at the first occurrence `k` of `d`: the text before it, then the split of the rest. */
  lemma SplitUnfold(s: string, d: string)
    requires d != "" && Index(s, d) >= 0
    ensures Split(s, d) == [s[..Index(s, d)]] + Split(s[Index(s, d) + |d|..], d)
    ensures s == s[..Index(s, d)] + d + s[Index(s, d) + |d|..]
  {
    var k := Index(s, d);
    assert s[k..k + |d|] == d;
    assert s == s[..k] + s[k..k + |d|] + s[k + |d|..];
  }

  /** Joining a part in front of at least one more. */
  lemma JoinCons(x: string, xs: seq<string>, d: string)
    requires |xs| >= 1
    ensures Join([x] + xs, d) == x + d + Join(xs, d)
  {
    assert ([x] + xs)[1..] == xs;
  }

  /** Joining the first `i` parts, the separator, and the remaining parts gives the join of all. */
  lemma {:induction false} JoinAt(parts: seq<string>, i: int, sep: string)
    requires 1 <= i < |parts|
    ensures Join(parts[..i], sep) + sep + Join(parts[i..], sep) == Join(parts, sep)
    decreases i
  {
    var tail := parts[1..];
    if i == 1 {
      assert parts[..1] == [parts[0]];
    } else {
      JoinAt(tail, i - 1, sep);
      assert parts[..i] == [parts[0]] + tail[..i - 1];
      assert tail[i - 1..] == parts[i..];
      JoinCons(parts[0], tail[..i - 1], sep);
    }
  }

  /** Joining a split string with the same separator gives the string back. */
  lemma {:induction false} JoinSplit(s: string, sep: string)
    requires sep != ""
    ensures Join(Split(s, sep), sep) == s
    decreases |s|
  {
    var k := Index(s, sep);
    if k >= 0 {
      var rest := s[k + |sep|..];
      SplitUnfold(s, sep);
      JoinSplit(rest, sep);
      JoinCons(s[..k], Split(rest, sep), sep);
    }
  }

  /** `strings.ReplaceAll` for a non-empty `target`: every non-overlapping
      occurrence, scanned left to right, is replaced by `replacement`. */
  function ReplaceAll(s: string, target: string, replacement: string): string
    requires target != ""
  {
    Join(Split(s, target), replacement)
  }

  /** Replacing one character by another acts position by position. */
  lemma {:induction false} ReplaceChar(s: string, c: char, e: char)
    ensures |ReplaceAll(s, [c], [e])| == |s|
    ensures forall i :: 0 <= i < |s| ==>
              ReplaceAll(s, [c], [e])[i] == (if s[i] == c then e else s[i])
    decreases |s|
  {
    var k := Index(s, [c]);
    if k < 0 {
      IndexChar(s, c);
    } else {
      var rest := s[k + 1..];
      ReplaceChar(rest, c, e);
      var parts := Split(s, [c]);
      assert parts[0] == s[..k] && parts[1..] == Split(rest, [c]);
      IndexFirst(s, [c]);
      NoOccurrenceInPrefix(s, [c], k);
      IndexChar(s[..k], c);
      var r := ReplaceAll(s, [c], [e]);
      assert r == s[..k] + [e] + ReplaceAll(rest, [c], [e]);
      assert s[k..k + 1] == [c];
      forall i | 0 <= i < |s|
        ensures r[i] == (if s[i] == c then e else s[i])
      {
        if i < k {
          assert s[i] == s[..k][i] && s[..k][i] in s[..k];
        } else if i == k {
          assert s[i] == s[k..k + 1][0];
        } else {
          assert s[i] == rest[i - k - 1];
        }
      }
    }
  }

  /** Go's `unicode.IsSpace`, which `strings.TrimSpace` strips. */
  predicate IsSpace(c: char) {
    || c == '\t' || c == '\n' || c == '\U{000B}' || c == '\U{000C}' || c == '\r' || c == ' '
    || c == '\U{0085}' || c == '\U{00A0}' || c == '\U{1680}'
    || ('\U{2000}' <= c <= '\U{200A}')
    || c == '\U{2028}' || c == '\U{2029}' || c == '\U{202F}' || c == '\U{205F}' || c == '\U{3000}'
  }

  /** The number of leading white-space characters of `s`. */
  function LeadingSpace(s: string): (n: nat)
    ensures n <= |s|
    ensures forall i :: 0 <= i < n ==> IsSpace(s[i])
    ensures n < |s| ==> !IsSpace(s[n])
  {
    if |s| > 0 && IsSpace(s[0]) then 1 + LeadingSpace(s[1..]) else 0
  }

  /** The number of trailing white-space characters of `s`. */
  function TrailingSpace(s: string): (n: nat)
    ensures n <= |s|
    ensures forall i :: |s| - n <= i < |s| ==> IsSpace(s[i])
    ensures n < |s| ==> !IsSpace(s[|s| - n - 1])
  {
    if |s| > 0 && IsSpace(s[|s| - 1]) then 1 + TrailingSpace(s[..|s| - 1]) else 0
  }

  /** `strings.TrimSpace`: `s` without its leading and trailing white space. */
  function TrimSpace(s: string): (r: string)
    ensures LeadingSpace(s) + |r| <= |s| && r == s[LeadingSpace(s)..LeadingSpace(s) + |r|]
    ensures forall i :: LeadingSpace(s) + |r| <= i < |s| ==> IsSpace(s[i])
    ensures r == [] || (!IsSpace(r[0]) && !IsSpace(r[|r| - 1]))
  {
    var t := s[LeadingSpace(s)..];
    var r := t[..|t| - TrailingSpace(t)];
    assert r == s[LeadingSpace(s)..LeadingSpace(s) + |r|];
    r
  }

  /** A trimmed string is left alone by `TrimSpace`. */
  lemma TrimSpaceTrimmed(s: string)
    requires s == [] || (!IsSpace(s[0]) && !IsSpace(s[|s| - 1]))
    ensures TrimSpace(s) == s
  {
    assert LeadingSpace(s) == 0 && TrailingSpace(s) == 0;
    assert s[0..][..|s|] == s;
  }

  /** `TrimSpace` is idempotent. */
  lemma TrimSpaceIdempotent(s: string)
    ensures TrimSpace(TrimSpace(s)) == TrimSpace(s)
  {
    TrimSpaceTrimmed(TrimSpace(s));
  }

  /** Trimming only removes characters. */
  lemma TrimSpaceKeeps(s: string, c: char)
    requires c !in s
    ensures c !in TrimSpace(s)
  {
    var r := TrimSpace(s);
    var a := LeadingSpace(s);
    forall i | 0 <= i < |r| ensures r[i] != c {
      assert r[i] == s[a + i];
    }
  }
}
