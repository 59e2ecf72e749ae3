/** The append expander of main.go: each base URL is extended with the suffixes the
    user asked for, a list of suffixes taking precedence over a single one. */
module Appends {

  /** The suffixes attached to every base URL: the list when there is one, otherwise the
      single suffix, which is the empty string when no append was requested. */
  function Suffixes(appendString: string, appendStrings: seq<string>): (sfx: seq<string>)
    ensures |sfx| >= 1
  {
    if |appendStrings| > 0 then appendStrings else [appendString]
  }

  /** `applyAppends` (main.go:348-375), following its three branches in order. */
  function ApplyAppends(base: string, appendString: string, appendStrings: seq<string>): (r: seq<string>)
    ensures |r| == |Suffixes(appendString, appendStrings)|
    ensures forall i :: 0 <= i < |r| ==> base <= r[i]
    ensures forall i :: 0 <= i < |r| ==> r[i][|base|..] == Suffixes(appendString, appendStrings)[i]
  {
    if appendString == "" && |appendStrings| == 0 then
      [base]
    else if |appendStrings| > 0 then
      PrefixEach(base, appendStrings)
    else if appendString != "" then
      [base + appendString]
    else
      [base]
  }

  /** `base + s` for every `s` of `xs`, in order (the loop at main.go:358-360). */
  function PrefixEach(base: string, xs: seq<string>): (r: seq<string>)
    ensures |r| == |xs|
    ensures forall i :: 0 <= i < |r| ==> base <= r[i] && r[i][|base|..] == xs[i]
  {
    if xs == [] then [] else [base + xs[0]] + PrefixEach(base, xs[1..])
  }

  /** The outputs are exactly the base followed by each suffix, in the order of the suffixes. */
  lemma ApplyAppendsIsConcat(base: string, appendString: string, appendStrings: seq<string>)
    ensures var r := ApplyAppends(base, appendString, appendStrings);
            forall i :: 0 <= i < |r| ==> r[i] == base + Suffixes(appendString, appendStrings)[i]
  {
    var r := ApplyAppends(base, appendString, appendStrings);
    var sfx := Suffixes(appendString, appendStrings);
    forall i | 0 <= i < |r| ensures r[i] == base + sfx[i] {
      assert r[i] == r[i][..|base|] + r[i][|base|..];
    }
  }

  /** The outputs are exactly the base followed by one of the suffixes. */
  lemma ApplyAppendsMembers(base: string, appendString: string, appendStrings: seq<string>)
    ensures forall x :: x in ApplyAppends(base, appendString, appendStrings) <==>
              exists m :: 0 <= m < |Suffixes(appendString, appendStrings)| &&
                          x == base + Suffixes(appendString, appendStrings)[m]
  {
    var r := ApplyAppends(base, appendString, appendStrings);
    var sfx := Suffixes(appendString, appendStrings);
    ApplyAppendsIsConcat(base, appendString, appendStrings);
    forall m | 0 <= m < |sfx| ensures base + sfx[m] in r {
      assert r[m] == base + sfx[m];
    }
  }

  /** The precedence rule of main.go:350-372: a non-empty list wins and the single suffix
      is ignored; otherwise a non-empty single suffix gives one output; otherwise the base
      comes back alone. */
  lemma ApplyAppendsPrecedence(base: string, appendString: string, appendStrings: seq<string>)
    ensures |appendStrings| > 0 ==>
              ApplyAppends(base, appendString, appendStrings) == ApplyAppends(base, "", appendStrings)
    ensures |appendStrings| == 0 && appendString != "" ==>
              ApplyAppends(base, appendString, appendStrings) == [base + appendString]
    ensures |appendStrings| == 0 && appendString == "" ==>
              ApplyAppends(base, appendString, appendStrings) == [base]
  {
    var r1 := ApplyAppends(base, appendString, appendStrings);
    var r2 := ApplyAppends(base, "", appendStrings);
    ApplyAppendsIsConcat(base, appendString, appendStrings);
    ApplyAppendsIsConcat(base, "", appendStrings);
    if |appendStrings| > 0 {
      assert |r1| == |r2|;
      assert forall i :: 0 <= i < |r1| ==> r1[i] == r2[i];
    }
  }
}
