/** Worked examples: the variation generator on `"a=b=c"` with the delimiter `=`,
    and the keyword matcher on a keyword string with no keyword in it. */
module Scenarios {
  import opened GoStrings
  import opened Collections
  import opened Variations
  import opened Find

  /** A split of a string that starts with one other character and then the separator. */
  lemma SplitStep(c: char, d: char, rest: string)
    requires c != d
    ensures Index([c, d] + rest, [d]) == 1
    ensures Split([c, d] + rest, [d]) == [[c]] + Split(rest, [d])
  {
    var s := [c, d] + rest;
    assert s[0..1] == [c] && s[1..2] == [d];
    assert IndexFrom(s, [d], 1) == 1;
    assert s[..1] == [c] && s[2..] == rest;
  }

  /** A one-character string without the separator is not split. */
  lemma SplitLast(c: char, d: char)
    requires c != d
    ensures Split([c], [d]) == [[c]]
  {
    assert [c][0..1] == [c];
    assert IndexFrom([c], [d], 1) == -1;
  }

  /** The truncations of a string that starts with one other character and then the
      separator: the first is those two characters, the second puts them in front of the
      first truncation of the rest. */
  lemma TruncationStep(c: char, d: char, rest: string)
    requires c != d
    ensures |Split([c, d] + rest, [d])| >= 2
    ensures Truncation([c, d] + rest, [d], 1) == [c, d]
    ensures |Split(rest, [d])| >= 2 ==>
              Truncation([c, d] + rest, [d], 2) == [c, d] + Truncation(rest, [d], 1)
  {
    var s := [c, d] + rest;
    SplitStep(c, d, rest);
    FirstTruncation(s, [d]);
    assert s[..1] == [c] && s[2..] == rest;
    if |Split(rest, [d])| >= 2 {
      LaterTruncation(s, [d], 2);
    }
  }

  /** A string in two parts has its first truncation as only child. */
  lemma TwoPartChildren(s: string, d: string)
    requires d != "" && |Split(s, d)| == 2
    ensures Children(s, d) == {Truncation(s, d, 1)}
  {
    assert ChildrenBelow(s, d, 2) == ChildrenBelow(s, d, 1) + {Truncation(s, d, 1)};
  }

  /** A string in three parts has its first two truncations as children. */
  lemma ThreePartChildren(s: string, d: string)
    requires d != "" && |Split(s, d)| == 3
    ensures Children(s, d) == {Truncation(s, d, 1), Truncation(s, d, 2)}
  {
    assert ChildrenBelow(s, d, 3) == ChildrenBelow(s, d, 2) + {Truncation(s, d, 2)};
    assert ChildrenBelow(s, d, 2) == ChildrenBelow(s, d, 1) + {Truncation(s, d, 1)};
  }

  /** Splitting `"a=b=c"` at `=` gives three parts, whose truncations are `"a="` and `"a=b="`. */
  lemma SplitExample()
    ensures Split("a=b=c", "=") == ["a", "b", "c"]
    ensures Children("a=b=c", "=") == {"a=", "a=b="}
  {
    assert "a=b=c" == ['a', '='] + "b=c";
    assert "b=c" == ['b', '='] + "c";
    SplitStep('a', '=', "b=c");
    SplitStep('b', '=', "c");
    SplitLast('c', '=');
    TruncationStep('a', '=', "b=c");
    TruncationStep('b', '=', "c");
    assert Truncation("a=b=c", "=", 2) == ['a', '='] + ['b', '='] == "a=b=";
    ThreePartChildren("a=b=c", "=");
  }

  /** A string ending in its only delimiter truncates to itself. */
  lemma TrailingDelimiterExample()
    ensures Children("a=", "=") == {"a="}
  {
    assert "a=" == ['a', '='] + "";
    SplitStep('a', '=', "");
    TruncationStep('a', '=', "");
    assert Split("", "=") == [""];
    TwoPartChildren("a=", "=");
  }

  /** `"a=b="` truncates to `"a="` and to itself. */
  lemma TwoDelimiterExample()
    ensures Children("a=b=", "=") == {"a=", "a=b="}
  {
    assert "a=b=" == ['a', '='] + "b=";
    assert "b=" == ['b', '='] + "";
    SplitStep('a', '=', "b=");
    SplitStep('b', '=', "");
    assert Split("", "=") == [""];
    TruncationStep('a', '=', "b=");
    TruncationStep('b', '=', "");
    ThreePartChildren("a=b=", "=");
  }

  /** The variations of `"a=b=c"` at `=` are the string itself, `"a="` and `"a=b="`. */
  lemma VariationsExample()
    ensures IsVariationSet({"a=b=c", "a=", "a=b="}, "a=b=c", ["="])
  {
    var R := {"a=b=c", "a=", "a=b="};
    ExampleClosed();
    forall S | "a=b=c" in S && Closed(S, ["="]) ensures R <= S {
      SplitExample();
      assert Children("a=b=c", "=") <= S;
    }
  }

  /** The three strings are closed under expansion at `=`. */
  lemma ExampleClosed()
    ensures Closed({"a=b=c", "a=", "a=b="}, ["="])
  {
    var R := {"a=b=c", "a=", "a=b="};
    forall v, d | v in R && d in ["="] ensures Children(v, d) <= R {
      assert d == "=";
      if v == "a=b=c" {
        SplitExample();
      } else if v == "a=" {
        TrailingDelimiterExample();
      } else {
        TwoDelimiterExample();
      }
    }
  }

  /** `" , "` holds no keyword, so `Find` matches nothing and `FindX` matches every URL. */
  lemma BlankKeywordsExample(urls: seq<string>)
    ensures ParseKeywords(" , ") == []
    ensures ProcessFind(urls, " , ") == {}
    ensures ProcessFindX(urls, " , ") == Elems(urls)
  {
    var s := " , ";
    assert s == [' ', ','] + " ";
    SplitStep(' ', ',', " ");
    SplitLast(' ', ',');
    assert Split(s, ",") == [" ", " "];
    assert TrimSpace(" ") == "" by {
      assert LeadingSpace(" ") == 1;
    }
    NoKeywordsParsed(urls, s);
  }
}
