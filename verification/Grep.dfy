/**
  The pattern matcher of xv6/grep.c against a language of patterns: literals, dot, star, a leading caret
  and a final dollar. Patterns and texts are C strings without their terminating NUL.
 */
module Grep {

  // ---------------------------------------------------------------- what a pattern means

  /** One character, or any number of them; the character '.' stands for any. */
  datatype Item = One(c: char) | Star(c: char)

  predicate CharFits(c: char, x: char) {
    c == '.' || c == x
  }

  /** The items of a pattern; a final dollar is not one of them. */
  function Items(re: seq<char>): seq<Item> {
    if re == [] then []
    else if |re| > 1 && re[1] == '*' then [Star(re[0])] + Items(re[2..])
    else if re == ['$'] then []
    else [One(re[0])] + Items(re[1..])
  }

  /** Whether the pattern ends in a dollar that stands for the end of the text. */
  predicate Anchored(re: seq<char>) {
    if re == [] then false
    else if |re| > 1 && re[1] == '*' then Anchored(re[2..])
    else re == ['$'] || Anchored(re[1..])
  }

  /** The language of a list of items. */
  ghost predicate InLanguage(items: seq<Item>, w: seq<char>)
    decreases |items|
  {
    if items == [] then w == []
    else match items[0]
      case One(c) => w != [] && CharFits(c, w[0]) && InLanguage(items[1..], w[1..])
      case Star(c) => exists k :: 0 <= k <= |w| && Run(c, w, k) && InLanguage(items[1..], w[k..])
  }

  /** The first k characters all fit c. */
  predicate Run(c: char, w: seq<char>, k: nat)
    requires k <= |w|
  {
    forall m :: 0 <= m < k ==> CharFits(c, w[m])
  }

  /** The pattern matches the first j characters of the text. */
  ghost predicate MatchesTo(re: seq<char>, text: seq<char>, j: nat)
    requires j <= |text|
  {
    InLanguage(Items(re), text[..j]) && (Anchored(re) ==> j == |text|)
  }

  /** A match begins at the start of the text. */
  ghost predicate MatchesHere(re: seq<char>, text: seq<char>) {
    exists j :: 0 <= j <= |text| && MatchesTo(re, text, j)
  }

  /** The text has a match: at its start after a caret, else anywhere. */
  ghost predicate HasMatch(re: seq<char>, text: seq<char>) {
    if re != [] && re[0] == '^' then MatchesHere(re[1..], text)
    else exists i :: 0 <= i <= |text| && MatchesHere(re, text[i..])
  }

  // ---------------------------------------------------------------- how matching goes

  lemma HereEmpty(text: seq<char>)
    ensures MatchesHere([], text)
  {
    assert MatchesTo([], text, 0);
  }

  lemma HereDollar(text: seq<char>)
    ensures MatchesHere(['$'], text) <==> text == []
  {
    assert Items(['$']) == [];
    if text == [] {
      assert MatchesTo(['$'], text, 0);
    }
  }

  lemma HereOne(re: seq<char>, text: seq<char>)
    requires re != [] && !(|re| > 1 && re[1] == '*') && re != ['$']
    ensures MatchesHere(re, text) <==> text != [] && CharFits(re[0], text[0]) && MatchesHere(re[1..], text[1..])
  {
    assert Items(re)[1..] == Items(re[1..]);
    if j :| 0 <= j <= |text| && MatchesTo(re, text, j) {
      assert text[..j][1..] == text[1..][..j - 1];
      assert MatchesTo(re[1..], text[1..], j - 1);
    }
    if text != [] && CharFits(re[0], text[0]) && MatchesHere(re[1..], text[1..]) {
      var j :| 0 <= j <= |text[1..]| && MatchesTo(re[1..], text[1..], j);
      assert text[..j + 1][1..] == text[1..][..j];
      assert MatchesTo(re, text, j + 1);
    }
  }

  /** c*re matches here: some run of c, then re. */
  ghost predicate StarHere(c: char, re: seq<char>, text: seq<char>) {
    exists k :: 0 <= k <= |text| && Run(c, text, k) && MatchesHere(re, text[k..])
  }

  lemma HereStar(re: seq<char>, text: seq<char>)
    requires |re| > 1 && re[1] == '*'
    ensures MatchesHere(re, text) <==> StarHere(re[0], re[2..], text)
  {
    assert Items(re)[1..] == Items(re[2..]);
    if j :| 0 <= j <= |text| && MatchesTo(re, text, j) {
      var w := text[..j];
      var k :| 0 <= k <= |w| && Run(re[0], w, k) && InLanguage(Items(re[2..]), w[k..]);
      assert w[k..] == text[k..][..j - k];
      assert MatchesTo(re[2..], text[k..], j - k);
      assert Run(re[0], text, k);
    }
    if k :| 0 <= k <= |text| && Run(re[0], text, k) && MatchesHere(re[2..], text[k..]) {
      var j :| 0 <= j <= |text[k..]| && MatchesTo(re[2..], text[k..], j);
      var w := text[..k + j];
      assert w[k..] == text[k..][..j];
      assert Run(re[0], w, k);
      assert MatchesTo(re, text, k + j);
    }
  }

  // ---------------------------------------------------------------- plain patterns

  /** No character with a meaning of its own. */
  predicate Plain(re: seq<char>) {
    forall i :: 0 <= i < |re| ==> re[i] != '.' && re[i] != '*' && re[i] != '^' && re[i] != '$'
  }

  lemma {:induction false} PlainHere(re: seq<char>, text: seq<char>)
    requires Plain(re)
    ensures MatchesHere(re, text) <==> |re| <= |text| && text[..|re|] == re
    decreases |re|
  {
    if re == [] {
      HereEmpty(text);
    } else {
      HereOne(re, text);
      if text != [] {
        PlainHere(re[1..], text[1..]);
        assert re == [re[0]] + re[1..] && text == [text[0]] + text[1..];
        if |re| <= |text| {
          assert text[..|re|] == [text[0]] + text[1..][..|re| - 1];
        }
      }
    }
  }

  lemma {:induction false} PlainToEnd(re: seq<char>, text: seq<char>)
    requires Plain(re)
    ensures MatchesHere(re + ['$'], text) <==> text == re
    decreases |re|
  {
    if re == [] {
      assert re + ['$'] == ['$'];
      HereDollar(text);
    } else {
      var full := re + ['$'];
      assert full[1..] == re[1..] + ['$'] && full[0] == re[0];
      HereOne(full, text);
      if text != [] {
        PlainToEnd(re[1..], text[1..]);
        assert re == [re[0]] + re[1..] && text == [text[0]] + text[1..];
      }
    }
  }

  /** A plain pattern matches exactly the texts it occurs in, */
  lemma PlainSearch(re: seq<char>, text: seq<char>)
    requires Plain(re)
    ensures HasMatch(re, text) <==> exists i: nat :: OccursAt(re, text, i)
  {
    forall i: nat | i <= |text| ensures MatchesHere(re, text[i..]) <==> OccursAt(re, text, i) {
      PlainHere(re, text[i..]);
      if i + |re| <= |text| {
        assert text[i..][..|re|] == text[i..i + |re|];
      }
    }
    if i: nat :| OccursAt(re, text, i) {
      assert MatchesHere(re, text[i..]);
    }
  }

  predicate OccursAt(re: seq<char>, text: seq<char>, i: nat) {
    i + |re| <= |text| && text[i..i + |re|] == re
  }

  /** and between a caret and a dollar only itself. */
  lemma PlainWhole(re: seq<char>, text: seq<char>)
    requires Plain(re)
    ensures HasMatch(['^'] + re + ['$'], text) <==> text == re
  {
    assert (['^'] + re + ['$'])[1..] == re + ['$'];
    PlainToEnd(re, text);
  }

  /** A dot stands for any one character, and `.*` for any text. */
  lemma AnyText(text: seq<char>)
    ensures HasMatch(['^', '.', '*', '$'], text)
    ensures HasMatch(['^', '.', '$'], text) <==> |text| == 1
  {
    assert ['^', '.', '*', '$'][1..] == ['.', '*', '$'] && ['.', '*', '$'][2..] == ['$'];
    HereStar(['.', '*', '$'], text);
    HereDollar(text[|text|..]);
    assert StarHere('.', ['$'], text);
    assert ['^', '.', '$'][1..] == ['.', '$'] && ['.', '$'][1..] == ['$'];
    HereOne(['.', '$'], text);
    if text != [] {
      HereDollar(text[1..]);
    }
  }

  // ---------------------------------------------------------------- the matcher

  /** Searches for a match anywhere, or only at the start after a caret. */
  method Match(re: seq<char>, text: seq<char>) returns (r: bool)
    ensures r <==> HasMatch(re, text)
  {
    if re != [] && re[0] == '^' {
      r := MatchHere(re[1..], text);
      return;
    }
    var i := 0;
    while true
      invariant 0 <= i <= |text|
      invariant forall j :: 0 <= j < i ==> !MatchesHere(re, text[j..])
      decreases |text| - i
    {
      var here := MatchHere(re, text[i..]);
      if here {
        return true;
      }
      if i == |text| {
        return false;
      }
      i := i + 1;
    }
  }

  /** Matches at the beginning of the text. */
  method MatchHere(re: seq<char>, text: seq<char>) returns (r: bool)
    ensures r <==> MatchesHere(re, text)
    decreases |re|, |text|
  {
    if re == [] {
      HereEmpty(text);
      return true;
    }
    if |re| > 1 && re[1] == '*' {
      HereStar(re, text);
      r := MatchStar(re[0], re[2..], text);
      return;
    }
    if re[0] == '$' && |re| == 1 {
      assert re == ['$'];
      HereDollar(text);
      return text == [];
    }
    HereOne(re, text);
    if text != [] && (re[0] == '.' || re[0] == text[0]) {
      r := MatchHere(re[1..], text[1..]);
      return;
    }
    return false;
  }

  /** Matches c*re at the beginning of the text, trying the shortest run first. */
  method MatchStar(c: char, re: seq<char>, text: seq<char>) returns (r: bool)
    ensures r <==> StarHere(c, re, text)
    decreases |re|, |text| + 1
  {
    var k := 0;
    while true
      invariant 0 <= k <= |text| && Run(c, text, k)
      invariant forall j :: 0 <= j < k ==> !MatchesHere(re, text[j..])
      decreases |text| - k
    {
      var here := MatchHere(re, text[k..]);
      if here {
        return true;
      }
      if k == |text| || !(text[k] == c || c == '.') {
        return false;
      }
      k := k + 1;
    }
  }
}
