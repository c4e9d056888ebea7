/**
 The regular-expression matcher of grep.c. A pattern is a sequence of items (a literal or `.`, each
 possibly starred) and an optional final `$`; the three mutually recursive C functions are proved to
 decide membership in that language.
 */
module Grep {
  /** A C string: the characters before the terminating NUL. */
  type CString = s: seq<char> | forall i :: 0 <= i < |s| ==> s[i] != '\0'

  /** s[i] in C, NUL at the end. */
  function At(s: CString, i: nat): char
    requires i <= |s|
  {
    if i < |s| then s[i] else '\0'
  }

  // ---------- the language of a pattern ----------

  datatype Item = Item(c: char, star: bool)
  datatype Pattern = Pattern(items: seq<Item>, toEnd: bool)

  /** A `*` stars the character before it, whatever that is; `$` is an anchor only at the very end. */
  function Parse(re: CString): Pattern {
    if re == [] then Pattern([], false)
    else if |re| >= 2 && re[1] == '*' then
      var rest := Parse(re[2..]);
      rest.(items := [Item(re[0], true)] + rest.items)
    else if re == ['$'] then Pattern([], true)
    else
      var rest := Parse(re[1..]);
      rest.(items := [Item(re[0], false)] + rest.items)
  }

  /** A pattern as it is typed. */
  function Show(p: Pattern): (s: seq<char>)
    ensures |s| > 0 <==> p.items != [] || p.toEnd
    ensures p.items != [] ==> s[0] == p.items[0].c
    decreases |p.items|
  {
    if p.items == [] then (if p.toEnd then ['$'] else [])
    else [p.items[0].c] + (if p.items[0].star then ['*'] else []) + Show(p.(items := p.items[1..]))
  }

  /** A star must follow its item directly, and a last `$` is the anchor. */
  predicate Writable(p: Pattern)
    decreases |p.items|
  {
    p.items == [] ||
    (var it, rest := p.items[0], p.(items := p.items[1..]);
     it.c != '\0' && (if rest.items == [] then it == Item('$', false) ==> p.toEnd
                      else rest.items[0].c == '*' ==> it.star) && Writable(rest))
  }

  lemma ShowCons(it: Item, p: Pattern)
    ensures Show(p.(items := [it] + p.items)) == [it.c] + (if it.star then ['*'] else []) + Show(p)
  {
    assert ([it] + p.items)[1..] == p.items;
  }

  /** Every string is some writable pattern typed out, and reading it gives that pattern. */
  lemma {:induction false} ShowParse(re: CString)
    ensures Show(Parse(re)) == re && Writable(Parse(re))
  {
    if re == [] || re == ['$'] {
    } else {
      var n := if |re| >= 2 && re[1] == '*' then 2 else 1;
      var it, rest := Item(re[0], n == 2), Parse(re[n..]);
      ShowParse(re[n..]);
      assert Parse(re) == rest.(items := [it] + rest.items);
      ShowCons(it, rest);
      assert ([it] + rest.items)[1..] == rest.items;
      assert re == re[..n] + re[n..];
    }
  }

  lemma {:induction false} ReadBack(p: Pattern)
    requires Writable(p)
    ensures '\0' !in Show(p) && Parse(Show(p)) == p
    decreases |p.items|
  {
    if p.items != [] {
      var it, rest := p.items[0], p.(items := p.items[1..]);
      ReadBack(rest);
      assert Show(p)[if it.star then 2 else 1..] == Show(rest);
      assert p.items == [it] + rest.items;
    }
  }

  /** Typing a pattern and reading it back gives the pattern, exactly if it can be written down. */
  lemma ParseShow(p: Pattern)
    requires '\0' !in Show(p)
    ensures Parse(Show(p)) == p <==> Writable(p)
  {
    if Writable(p) {
      ReadBack(p);
    } else {
      ShowParse(Show(p));
    }
  }

  predicate Fits(c: char, x: char) {
    c == '.' || c == x
  }

  predicate ItemMatches(it: Item, part: seq<char>) {
    if it.star then forall i :: 0 <= i < |part| ==> Fits(it.c, part[i])
    else |part| == 1 && Fits(it.c, part[0])
  }

  function Concat(parts: seq<seq<char>>): seq<char> {
    if parts == [] then [] else parts[0] + Concat(parts[1..])
  }

  predicate Splits(items: seq<Item>, s: seq<char>, parts: seq<seq<char>>) {
    |parts| == |items| && Concat(parts) == s && forall i :: 0 <= i < |items| ==> ItemMatches(items[i], parts[i])
  }

  /** `s` is a concatenation of one part for each item. */
  ghost predicate InLanguage(items: seq<Item>, s: seq<char>) {
    exists parts :: Splits(items, s, parts)
  }

  /** Some prefix of the text is in the language; all of it, if the pattern ends in `$`. */
  ghost predicate MatchesHere(p: Pattern, text: seq<char>) {
    exists k :: 0 <= k <= |text| && InLanguage(p.items, text[..k]) && (p.toEnd ==> k == |text|)
  }

  /** A pattern that starts with `^` matches at the start only. */
  ghost predicate Matches(re: CString, text: CString) {
    if |re| > 0 && re[0] == '^' then MatchesHere(Parse(re[1..]), text)
    else exists j :: 0 <= j <= |text| && MatchesHere(Parse(re), text[j..])
  }

  // ---------- unfolding the language ----------

  lemma LanguageNil(s: seq<char>)
    ensures InLanguage([], s) <==> s == []
  {
    assert Splits([], [], []);
    if InLanguage([], s) {
      var parts :| Splits([], s, parts);
    }
  }

  lemma LanguageCons(it: Item, items: seq<Item>, s: seq<char>)
    ensures InLanguage([it] + items, s) <==>
      exists n :: 0 <= n <= |s| && ItemMatches(it, s[..n]) && InLanguage(items, s[n..])
  {
    if InLanguage([it] + items, s) {
      var parts :| Splits([it] + items, s, parts);
      var n := |parts[0]|;
      assert s[..n] == parts[0] && s[n..] == Concat(parts[1..]);
      assert ItemMatches(([it] + items)[0], parts[0]);
      assert forall i :: 0 <= i < |items| ==> items[i] == ([it] + items)[i + 1];
      assert Splits(items, s[n..], parts[1..]);
    }
    if n :| 0 <= n <= |s| && ItemMatches(it, s[..n]) && InLanguage(items, s[n..]) {
      var parts :| Splits(items, s[n..], parts);
      var whole := [s[..n]] + parts;
      assert whole[1..] == parts;
      assert s == s[..n] + s[n..];
      assert Splits([it] + items, s, whole);
    }
  }

  /** One item off the front of a pattern. */
  lemma HereCons(it: Item, p: Pattern, text: seq<char>)
    ensures MatchesHere(p.(items := [it] + p.items), text) <==>
      exists n :: 0 <= n <= |text| && ItemMatches(it, text[..n]) && MatchesHere(p, text[n..])
  {
    var q := p.(items := [it] + p.items);
    if MatchesHere(q, text) {
      var k :| 0 <= k <= |text| && InLanguage(q.items, text[..k]) && (q.toEnd ==> k == |text|);
      LanguageCons(it, p.items, text[..k]);
      var n :| 0 <= n <= k && ItemMatches(it, text[..k][..n]) && InLanguage(p.items, text[..k][n..]);
      assert text[..k][..n] == text[..n] && text[..k][n..] == text[n..][..k - n];
      assert MatchesHere(p, text[n..]);
    }
    if n :| 0 <= n <= |text| && ItemMatches(it, text[..n]) && MatchesHere(p, text[n..]) {
      var k :| 0 <= k <= |text[n..]| && InLanguage(p.items, text[n..][..k]) && (p.toEnd ==> k == |text[n..]|);
      LanguageCons(it, p.items, text[..n + k]);
      assert text[..n + k][..n] == text[..n] && text[..n + k][n..] == text[n..][..k];
      assert InLanguage(q.items, text[..n + k]);
    }
  }

  lemma HereNil(toEnd: bool, text: seq<char>)
    ensures MatchesHere(Pattern([], toEnd), text) <==> (toEnd ==> text == [])
  {
    LanguageNil(text[..0]);
    if MatchesHere(Pattern([], toEnd), text) {
      var k :| 0 <= k <= |text| && InLanguage([], text[..k]) && (toEnd ==> k == |text|);
      LanguageNil(text[..k]);
    }
    assert InLanguage([], text[..0]);
  }

  /** A starred item consumes one more character, or none. */
  ghost predicate StarHere(c: char, re: CString, text: seq<char>) {
    exists n :: 0 <= n <= |text| && ItemMatches(Item(c, true), text[..n]) && MatchesHere(Parse(re), text[n..])
  }

  lemma StarStep(c: char, re: CString, text: seq<char>)
    ensures StarHere(c, re, text) <==>
      MatchesHere(Parse(re), text) || (text != [] && Fits(c, text[0]) && StarHere(c, re, text[1..]))
  {
    assert text[0..] == text;
    if StarHere(c, re, text) {
      var n :| 0 <= n <= |text| && ItemMatches(Item(c, true), text[..n]) && MatchesHere(Parse(re), text[n..]);
      if n > 0 {
        assert text[..n][0] == text[0] && text[1..][..n - 1] == text[..n][1..] && text[1..][n - 1..] == text[n..];
        assert ItemMatches(Item(c, true), text[1..][..n - 1]);
        assert StarHere(c, re, text[1..]);
      }
    }
    if MatchesHere(Parse(re), text) {
      assert ItemMatches(Item(c, true), text[..0]);
    }
    if text != [] && Fits(c, text[0]) && StarHere(c, re, text[1..]) {
      var n :| 0 <= n <= |text[1..]| && ItemMatches(Item(c, true), text[1..][..n]) &&
        MatchesHere(Parse(re), text[1..][n..]);
      assert text[..n + 1] == [text[0]] + text[1..][..n] && text[n + 1..] == text[1..][n..];
      assert ItemMatches(Item(c, true), text[..n + 1]);
    }
  }

  // ---------- the code ----------

  method MatchHere(re: CString, text: CString) returns (b: bool)
    ensures b <==> MatchesHere(Parse(re), text)
    decreases |re|, 1
  {
    if At(re, 0) == '\0' {
      HereNil(false, text);
      return true;
    }
    if At(re, 1) == '*' {
      b := MatchStar(re[0], re[2..], text);
      HereCons(Item(re[0], true), Parse(re[2..]), text);
      return;
    }
    if re[0] == '$' && At(re, 1) == '\0' {
      HereNil(true, text);
      return At(text, 0) == '\0';
    }
    HereCons(Item(re[0], false), Parse(re[1..]), text);
    if At(text, 0) != '\0' && (re[0] == '.' || re[0] == text[0]) {
      b := MatchHere(re[1..], text[1..]);
      assert text[..1] == [text[0]];
      return;
    }
    assert forall n :: 0 <= n <= |text| ==> !ItemMatches(Item(re[0], false), text[..n]);
    b := false;
  }

  method MatchStar(c: char, re: CString, text: CString) returns (b: bool)
    ensures b <==> StarHere(c, re, text)
    decreases |re|, 2
  {
    var i := 0;
    while true
      invariant 0 <= i <= |text|
      invariant StarHere(c, re, text) <==> StarHere(c, re, text[i..])
      decreases |text| - i
    {
      StarStep(c, re, text[i..]);
      var here := MatchHere(re, text[i..]);
      if here {
        return true;
      }
      if At(text, i) == '\0' || !(text[i] == c || c == '.') {
        return false;
      }
      assert text[i..][1..] == text[i + 1..];
      i := i + 1;
    }
  }

  /** match(): true exactly when the pattern's language meets the text where the pattern allows. */
  method Match(re: CString, text: CString) returns (b: bool)
    ensures b <==> Matches(re, text)
  {
    if At(re, 0) == '^' {
      b := MatchHere(re[1..], text);
      return;
    }
    var i := 0;
    while true
      invariant 0 <= i <= |text|
      invariant forall j :: 0 <= j < i ==> !MatchesHere(Parse(re), text[j..])
      decreases |text| - i
    {
      var here := MatchHere(re, text[i..]);
      if here {
        return true;
      }
      if At(text, i) == '\0' {
        return false;
      }
      i := i + 1;
    }
  }
}
