/** grep.c: the backtracking matcher, proved to accept exactly when some part of the text, at a place
    the anchors allow, is in the language of the pattern. Patterns and texts are C strings without
    their final '\0'. */
module Grep {
  // ----- patterns and their languages

  datatype Item = One(c: char) | Star(c: char)

  /** What a pattern says after a leading '^' has been taken off. */
  datatype Pattern = Pattern(items: seq<Item>, atEnd: bool)

  predicate Fits(c: char, d: char) { c == '.' || c == d }

  predicate InItem(item: Item, w: string) {
    match item
    case One(c) => |w| == 1 && Fits(c, w[0])
    case Star(c) => forall i | 0 <= i < |w| :: Fits(c, w[i])
  }

  function Concat(parts: seq<string>): (r: string) {
    if parts == [] then "" else parts[0] + Concat(parts[1..])
  }

  /** `w` falls into parts, one in the language of each item. */
  ghost predicate IsCut(items: seq<Item>, w: string, parts: seq<string>) {
    |parts| == |items| && Concat(parts) == w && forall i | 0 <= i < |items| :: InItem(items[i], parts[i])
  }

  ghost predicate InLanguage(items: seq<Item>, w: string) {
    exists parts :: IsCut(items, w, parts)
  }

  /** A character followed by '*' repeats, '$' at the very end anchors, anything else stands for
      itself or, if it is '.', for any character. */
  function Parse(re: string): (r: Pattern) {
    if re == "" then Pattern([], false)
    else if |re| >= 2 && re[1] == '*' then var p := Parse(re[2..]); p.(items := [Star(re[0])] + p.items)
    else if re == "$" then Pattern([], true)
    else var p := Parse(re[1..]); p.(items := [One(re[0])] + p.items)
  }

  // ----- what a pattern says is read in one way only

  /** The text of a pattern. */
  function Render(p: Pattern): (r: string)
    decreases |p.items|
  {
    if p.items == [] then (if p.atEnd then "$" else "")
    else (if p.items[0].One? then [p.items[0].c] else [p.items[0].c, '*']) + Render(p.(items := p.items[1..]))
  }

  /** No single character is followed by '*'. */
  ghost predicate Apart(items: seq<Item>) {
    forall j, k | 0 <= j < k < |items| && k == j + 1 && items[j].One? :: items[k].c != '*'
  }

  /** Nor is a '$' at the end that does not anchor. */
  ghost predicate Tight(p: Pattern) {
    Apart(p.items) && (p.items != [] && p.items[|p.items| - 1] == One('$') ==> p.atEnd)
  }

  lemma ApartTail(items: seq<Item>, item: Item)
    ensures Apart([item] + items) <==> Apart(items) && (item.One? && items != [] ==> items[0].c != '*')
  {
    var items' := [item] + items;
    if Apart(items') {
      forall j, k | 0 <= j < k < |items| && k == j + 1 && items[j].One? ensures items[k].c != '*' {
        assert items'[j + 1] == items[j] && items'[k + 1] == items[k];
      }
      if items != [] { assert items'[0].One? ==> items'[1].c != '*'; }
    }
    if Apart(items) && (item.One? && items != [] ==> items[0].c != '*') {
      forall j, k | 0 <= j < k < |items'| && k == j + 1 && items'[j].One? ensures items'[k].c != '*' {
        if j > 0 { assert items[j - 1] == items'[j] && items[k - 1] == items'[k]; }
      }
    }
  }

  lemma TightTail(p: Pattern, item: Item)
    ensures var p' := p.(items := [item] + p.items);
            Tight(p') <==> Tight(p) && (item.One? && p.items != [] ==> p.items[0].c != '*')
                           && (item == One('$') && p.items == [] ==> p.atEnd)
  {
    ApartTail(p.items, item);
    hide Apart;
  }

  lemma RenderFirst(p: Pattern)
    ensures Render(p) == "" <==> p == Pattern([], false)
    ensures p.items != [] ==> Render(p) != "" && Render(p)[0] == p.items[0].c
  {}

  lemma RenderTail(p: Pattern, item: Item)
    ensures Render(p.(items := [item] + p.items)) == (if item.One? then [item.c] else [item.c, '*']) + Render(p)
  {
    assert ([item] + p.items)[1..] == p.items;
  }

  /** Parse gives a pattern with the text `re` and no other one: what is written can be read back. */
  lemma {:induction false} ParseExactly(re: string, p: Pattern)
    ensures p == Parse(re) <==> Render(p) == re && Tight(p)
    decreases |re|
  {
    ParseRender(re);
    if Render(p) == re && Tight(p) { OneReading(re, p); }
  }

  lemma {:induction false} ParseRender(re: string)
    ensures Render(Parse(re)) == re && Tight(Parse(re))
  {
    if re == "" || (re == "$" && Parse(re).items == []) { return; }
    hide Render, Tight;
    if |re| >= 2 && re[1] == '*' {
      ParseRender(re[2..]);
      RenderTail(Parse(re[2..]), Star(re[0]));
      TightTail(Parse(re[2..]), Star(re[0]));
      assert re == [re[0], '*'] + re[2..];
    } else {
      ParseRender(re[1..]);
      RenderTail(Parse(re[1..]), One(re[0]));
      TightTail(Parse(re[1..]), One(re[0]));
      RenderFirst(Parse(re[1..]));
      assert re == [re[0]] + re[1..];
    }
  }

  lemma {:induction false} OneReading(re: string, p: Pattern)
    requires Render(p) == re && Tight(p)
    ensures p == Parse(re)
    decreases |re|
  {
    if p.items != [] {
      var item, p' := p.items[0], p.(items := p.items[1..]);
      assert p == p'.(items := [item] + p'.items);
      RenderTail(p', item);
      TightTail(p', item);
      RenderFirst(p');
      hide Render, Tight;
      if item.One? {
        assert re[1..] == Render(p');
        OneReading(re[1..], p');
      } else {
        assert re[2..] == Render(p');
        OneReading(re[2..], p');
      }
    }
  }

  /** A prefix of `text` is in the language; all of it, if the pattern is anchored at the end. */
  ghost predicate PrefixMatch(p: Pattern, text: string) {
    exists n: nat {:trigger text[..n]} :: n <= |text| && InLanguage(p.items, text[..n]) && (p.atEnd ==> n == |text|)
  }

  // ----- languages, item by item

  lemma EmptyLanguage(w: string)
    ensures InLanguage([], w) <==> w == ""
  {
    if w == "" { assert IsCut([], w, []); }
  }

  lemma ConsCut(item: Item, items: seq<Item>, w: string, n: nat)
    requires n <= |w| && InItem(item, w[..n]) && InLanguage(items, w[n..])
    ensures InLanguage([item] + items, w)
  {
    var parts :| IsCut(items, w[n..], parts);
    var parts' := [w[..n]] + parts;
    assert parts'[1..] == parts && w == w[..n] + w[n..];
    assert IsCut([item] + items, w, parts');
  }

  lemma UnconsCut(item: Item, items: seq<Item>, w: string) returns (n: nat)
    requires InLanguage([item] + items, w)
    ensures n <= |w| && InItem(item, w[..n]) && InLanguage(items, w[n..])
  {
    var parts :| IsCut([item] + items, w, parts);
    n := |parts[0]|;
    var rest := parts[1..];
    assert w[..n] == parts[0] && w[n..] == Concat(rest);
    forall i | 0 <= i < |items| ensures InItem(items[i], rest[i]) {
      assert ([item] + items)[i + 1] == items[i] && rest[i] == parts[i + 1];
    }
    assert IsCut(items, w[n..], rest);
  }

  /** Matching an item and then the rest is matching the rest after some prefix in the item's language. */
  lemma PrefixAfterItem(item: Item, p: Pattern, text: string, n: nat)
    requires n <= |text| && InItem(item, text[..n]) && PrefixMatch(p, text[n..])
    ensures PrefixMatch(p.(items := [item] + p.items), text)
  {
    var rest := text[n..];
    var m: nat :| m <= |rest| && InLanguage(p.items, rest[..m]) && (p.atEnd ==> m == |rest|);
    var w := text[..n + m];
    assert w[..n] == text[..n] && w[n..] == rest[..m];
    ConsCut(item, p.items, w, n);
  }

  lemma PrefixSplits(item: Item, p: Pattern, text: string) returns (n: nat)
    requires PrefixMatch(p.(items := [item] + p.items), text)
    ensures n <= |text| && InItem(item, text[..n]) && PrefixMatch(p, text[n..])
  {
    var m: nat :| m <= |text| && InLanguage([item] + p.items, text[..m]) && (p.atEnd ==> m == |text|);
    var w := text[..m];
    n := UnconsCut(item, p.items, w);
    assert w[..n] == text[..n] && w[n..] == text[n..][..m - n];
  }

  lemma EmptyPattern(atEnd: bool, text: string)
    ensures PrefixMatch(Pattern([], atEnd), text) <==> (atEnd ==> text == "")
  {
    var p := Pattern([], atEnd);
    forall w { EmptyLanguage(w); }
    assert text[..0] == "";
    if atEnd && text == "" { assert InLanguage(p.items, text[..0]); }
  }

  lemma OneItem(c: char, p: Pattern, text: string)
    ensures PrefixMatch(p.(items := [One(c)] + p.items), text) <==> text != "" && Fits(c, text[0]) && PrefixMatch(p, text[1..])
  {
    if PrefixMatch(p.(items := [One(c)] + p.items), text) {
      var n := PrefixSplits(One(c), p, text);
      assert n == 1;
    } else if text != "" && Fits(c, text[0]) && PrefixMatch(p, text[1..]) {
      PrefixAfterItem(One(c), p, text, 1);
    }
  }

  // ----- the matcher

  /** matchhere: the pattern at the beginning of the text. */
  method MatchHere(re: string, text: string) returns (r: bool)
    ensures r <==> PrefixMatch(Parse(re), text)
    decreases |re|, |text|, 0
  {
    if re == "" {
      EmptyPattern(false, text);
      return true;
    }
    if |re| >= 2 && re[1] == '*' {
      r := MatchStar(re[0], re[2..], text);
      return;
    }
    if re == "$" {
      EmptyPattern(true, text);
      return text == "";
    }
    OneItem(re[0], Parse(re[1..]), text);
    if text != "" && (re[0] == '.' || re[0] == text[0]) {
      r := MatchHere(re[1..], text[1..]);
      return;
    }
    return false;
  }

  /** matchstar: `c` repeated any number of times, then the pattern. */
  method MatchStar(c: char, re: string, text: string) returns (r: bool)
    ensures var p := Parse(re); r <==> PrefixMatch(p.(items := [Star(c)] + p.items), text)
    decreases |re|, |text|, 1
  {
    ghost var p := Parse(re);
    var k := 0;
    while true
      invariant k <= |text| && InItem(Star(c), text[..k])
      invariant forall n: nat {:trigger text[n..]} | n < k :: !PrefixMatch(p, text[n..])
      decreases |text| - k
    {
      r := MatchHere(re, text[k..]);
      if r {
        PrefixAfterItem(Star(c), p, text, k);
        return;
      }
      if !(k < |text| && (text[k] == c || c == '.')) {
        StopStar(c, p, text, k);
        return false;
      }
      k := k + 1;
    }
  }

  lemma StarFits(c: char, text: string, n: nat, k: nat)
    requires k < n <= |text| && InItem(Star(c), text[..n])
    ensures Fits(c, text[k])
  {
    assert text[..n][k] == text[k];
  }

  /** Nothing is missed when the repetition ends. */
  lemma StopStar(c: char, p: Pattern, text: string, k: nat)
    requires k <= |text| && (k < |text| ==> !Fits(c, text[k]))
    requires forall n: nat {:trigger text[n..]} | n <= k :: !PrefixMatch(p, text[n..])
    ensures !PrefixMatch(p.(items := [Star(c)] + p.items), text)
  {
    if PrefixMatch(p.(items := [Star(c)] + p.items), text) {
      var n := PrefixSplits(Star(c), p, text);
      if n > k { StarFits(c, text, n, k); }
    }
  }

  /** What grep looks for in a line. */
  ghost predicate Found(re: string, text: string) {
    if re != "" && re[0] == '^' then PrefixMatch(Parse(re[1..]), text)
    else exists k: nat {:trigger text[k..]} :: k <= |text| && PrefixMatch(Parse(re), text[k..])
  }

  /** match: the pattern anywhere in the text, or at its beginning after '^'. */
  method Match(re: string, text: string) returns (r: bool)
    ensures r <==> Found(re, text)
  {
    if re != "" && re[0] == '^' {
      r := MatchHere(re[1..], text);
      return;
    }
    var k := 0;
    while true
      invariant k <= |text|
      invariant forall n: nat {:trigger text[n..]} | n < k :: !PrefixMatch(Parse(re), text[n..])
      decreases |text| - k
    {
      r := MatchHere(re, text[k..]);
      if r { return; }
      if k == |text| { return false; }
      k := k + 1;
    }
  }

  /** Spelled out: some substring, starting at the beginning after '^' and reaching the end before '$',
      is in the language of the pattern. */
  lemma FoundMeans(re: string, text: string)
    ensures var anchored := re != "" && re[0] == '^';
            var p := Parse(if anchored then re[1..] else re);
            Found(re, text) <==>
              exists k: nat, m: nat {:trigger text[k..m]} :: k <= m <= |text| && InLanguage(p.items, text[k..m])
                && (anchored ==> k == 0) && (p.atEnd ==> m == |text|)
  {
    var anchored := re != "" && re[0] == '^';
    var p := Parse(if anchored then re[1..] else re);
    assert text[0..] == text;
    if Found(re, text) {
      var k: nat :| k <= |text| && (anchored ==> k == 0) && PrefixMatch(p, text[k..]);
      var n: nat :| n <= |text[k..]| && InLanguage(p.items, text[k..][..n]) && (p.atEnd ==> n == |text[k..]|);
      assert text[k..][..n] == text[k..k + n];
    }
    if k: nat, m: nat :| k <= m <= |text| && InLanguage(p.items, text[k..m]) && (anchored ==> k == 0) && (p.atEnd ==> m == |text|) {
      assert text[k..][..m - k] == text[k..m];
      assert PrefixMatch(p, text[k..]);
    }
  }
}
