// The wildcard matcher of common/common.cpp, proved against "the text splits as the pattern says".
module Glob {

  // A C string: the characters in front of the terminating NUL.
  type CString = s: string | '\0' !in s

  // Dereferencing a pointer into a C string; one past the last character is the NUL.
  function At(s: CString, i: nat): char
    requires i <= |s|
  {
    if i < |s| then s[i] else '\0'
  }

  // ---- What a pattern means ----

  datatype Item = Run | One | Exactly(c: char) | Broken

  // A pattern read from left to right: '*', '?', a quoted character, a lone trailing backslash,
  // any other character.
  function ItemAt(pat: CString, i: nat): Item
    requires i < |pat|
  {
    if pat[i] == '*' then Run
    else if pat[i] == '?' then One
    else if pat[i] != '\\' then Exactly(pat[i])
    else if i + 1 == |pat| then Broken
    else Exactly(pat[i + 1])
  }

  function Width(pat: CString, i: nat): nat
    requires i < |pat|
  {
    if pat[i] == '\\' && i + 1 < |pat| then 2 else 1
  }

  function Items(pat: CString, i: nat := 0): seq<Item>
    requires i <= |pat|
    decreases |pat| - i
  {
    if i == |pat| then [] else [ItemAt(pat, i)] + Items(pat, i + Width(pat, i))
  }

  predicate Fits(item: Item, piece: string) {
    match item
    case Run => true
    case One => |piece| == 1
    case Exactly(c) => piece == [c]
    case Broken => false
  }

  function Join(pieces: seq<string>): string {
    if pieces == [] then "" else pieces[0] + Join(pieces[1..])
  }

  ghost predicate IsSplit(items: seq<Item>, pieces: seq<string>, text: string) {
    && |pieces| == |items|
    && Join(pieces) == text
    && forall i :: 0 <= i < |items| ==> Fits(items[i], pieces[i])
  }

  // The text can be cut into consecutive pieces, one for each item of the pattern.
  ghost predicate Splits(items: seq<Item>, text: string) {
    exists pieces :: IsSplit(items, pieces, text)
  }

  // ---- The same relation between a pattern suffix and a text suffix ----

  ghost predicate MatchFrom(pat: CString, i: nat, text: CString, j: nat)
    requires i <= |pat| && j <= |text|
    decreases |pat| - i
  {
    if i == |pat| then j == |text|
    else if pat[i] == '*' then var rest := i + 1; exists k :: j <= k <= |text| && MatchFrom(pat, rest, text, k)
    else if pat[i] == '?' then j < |text| && MatchFrom(pat, i + 1, text, j + 1)
    else if pat[i] != '\\' then j < |text| && text[j] == pat[i] && MatchFrom(pat, i + 1, text, j + 1)
    else i + 1 < |pat| && j < |text| && text[j] == pat[i + 1] && MatchFrom(pat, i + 2, text, j + 1)
  }

  ghost predicate MatchLater(pat: CString, i: nat, text: CString, j: nat)
    requires i <= |pat| && j <= |text|
  {
    exists k :: j <= k <= |text| && MatchFrom(pat, i, text, k)
  }

  lemma SplitNothing(text: string)
    ensures Splits([], text) <==> text == ""
  {
    if text == "" { assert IsSplit([], [], text); }
    if Splits([], text) {
      var pieces: seq<string> :| IsSplit([], pieces, text);
    }
  }

  lemma SplitCons(item: Item, rest: seq<Item>, piece: string, tail: string)
    requires Fits(item, piece) && Splits(rest, tail)
    ensures Splits([item] + rest, piece + tail)
  {
    var pieces :| IsSplit(rest, pieces, tail);
    assert IsSplit([item] + rest, [piece] + pieces, piece + tail);
  }

  lemma SplitHead(item: Item, rest: seq<Item>, text: string) returns (k: nat)
    requires Splits([item] + rest, text)
    ensures k <= |text| && Fits(item, text[..k]) && Splits(rest, text[k..])
  {
    var items := [item] + rest;
    var pieces :| IsSplit(items, pieces, text);
    k := |pieces[0]|;
    assert Fits(items[0], pieces[0]) && text[..k] == pieces[0];
    forall i | 0 <= i < |rest| ensures Fits(rest[i], pieces[1..][i]) {
      assert Fits(items[i + 1], pieces[i + 1]);
    }
    assert IsSplit(rest, pieces[1..], text[k..]);
  }

  // ---- The same meaning, character by character ----

  lemma {:induction false} ItemsBehind(pat: CString, w: nat, i: nat)
    requires w <= i <= |pat|
    ensures Items(pat, i) == Items(pat[w..], i - w)
    decreases |pat| - i
  {
    hide ItemAt, Width;
    if i < |pat| {
      ItemBehind(pat, w, i);
      ItemsBehind(pat, w, i + Width(pat, i));
    }
  }

  lemma ItemBehind(pat: CString, w: nat, i: nat)
    requires w <= i < |pat|
    ensures ItemAt(pat[w..], i - w) == ItemAt(pat, i) && Width(pat[w..], i - w) == Width(pat, i)
    ensures i < i + Width(pat, i) <= |pat|
  {
  }

  lemma HeadSplits(pat: CString, text: string)
    requires pat != ""
    ensures Splits(Items(pat), text) <==>
      exists k :: 0 <= k <= |text| && Fits(ItemAt(pat, 0), text[..k]) && Splits(Items(pat[Width(pat, 0)..]), text[k..])
  {
    hide Splits;
    var w, item := Width(pat, 0), ItemAt(pat, 0);
    ItemsBehind(pat, w, w);
    assert Items(pat) == [item] + Items(pat[w..]);
    if Splits(Items(pat), text) { var k := SplitHead(item, Items(pat[w..]), text); }
    forall k | 0 <= k <= |text| && Fits(item, text[..k]) && Splits(Items(pat[w..]), text[k..])
      ensures Splits(Items(pat), text)
    {
      SplitCons(item, Items(pat[w..]), text[..k], text[k..]);
      assert text[..k] + text[k..] == text;
    }
  }

  // A star is any run, a question mark one character, a backslash makes the next character literal and
  // matches nothing at the end, and every other character is itself.
  lemma PatternMeans(pat: CString, text: string)
    ensures Splits(Items(pat), text) <==>
      if pat == "" then text == ""
      else if pat[0] == '*' then exists k :: 0 <= k <= |text| && Splits(Items(pat[1..]), text[k..])
      else if pat[0] == '?' then text != "" && Splits(Items(pat[1..]), text[1..])
      else if pat[0] == '\\' then
        |pat| > 1 && text != "" && text[0] == pat[1] && Splits(Items(pat[2..]), text[1..])
      else text != "" && text[0] == pat[0] && Splits(Items(pat[1..]), text[1..])
  {
    hide Splits, Items;
    if pat == "" {
      NoItems();
      SplitNothing(text);
    } else {
      HeadSplits(pat, text);
      assert text != "" ==> |text[..1]| == 1 && text[..1] == [text[0]];
    }
  }

  lemma NoItems()
    ensures Items("") == []
  {
  }

  // One item takes text[j..k], the rest of the pattern the rest of the text.
  ghost predicate Cut(pat: CString, i: nat, text: CString, j: nat, k: nat)
    requires i < |pat| && j <= k <= |text|
  {
    Fits(ItemAt(pat, i), text[j..k]) && MatchFrom(pat, i + Width(pat, i), text, k)
  }

  lemma MatchFromCuts(pat: CString, i: nat, text: CString, j: nat)
    requires i < |pat| && j <= |text|
    ensures MatchFrom(pat, i, text, j) <==> exists k :: j <= k <= |text| && Cut(pat, i, text, j, k)
  {
    if MatchFrom(pat, i, text, j) {
      if pat[i] == '*' {
        assert MatchFrom(pat, i, text, j);
        assert MatchLater(pat, i + 1, text, j);
        var k: nat :| j <= k <= |text| && MatchFrom(pat, i + 1, text, k);
        assert Cut(pat, i, text, j, k);
      } else {
        assert Cut(pat, i, text, j, j + 1);
      }
    }
    forall k | j <= k <= |text| && Cut(pat, i, text, j, k) ensures MatchFrom(pat, i, text, j) {
      if pat[i] != '*' {
        assert |text[j..k]| == 1 && text[j..k][0] == text[j];
      }
    }
  }

  lemma CutThenSplit(pat: CString, i: nat, text: CString, j: nat, k: nat)
    requires i < |pat| && j <= k <= |text|
    requires Fits(ItemAt(pat, i), text[j..k]) && Splits(Items(pat, i + Width(pat, i)), text[k..])
    ensures Splits(Items(pat, i), text[j..])
  {
    var item, rest := ItemAt(pat, i), Items(pat, i + Width(pat, i));
    hide Items, Splits, Fits;
    assert text[j..k] + text[k..] == text[j..];
    SplitCons(item, rest, text[j..k], text[k..]);
  }

  lemma SplitThenCut(pat: CString, i: nat, text: CString, j: nat) returns (k: nat)
    requires i < |pat| && j <= |text| && Splits(Items(pat, i), text[j..])
    ensures j <= k <= |text|
    ensures Fits(ItemAt(pat, i), text[j..k]) && Splits(Items(pat, i + Width(pat, i)), text[k..])
  {
    var item, rest := ItemAt(pat, i), Items(pat, i + Width(pat, i));
    hide Items, Splits, Fits;
    var d := SplitHead(item, rest, text[j..]);
    k := j + d;
    assert text[j..][..d] == text[j..k] && text[j..][d..] == text[k..];
  }

  lemma {:induction false} MatchFromIsSplits(pat: CString, i: nat, text: CString, j: nat)
    requires i <= |pat| && j <= |text|
    ensures MatchFrom(pat, i, text, j) <==> Splits(Items(pat, i), text[j..])
    decreases |pat| - i
  {
    if i == |pat| {
      SplitNothing(text[j..]);
    } else {
      MatchFromCuts(pat, i, text, j);
      hide Splits, MatchFrom, Fits, Items, ItemAt;
      forall k | j <= k <= |text|
        ensures Cut(pat, i, text, j, k) <==>
                Fits(ItemAt(pat, i), text[j..k]) && Splits(Items(pat, i + Width(pat, i)), text[k..])
      {
        MatchFromIsSplits(pat, i + Width(pat, i), text, k);
      }
      if k :| j <= k <= |text| && Cut(pat, i, text, j, k) {
        CutThenSplit(pat, i, text, j, k);
      }
      if Splits(Items(pat, i), text[j..]) {
        var k := SplitThenCut(pat, i, text, j);
        assert Cut(pat, i, text, j, k);
      }
    }
  }

  // ---- Why only the last '*' has to be retried ----

  // Wherever pat[ma..m] starts in the text, at na or later, it takes exactly d characters.
  ghost predicate Takes(pat: CString, ma: nat, m: nat, text: CString, na: nat, d: nat)
    requires ma <= m <= |pat|
  {
    forall k :: na <= k <= |text| && MatchFrom(pat, ma, text, k) ==>
      k + d <= |text| && MatchFrom(pat, m, text, k + d)
  }

  // pat[ma..m] takes any d characters at all.
  ghost predicate TakesAny(pat: CString, ma: nat, m: nat, text: CString, d: nat)
    requires ma <= m <= |pat|
  {
    forall k: nat :: k + d <= |text| && MatchFrom(pat, m, text, k + d) ==> MatchFrom(pat, ma, text, k)
  }

  // The state of the search: positions m and n in pattern and text, the positions ma and na
  // behind the last '*' (-1 for none), and whether only '?' came since.
  ghost predicate OnTrack(pat: CString, text: CString, m: nat, n: nat, ma: int, na: int, just: bool) {
    && m <= |pat| && n <= |text| && -1 <= ma <= m && -1 <= na <= n
    && (ma == -1 <==> na == -1)
    && if ma == -1 then !just && (MatchFrom(pat, 0, text, 0) <==> MatchFrom(pat, m, text, n))
       else
         && (MatchFrom(pat, 0, text, 0) <==> MatchLater(pat, ma, text, na))
         && Takes(pat, ma, m, text, na, n - na)
         && (MatchFrom(pat, m, text, n) ==> MatchFrom(pat, ma, text, na))
         && (just ==> TakesAny(pat, ma, m, text, n - na))
  }

  // A second '*': an earlier one never needs to end later than na.
  lemma NewStar(pat: CString, text: CString, m: nat, n: nat, ma: int, na: int, just: bool)
    requires OnTrack(pat, text, m, n, ma, na, just) && m < |pat| && pat[m] == '*'
    ensures OnTrack(pat, text, m + 1, n, m + 1, n, true)
  {
    if ma != -1 && MatchLater(pat, ma, text, na) {
      var k :| na <= k <= |text| && MatchFrom(pat, ma, text, k);
      assert MatchFrom(pat, m, text, k + (n - na));
      assert MatchLater(pat, m + 1, text, k + (n - na));
    }
    assert MatchLater(pat, m + 1, text, n) <==> MatchFrom(pat, m, text, n);
    if ma != -1 && MatchFrom(pat, m, text, n) {
      assert MatchFrom(pat, ma, text, na);
    }
  }

  // A '?' or a literal equal to text[n], of width w in the pattern.
  lemma OneMore(pat: CString, text: CString, m: nat, n: nat, ma: int, na: int, just: bool, w: nat)
    requires OnTrack(pat, text, m, n, ma, na, just) && n < |text| && m < |pat| && pat[m] != '*'
    requires if pat[m] == '?' then w == 1
             else if pat[m] == '\\' then w == 2 && m + 1 < |pat| && pat[m + 1] == text[n]
             else w == 1 && pat[m] == text[n]
    ensures OnTrack(pat, text, m + w, n + 1, ma, na, just && pat[m] == '?')
  {
  }

  // No match here, but text is left: the last '*' takes one character more.
  lemma Retry(pat: CString, text: CString, m: nat, n: nat, ma: int, na: int, just: bool)
    requires OnTrack(pat, text, m, n, ma, na, just) && ma != -1 && n < |text|
    requires !MatchFrom(pat, m, text, n)
    ensures OnTrack(pat, text, ma, na + 1, ma, na + 1, false)
  {
  }

  // No match here, and no '*' to retry or none that could help: no match at all.
  lemma GiveUp(pat: CString, text: CString, m: nat, n: nat, ma: int, na: int, just: bool)
    requires OnTrack(pat, text, m, n, ma, na, just) && !MatchFrom(pat, m, text, n)
    requires ma == -1 || forall j :: n <= j <= |text| ==> !MatchFrom(pat, m, text, j)
    ensures !MatchFrom(pat, 0, text, 0)
  {
    if ma != -1 {
      forall k | na <= k <= |text| ensures !MatchFrom(pat, ma, text, k) {
        assert k + (n - na) <= |text| ==> !MatchFrom(pat, m, text, k + (n - na));
      }
    }
  }

  // The item at m does not take the character at n: a '?' or literal at the end of the text, the end
  // of the pattern before the end of the text, or another literal.
  lemma Mismatch(pat: CString, m: nat, text: CString, n: nat)
    requires m <= |pat| && n <= |text|
    requires if m == |pat| then n < |text|
             else if pat[m] == '?' then n == |text|
             else if pat[m] == '\\' then n == |text| || m + 1 == |pat| || pat[m + 1] != text[n]
             else pat[m] != '*' && (n == |text| || pat[m] != text[n])
    ensures !MatchFrom(pat, m, text, n)
  {
  }

  lemma LoneBackslash(pat: CString, m: nat, text: CString, n: nat)
    requires m + 1 == |pat| && pat[m] == '\\' && n <= |text|
    ensures forall j: nat :: j <= |text| ==> !MatchFrom(pat, m, text, j)
  {
  }

  // The pattern is used up: a match if the text is too, or if a trailing '*' can absorb the rest.
  lemma PatternDone(pat: CString, text: CString, n: nat, ma: int, na: int, just: bool)
    requires OnTrack(pat, text, |pat|, n, ma, na, just) && (just || n == |text|)
    ensures MatchFrom(pat, 0, text, 0)
  {
    if ma != -1 {
      var k := |text| - (n - na);
      assert MatchFrom(pat, |pat|, text, k + (n - na));
      assert just ==> MatchFrom(pat, ma, text, k);
    }
  }

  // ---- The matcher ----

  // `ma` and `na` are the positions behind the last '*' seen; the null pointer is -1.
  method MatchWild(pat: CString, text: CString, dotSpecial: bool) returns (matched: bool)
    ensures matched <==>
      if text == "" then pat == ""
      else !(dotSpecial && text[0] == '.') && Splits(Items(pat), text)
  {
    if text == "" {
      return pat == "";
    }
    var m: nat, n: nat := 0, 0;
    var ma: int, na: int := -1, -1;
    var just := false;
    if dotSpecial && text[0] == '.' {
      return false;
    }
    assert MatchFrom(pat, 0, text, 0) <==> Splits(Items(pat), text) by {
      MatchFromIsSplits(pat, 0, text, 0);
      assert text[0..] == text;
    }

    assert OnTrack(pat, text, m, n, ma, na, just);
    hide MatchFrom, MatchLater, Takes, TakesAny, Splits, Items;

    while true
      invariant OnTrack(pat, text, m, n, ma, na, just)
      decreases |pat| - ma, |text| - na, |pat| - m
    {
      if At(pat, m) == '*' {
        NewStar(pat, text, m, n, ma, na, just);
        m := m + 1;
        ma, na, just := m, n, true;
      } else if At(pat, m) == '?' {
        if n < |text| { OneMore(pat, text, m, n, ma, na, just, 1); }
        ghost var m0 := m;
        m := m + 1;
        if At(text, n) == '\0' {
          Mismatch(pat, m0, text, n);
          GiveUp(pat, text, m0, n, ma, na, just);
          return false;
        }
        n := n + 1;
      } else {
        ghost var m0 := m;
        ghost var just0 := just;
        if At(pat, m) == '\\' {
          m := m + 1;
          if At(pat, m) == '\0' {
            LoneBackslash(pat, m0, text, n);
            GiveUp(pat, text, m0, n, ma, na, just);
            return false;
          }
        }
        if At(pat, m) == '\0' {
          if At(text, n) == '\0' || just {
            PatternDone(pat, text, n, ma, na, just);
            return true;
          }
        }
        just := false;
        if At(pat, m) == At(text, n) {
          OneMore(pat, text, m0, n, ma, na, just0, m + 1 - m0);
          m := m + 1;
          n := n + 1;
        } else {
          Mismatch(pat, m0, text, n);
          if At(text, n) == '\0' || ma == -1 {
            GiveUp(pat, text, m0, n, ma, na, just0);
            return false;
          }
          Retry(pat, text, m0, n, ma, na, just0);
          na := na + 1;
          m, n := ma, na;
        }
      }
    }
  }

  // ---- The empty text ----

  lemma {:induction false} EmptyFrom(pat: CString, i: nat)
    requires i <= |pat|
    ensures MatchFrom(pat, i, "", 0) <==> forall k :: i <= k < |pat| ==> pat[k] == '*'
    decreases |pat| - i
  {
    if i < |pat| && pat[i] == '*' {
      EmptyFrom(pat, i + 1);
    }
  }

  predicate OnlyStars(pat: CString) {
    forall k :: 0 <= k < |pat| ==> pat[k] == '*'
  }

  // On the empty text only the empty pattern is accepted, so a pattern of nothing but '*' is
  // refused although it means "any text"; on every other pattern the answer is the pattern's meaning.
  lemma EmptyText(pat: CString)
    ensures Splits(Items(pat), "") <==> OnlyStars(pat)
    ensures ((pat == "") == Splits(Items(pat), "")) <==> (pat == "" || !OnlyStars(pat))
    ensures "*" != "" && Splits(Items("*"), "")
  {
    EmptyFrom(pat, 0);
    MatchFromIsSplits(pat, 0, "", 0);
    EmptyFrom("*", 0);
    MatchFromIsSplits("*", 0, "", 0);
    assert ""[0..] == "";
  }
}
