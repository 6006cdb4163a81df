// EDA_ITEM::Matches and EDA_ITEM::Replace of common/eda_item.cpp agree on what a match is.
module SearchReplace {

  // Whole-word search, or any other mode (which Replace treats as plain).
  datatype Search = Search(findString: string, replaceString: string, matchCase: bool, wholeWord: bool,
                           searchAndReplace: bool)

  // The character functions of the platform: upper case, and letter or digit.
  datatype Characters = Characters(upper: char -> char, isAlnum: char -> bool)

  predicate IsWordChar(ch: Characters, c: char) { ch.isAlnum(c) || c == '_' }

  function Upper(ch: Characters, s: string): (u: string)
    ensures |u| == |s|
  {
    seq(|s|, i requires 0 <= i < |s| => ch.upper(s[i]))
  }

  function Folded(ch: Characters, d: Search, s: string): (f: string)
    ensures |f| == |s|
  {
    if d.matchCase then s else Upper(ch, s)
  }

  // ---- What a match is ----

  predicate OccursAt(text: string, s: string, k: nat) {
    k + |s| <= |text| && text[k..k + |s|] == s
  }

  // An occurrence that, for whole-word search, has no word character before or behind it.
  predicate Qualifies(ch: Characters, text: string, s: string, wholeWord: bool, k: nat) {
    && OccursAt(text, s, k)
    && (wholeWord ==>
          && (k == 0 || !IsWordChar(ch, text[k - 1]))
          && (k + |s| == |text| || !IsWordChar(ch, text[k + |s|])))
  }

  // ---- Leftmost non-overlapping matches ----

  ghost predicate NoneIn(ch: Characters, text: string, s: string, wholeWord: bool, from: nat, to: nat) {
    forall k: nat :: from <= k < to ==> !Qualifies(ch, text, s, wholeWord, k)
  }

  // Each match is the first one behind the end of the one before, and none is left out.
  ghost predicate Leftmost(ch: Characters, text: string, s: string, wholeWord: bool, from: nat, matches: seq<nat>)
    decreases |matches|
  {
    if matches == [] then NoneIn(ch, text, s, wholeWord, from, |text|)
    else
      && from <= matches[0] < |text| && Qualifies(ch, text, s, wholeWord, matches[0])
      && NoneIn(ch, text, s, wholeWord, from, matches[0])
      && Leftmost(ch, text, s, wholeWord, matches[0] + |s|, matches[1..])
  }

  lemma {:induction false} LeftmostUnique(ch: Characters, text: string, s: string, wholeWord: bool, from: nat,
      a: seq<nat>, b: seq<nat>)
    requires Leftmost(ch, text, s, wholeWord, from, a) && Leftmost(ch, text, s, wholeWord, from, b)
    ensures a == b
    decreases |a|
  {
    if a != [] && b != [] {
      assert a[0] == b[0];
      LeftmostUnique(ch, text, s, wholeWord, a[0] + |s|, a[1..], b[1..]);
      assert a == [a[0]] + a[1..] && b == [b[0]] + b[1..];
    }
  }

  ghost predicate Separated(length: nat, from: nat, matches: seq<nat>, w: nat) {
    && from <= length
    && (forall i :: 0 <= i < |matches| ==> from <= matches[i] && matches[i] + w <= length)
    && (forall i, j :: 0 <= i < j < |matches| ==> matches[i] + w <= matches[j])
  }

  lemma SeparatedFront(length: nat, from: nat, matches: seq<nat>, k: nat, w: nat)
    requires Separated(length, from, matches + [k], w)
    ensures from <= k && k + w <= length && Separated(k, from, matches, w)
  {
    var all := matches + [k];
    assert all[|matches|] == k && forall i :: 0 <= i < |matches| ==> all[i] == matches[i];
  }

  lemma SeparatedTail(length: nat, from: nat, matches: seq<nat>, w: nat)
    requires Separated(length, from, matches, w)
    ensures from <= length
    ensures matches != [] ==>
      && from <= matches[0] && matches[0] + w <= length
      && Separated(length, matches[0] + w, matches[1..], w)
  {
  }

  // The original text with the matches (of width w) replaced and every other character kept.
  ghost function Spliced(original: string, from: nat, matches: seq<nat>, w: nat, replacement: string): string
    requires Separated(|original|, from, matches, w)
    decreases |matches|
  {
    SeparatedTail(|original|, from, matches, w);
    if matches == [] then original[from..]
    else original[from..matches[0]] + replacement + Spliced(original, matches[0] + w, matches[1..], w, replacement)
  }

  // Without matches the text stays; the last match is replaced between what is in front of it, where the
  // others are replaced, and what is behind it.
  lemma {:induction false} LastReplaced(original: string, from: nat, matches: seq<nat>, k: nat, w: nat,
      replacement: string)
    requires Separated(|original|, from, matches + [k], w)
    ensures Separated(|original|, 0, [], w) && Spliced(original, 0, [], w, replacement) == original
    ensures k + w <= |original| && Separated(k, from, matches, w)
    ensures Spliced(original, from, matches + [k], w, replacement)
      == Spliced(original[..k], from, matches, w, replacement) + replacement + original[k + w..]
    decreases |matches|
  {
    hide Separated;
    var all := matches + [k];
    SeparatedFront(|original|, from, matches, k, w);
    SeparatedTail(|original|, from, all, w);
    NothingReplaced(original, w, replacement);
    if matches == [] {
      assert all[1..] == [];
      assert original[..k][from..] == original[from..k];
    } else {
      var rest := matches[1..];
      assert all[0] == matches[0] && all[1..] == rest + [k];
      SeparatedTail(k, from, matches, w);
      LastReplaced(original, matches[0] + w, rest, k, w, replacement);
      assert original[..k][from..matches[0]] == original[from..matches[0]];
      var inner := Spliced(original[..k], matches[0] + w, rest, w, replacement);
      Regroup(original[from..matches[0]] + replacement, inner, replacement, original[k + w..]);
    }
  }

  lemma NothingReplaced(original: string, w: nat, replacement: string)
    ensures Separated(|original|, 0, [], w) && Spliced(original, 0, [], w, replacement) == original
  {
  }

  lemma Regroup(a: string, b: string, c: string, d: string)
    ensures a + (b + c + d) == a + b + c + d
  {
  }

  lemma {:induction false} LeftmostSeparated(ch: Characters, text: string, s: string, wholeWord: bool, from: nat,
      m: seq<nat>)
    requires from <= |text| && Leftmost(ch, text, s, wholeWord, from, m)
    ensures Separated(|text|, from, m, |s|)
    decreases |m|
  {
    if m != [] {
      var rest := m[1..];
      LeftmostSeparated(ch, text, s, wholeWord, m[0] + |s|, rest);
      forall i | 0 <= i < |m| ensures from <= m[i] && m[i] + |s| <= |text| {
        if i > 0 { assert m[i] == rest[i - 1]; }
      }
      forall i, j | 0 <= i < j < |m| ensures m[i] + |s| <= m[j] {
        assert m[j] == rest[j - 1];
        if i > 0 { assert m[i] == rest[i - 1]; }
      }
    }
  }

  // ---- The search the string library offers ----

  // The first occurrence at or behind i, or -1.
  method Find(text: string, s: string, i: nat) returns (r: int)
    requires i <= |text|
    ensures r == -1 ==> forall k: nat :: i <= k ==> !OccursAt(text, s, k)
    ensures r != -1 ==> i <= r && OccursAt(text, s, r) && r + |s| <= |text|
    ensures r != -1 ==> forall k: nat :: i <= k < r ==> !OccursAt(text, s, k)
  {
    r := i;
    while r + |s| <= |text|
      invariant i <= r
      invariant forall k: nat :: i <= k < r ==> !OccursAt(text, s, k)
    {
      if text[r..r + |s|] == s {
        return;
      }
      r := r + 1;
    }
    r := -1;
  }

  // ---- Matches ----

  // Occurrence and word limits in the text as it is: characters are the same, or have the same upper case
  // when case does not matter; no letter, digit or underscore is in front or behind.
  predicate MatchAt(ch: Characters, d: Search, text: string, k: nat) {
    && k + |d.findString| <= |text|
    && (forall i :: 0 <= i < |d.findString| ==>
          if d.matchCase then text[k + i] == d.findString[i] else ch.upper(text[k + i]) == ch.upper(d.findString[i]))
    && (d.wholeWord && k > 0 ==>
          var before := if d.matchCase then text[k - 1] else ch.upper(text[k - 1]);
          !ch.isAlnum(before) && before != '_')
    && (d.wholeWord && k + |d.findString| < |text| ==>
          var behind := k + |d.findString|;
          var c := if d.matchCase then text[behind] else ch.upper(text[behind]);
          !ch.isAlnum(c) && c != '_')
  }

  lemma MatchIsQualified(ch: Characters, d: Search, text: string, k: nat)
    ensures MatchAt(ch, d, text, k) <==> Qualifies(ch, Folded(ch, d, text), Folded(ch, d, d.findString), d.wholeWord, k)
  {
    hide Folded;
    FoldedAt(ch, d, text);
    FoldedAt(ch, d, d.findString);
    var f, s := Folded(ch, d, text), Folded(ch, d, d.findString);
    if k + |s| <= |f| {
      SameSlice(f, s, k);
      SameFolded(ch, d, text, k);
    }
  }

  lemma FoldedAt(ch: Characters, d: Search, s: string)
    ensures forall i :: 0 <= i < |s| ==> Folded(ch, d, s)[i] == if d.matchCase then s[i] else ch.upper(s[i])
  {
  }

  lemma SameFolded(ch: Characters, d: Search, text: string, k: nat)
    requires k + |d.findString| <= |text|
    ensures var f, s := Folded(ch, d, text), Folded(ch, d, d.findString);
      (forall i :: 0 <= i < |s| ==> f[k + i] == s[i]) <==>
      forall i :: 0 <= i < |d.findString| ==>
        if d.matchCase then text[k + i] == d.findString[i] else ch.upper(text[k + i]) == ch.upper(d.findString[i])
  {
    hide Folded;
    FoldedAt(ch, d, text);
    FoldedAt(ch, d, d.findString);
    var f, s := Folded(ch, d, text), Folded(ch, d, d.findString);
    forall i | 0 <= i < |s|
      ensures f[k + i] == s[i] <==>
        if d.matchCase then text[k + i] == d.findString[i] else ch.upper(text[k + i]) == ch.upper(d.findString[i])
    {
    }
  }

  lemma SameSlice(f: string, s: string, k: nat)
    requires k + |s| <= |f|
    ensures f[k..k + |s|] == s <==> forall i :: 0 <= i < |s| ==> f[k + i] == s[i]
  {
    var piece := f[k..k + |s|];
    assert forall i :: 0 <= i < |s| ==> piece[i] == f[k + i];
  }

  // A match there is; only an empty search string could match behind the text, and whole-word search
  // does not look there.
  ghost predicate HasMatch(ch: Characters, d: Search, text: string) {
    exists k: nat :: MatchAt(ch, d, text, k) && (d.wholeWord ==> k < |text|)
  }

  // Each match is the first one behind the end of the one before, and none is left out.
  ghost predicate FirstMatches(ch: Characters, d: Search, text: string, from: nat, matches: seq<nat>)
    decreases |matches|
  {
    if matches == [] then forall k: nat :: from <= k < |text| ==> !MatchAt(ch, d, text, k)
    else
      && from <= matches[0] < |text| && MatchAt(ch, d, text, matches[0])
      && (forall k: nat :: from <= k < matches[0] ==> !MatchAt(ch, d, text, k))
      && FirstMatches(ch, d, text, matches[0] + |d.findString|, matches[1..])
  }

  lemma {:induction false} FirstMatchesAreLeftmost(ch: Characters, d: Search, text: string, from: nat,
      matches: seq<nat>)
    ensures FirstMatches(ch, d, text, from, matches) <==>
      Leftmost(ch, Folded(ch, d, text), Folded(ch, d, d.findString), d.wholeWord, from, matches)
    decreases |matches|
  {
    hide MatchAt, Qualifies, Folded;
    forall k: nat
      ensures MatchAt(ch, d, text, k) <==>
        Qualifies(ch, Folded(ch, d, text), Folded(ch, d, d.findString), d.wholeWord, k)
    {
      MatchIsQualified(ch, d, text, k);
    }
    if matches != [] { FirstMatchesAreLeftmost(ch, d, text, matches[0] + |d.findString|, matches[1..]); }
  }

  // There is only one such list.
  lemma FirstMatchesUnique(ch: Characters, d: Search, text: string, a: seq<nat>, b: seq<nat>)
    requires FirstMatches(ch, d, text, 0, a) && FirstMatches(ch, d, text, 0, b)
    ensures a == b
  {
    FirstMatchesAreLeftmost(ch, d, text, 0, a);
    FirstMatchesAreLeftmost(ch, d, text, 0, b);
    LeftmostUnique(ch, Folded(ch, d, text), Folded(ch, d, d.findString), d.wholeWord, 0, a, b);
  }

  // The loop of Replace gets to its end: with an empty search string it does not move on from a match.
  ghost predicate CanEnd(ch: Characters, d: Search, text: string) {
    d.findString != "" || forall k: nat :: k < |text| ==> !MatchAt(ch, d, text, k)
  }

  lemma CanEndIsEnds(ch: Characters, d: Search, text: string)
    ensures CanEnd(ch, d, text) <==> Ends(ch, Folded(ch, d, text), Folded(ch, d, d.findString), d.wholeWord)
  {
    hide MatchAt, Qualifies, Folded;
    forall k: nat
      ensures MatchAt(ch, d, text, k) <==>
        Qualifies(ch, Folded(ch, d, text), Folded(ch, d, d.findString), d.wholeWord, k)
    {
      MatchIsQualified(ch, d, text, k);
    }
  }

  method Matches(ch: Characters, d: Search, isReplaceable: bool, aText: string) returns (found: bool)
    ensures found <==> (d.searchAndReplace ==> isReplaceable) && HasMatch(ch, d, aText)
  {
    hide IsWordChar, Upper, Folded, MatchAt;
    forall k: nat
      ensures MatchAt(ch, d, aText, k) <==>
        Qualifies(ch, Folded(ch, d, aText), Folded(ch, d, d.findString), d.wholeWord, k)
    {
      MatchIsQualified(ch, d, aText, k);
    }
    if d.searchAndReplace && !isReplaceable {
      return false;
    }
    var text, searchText := Folded(ch, d, aText), Folded(ch, d, d.findString);
    if d.wholeWord {
      var ii := 0;
      while ii < |text|
        invariant ii <= |text| && NoneIn(ch, text, searchText, true, 0, ii)
      {
        var next := Find(text, searchText, ii);
        if next == -1 {
          return false;
        }
        assert searchText == "" ==> OccursAt(text, searchText, ii);
        assert NoneIn(ch, text, searchText, true, 0, next);
        ii := next;
        next := next + |searchText|;
        var startOK := ii == 0 || !IsWordChar(ch, text[ii - 1]);
        var endOK := next == |text| || !IsWordChar(ch, text[next]);
        if startOK && endOK {
          assert Qualifies(ch, text, searchText, true, ii);
          return true;
        }
        ii := ii + 1;
      }
      return false;
    } else {
      var at := Find(text, searchText, 0);
      if at != -1 { assert Qualifies(ch, text, searchText, false, at); }
      return at != -1;
    }
  }

  // ---- Replace ----

  // The same for the texts that are compared.
  ghost predicate Ends(ch: Characters, text: string, s: string, wholeWord: bool) {
    s != "" || NoneIn(ch, text, s, wholeWord, 0, |text|)
  }

  // The matches the loop of Replace finds from position i on.
  ghost function MatchesFrom(ch: Characters, text: string, s: string, wholeWord: bool, i: nat): seq<nat>
    requires Ends(ch, text, s, wholeWord)
    decreases |text| - i
  {
    if i >= |text| then []
    else if Qualifies(ch, text, s, wholeWord, i) then [i] + MatchesFrom(ch, text, s, wholeWord, i + |s|)
    else MatchesFrom(ch, text, s, wholeWord, i + 1)
  }

  lemma {:induction false} MatchesFromIsLeftmost(ch: Characters, text: string, s: string, wholeWord: bool, i: nat)
    requires Ends(ch, text, s, wholeWord)
    ensures Leftmost(ch, text, s, wholeWord, i, MatchesFrom(ch, text, s, wholeWord, i))
    decreases |text| - i
  {
    if i < |text| {
      if Qualifies(ch, text, s, wholeWord, i) {
        MatchesFromIsLeftmost(ch, text, s, wholeWord, i + |s|);
        var m := MatchesFrom(ch, text, s, wholeWord, i);
        assert m[1..] == MatchesFrom(ch, text, s, wholeWord, i + |s|);
      } else {
        MatchesFromIsLeftmost(ch, text, s, wholeWord, i + 1);
      }
    }
  }

  lemma {:induction false} SkipTo(ch: Characters, text: string, s: string, wholeWord: bool, i: nat, j: nat)
    requires Ends(ch, text, s, wholeWord) && i <= j <= |text| && NoneIn(ch, text, s, wholeWord, i, j)
    ensures MatchesFrom(ch, text, s, wholeWord, i) == MatchesFrom(ch, text, s, wholeWord, j)
    decreases j - i
  {
    if i < j { SkipTo(ch, text, s, wholeWord, i + 1, j); }
  }

  // What the text behind position i turns into.
  ghost function Rest(ch: Characters, original: string, text: string, s: string, wholeWord: bool, i: nat,
      replacement: string): string
    requires Ends(ch, text, s, wholeWord) && |original| == |text| && i <= |text|
  {
    var m := MatchesFrom(ch, text, s, wholeWord, i);
    MatchesFromIsLeftmost(ch, text, s, wholeWord, i);
    LeftmostSeparated(ch, text, s, wholeWord, i, m);
    Spliced(original, i, m, |s|, replacement)
  }

  lemma CopyTo(ch: Characters, original: string, text: string, s: string, wholeWord: bool, i: nat, j: nat,
      replacement: string)
    requires Ends(ch, text, s, wholeWord) && |original| == |text| && i <= j <= |text|
    requires NoneIn(ch, text, s, wholeWord, i, j)
    ensures Rest(ch, original, text, s, wholeWord, i, replacement)
      == original[i..j] + Rest(ch, original, text, s, wholeWord, j, replacement)
  {
    SkipTo(ch, text, s, wholeWord, i, j);
    var m := MatchesFrom(ch, text, s, wholeWord, j);
    MatchesFromIsLeftmost(ch, text, s, wholeWord, j);
    if m == [] {
      assert original[i..] == original[i..j] + original[j..];
    } else {
      assert original[i..m[0]] == original[i..j] + original[j..m[0]];
    }
  }

  lemma {:induction false} SomeMatch(ch: Characters, text: string, s: string, wholeWord: bool)
    requires Ends(ch, text, s, wholeWord)
    ensures MatchesFrom(ch, text, s, wholeWord, 0) != [] <==>
      exists k: nat :: k < |text| && Qualifies(ch, text, s, wholeWord, k)
  {
    MatchesFromIsLeftmost(ch, text, s, wholeWord, 0);
  }

  lemma NothingOccurs(ch: Characters, text: string, s: string, wholeWord: bool, i: nat, j: nat)
    requires forall k: nat :: i <= k < j ==> !OccursAt(text, s, k)
    ensures NoneIn(ch, text, s, wholeWord, i, j)
  {
  }

  // One round of the loop: the text up to j is kept; then, if j is a match, it is replaced.
  ghost predicate Progress(ch: Characters, original: string, text: string, s: string, wholeWord: bool,
                           replacement: string,
                           result: string, replaced: bool, ii: nat)
    requires Ends(ch, text, s, wholeWord) && |original| == |text|
  {
    && ii <= |text|
    && result + Rest(ch, original, text, s, wholeWord, ii, replacement) ==
      Rest(ch, original, text, s, wholeWord, 0, replacement)
    && (MatchesFrom(ch, text, s, wholeWord, 0) != [] <==> replaced || MatchesFrom(ch, text, s, wholeWord, ii) != [])
  }

  lemma NoMatchAt(ch: Characters, text: string, s: string, wholeWord: bool, i: nat)
    requires !Qualifies(ch, text, s, wholeWord, i)
    ensures NoneIn(ch, text, s, wholeWord, i, i + 1)
  {
  }

  lemma Begin(ch: Characters, original: string, text: string, s: string, wholeWord: bool, replacement: string)
    requires Ends(ch, text, s, wholeWord) && |original| == |text|
    ensures Progress(ch, original, text, s, wholeWord, replacement, "", false, 0)
  {
  }

  lemma Finish(ch: Characters, original: string, text: string, s: string, wholeWord: bool, replacement: string,
               result: string, replaced: bool) returns (matches: seq<nat>)
    requires Ends(ch, text, s, wholeWord) && |original| == |text|
    requires Progress(ch, original, text, s, wholeWord, replacement, result, replaced, |text|)
    ensures Leftmost(ch, text, s, wholeWord, 0, matches) && Separated(|original|, 0, matches, |s|)
    ensures result == Spliced(original, 0, matches, |s|, replacement)
    ensures replaced <==> matches != []
    ensures replaced <==> exists k: nat :: k < |text| && Qualifies(ch, text, s, wholeWord, k)
  {
    matches := MatchesFrom(ch, text, s, wholeWord, 0);
    MatchesFromIsLeftmost(ch, text, s, wholeWord, 0);
    LeftmostSeparated(ch, text, s, wholeWord, 0, matches);
    SomeMatch(ch, text, s, wholeWord);
    assert MatchesFrom(ch, text, s, wholeWord, |text|) == [];
    assert Rest(ch, original, text, s, wholeWord, |text|, replacement) == "";
    assert result + "" == result;
  }

  lemma Keep(ch: Characters, original: string, text: string, s: string, wholeWord: bool, replacement: string,
             result: string, replaced: bool, i: nat, j: nat)
    requires Ends(ch, text, s, wholeWord) && |original| == |text| && i <= j <= |text|
    requires NoneIn(ch, text, s, wholeWord, i, j)
    requires Progress(ch, original, text, s, wholeWord, replacement, result, replaced, i)
    ensures Progress(ch, original, text, s, wholeWord, replacement, result + original[i..j], replaced, j)
  {
    hide Rest, MatchesFrom;
    CopyTo(ch, original, text, s, wholeWord, i, j, replacement);
    SkipTo(ch, text, s, wholeWord, i, j);
    var rest := Rest(ch, original, text, s, wholeWord, j, replacement);
    assert result + (original[i..j] + rest) == result + original[i..j] + rest;
  }

  lemma ReplaceAt(ch: Characters, original: string, text: string, s: string, wholeWord: bool, i: nat,
      replacement: string)
    requires Ends(ch, text, s, wholeWord) && |original| == |text| && i < |text| && Qualifies(ch, text, s, wholeWord, i)
    ensures i + |s| <= |text|
    ensures Rest(ch, original, text, s, wholeWord, i, replacement)
      == replacement + Rest(ch, original, text, s, wholeWord, i + |s|, replacement)
    ensures MatchesFrom(ch, text, s, wholeWord, i) != []
  {
    var m := MatchesFrom(ch, text, s, wholeWord, i);
    assert m[1..] == MatchesFrom(ch, text, s, wholeWord, i + |s|);
    assert original[i..i] == "";
  }

  lemma Substitute(ch: Characters, original: string, text: string, s: string, wholeWord: bool, replacement: string,
                   result: string, replaced: bool, i: nat)
    requires Ends(ch, text, s, wholeWord) && |original| == |text| && i < |text| && Qualifies(ch, text, s, wholeWord, i)
    requires Progress(ch, original, text, s, wholeWord, replacement, result, replaced, i)
    ensures Progress(ch, original, text, s, wholeWord, replacement, result + replacement, true, i + |s|)
  {
    hide Rest, Qualifies;
    ReplaceAt(ch, original, text, s, wholeWord, i, replacement);
    var rest := Rest(ch, original, text, s, wholeWord, i + |s|, replacement);
    assert result + (replacement + rest) == result + replacement + rest;
  }

  // Where the loop is after one round from i: behind a match, one further, or at the end.
  ghost function Round(ch: Characters, text: string, s: string, wholeWord: bool, i: nat): nat
    requires i < |text|
  {
    var p := FirstAt(text, s, i);
    if !OccursAt(text, s, p) then |text| else if Qualifies(ch, text, s, wholeWord, p) then p + |s| else p + 1
  }

  // The first occurrence at or behind i, or the end of the text.
  function FirstAt(text: string, s: string, i: nat): (p: nat)
    requires i <= |text|
    ensures i <= p <= |text| && (forall k :: i <= k < p ==> !OccursAt(text, s, k))
    ensures p < |text| ==> OccursAt(text, s, p)
    decreases |text| - i
  {
    if i == |text| || OccursAt(text, s, i) then i else FirstAt(text, s, i + 1)
  }

  ghost function Position(ch: Characters, text: string, s: string, wholeWord: bool, n: nat): nat {
    if n == 0 then 0
    else
      var i := Position(ch, text, s, wholeWord, n - 1);
      if i < |text| then Round(ch, text, s, wholeWord, i) else i
  }

  lemma {:induction false} Stuck(ch: Characters, text: string, wholeWord: bool, k: nat, n: nat)
    requires k < |text| && Qualifies(ch, text, "", wholeWord, k)
    ensures Position(ch, text, "", wholeWord, n) <= k
  {
    if n > 0 { Stuck(ch, text, wholeWord, k, n - 1); }
  }

  lemma {:induction false} MovesOn(ch: Characters, text: string, s: string, wholeWord: bool, n: nat)
    requires Ends(ch, text, s, wholeWord)
    ensures Position(ch, text, s, wholeWord, n) >= if n < |text| then n else |text|
  {
    if n > 0 { MovesOn(ch, text, s, wholeWord, n - 1); }
  }

  // The loop ends exactly when the search string is not empty or has no match in front of the end.
  lemma EndsExactly(ch: Characters, text: string, s: string, wholeWord: bool)
    ensures (exists n: nat :: Position(ch, text, s, wholeWord, n) >= |text|) <==> Ends(ch, text, s, wholeWord)
  {
    if Ends(ch, text, s, wholeWord) {
      MovesOn(ch, text, s, wholeWord, |text|);
    } else {
      var k: nat :| k < |text| && Qualifies(ch, text, s, wholeWord, k);
      forall n: nat ensures Position(ch, text, s, wholeWord, n) < |text| { Stuck(ch, text, wholeWord, k, n); }
    }
  }

  lemma ReplaceEndsExactly(ch: Characters, d: Search, text: string)
    ensures CanEnd(ch, d, text) <==>
      exists n: nat :: Position(ch, Folded(ch, d, text), Folded(ch, d, d.findString), d.wholeWord, n) >= |text|
  {
    CanEndIsEnds(ch, d, text);
    EndsExactly(ch, Folded(ch, d, text), Folded(ch, d, d.findString), d.wholeWord);
  }

  lemma EmptyMatches(ch: Characters, d: Search, text: string)
    ensures d.findString == "" && !d.wholeWord ==> MatchAt(ch, d, text, 0)
  {
  }

  lemma WhereMatchesAre(ch: Characters, d: Search, aText: string)
    requires Ends(ch, Folded(ch, d, aText), Folded(ch, d, d.findString), d.wholeWord)
    ensures d.findString != "" || aText != "" ==>
      (HasMatch(ch, d, aText) <==>
       exists k: nat :: k < |aText| && Qualifies(ch, Folded(ch, d, aText), Folded(ch, d, d.findString), d.wholeWord, k))
  {
    hide Folded;
    forall k: nat
      ensures MatchAt(ch, d, aText, k) <==>
        Qualifies(ch, Folded(ch, d, aText), Folded(ch, d, d.findString), d.wholeWord, k)
    {
      MatchIsQualified(ch, d, aText, k);
    }
    EmptyMatches(ch, d, aText);
  }

  // What Find tells the loop.
  lemma RoundIs(ch: Characters, text: string, s: string, wholeWord: bool, i: nat, next: int)
    requires i < |text|
    requires next == -1 ==> forall k: nat :: i <= k ==> !OccursAt(text, s, k)
    requires next != -1 ==> i <= next && OccursAt(text, s, next)
    requires next != -1 ==> forall k: nat :: i <= k < next ==> !OccursAt(text, s, k)
    ensures next == -1 ==> Round(ch, text, s, wholeWord, i) == |text|
    ensures next != -1 ==> next < |text|
    ensures next != -1 ==>
      Round(ch, text, s, wholeWord, i) == if Qualifies(ch, text, s, wholeWord, next) then next + |s| else next + 1
  {
    if next != -1 { assert s == "" ==> OccursAt(text, s, i); }
  }

  lemma MatchMovesOn(ch: Characters, text: string, s: string, wholeWord: bool, i: nat)
    requires Ends(ch, text, s, wholeWord) && i < |text| && Qualifies(ch, text, s, wholeWord, i)
    ensures |s| > 0
  {
  }

  // It stops for exactly the searches that do not get stuck on an empty search string; on an empty text
  // it leaves the empty match that Matches finds there.
  method Replace(ch: Characters, d: Search, aText: string) returns (newText: string, replaced: bool,
                                                               ghost matches: seq<nat>)
    requires CanEnd(ch, d, aText)
    ensures FirstMatches(ch, d, aText, 0, matches)
    ensures Separated(|aText|, 0, matches, |d.findString|)
    ensures newText == Spliced(aText, 0, matches, |d.findString|, d.replaceString)
    ensures replaced <==> matches != []
    ensures d.findString != "" || aText != "" ==> (replaced <==> HasMatch(ch, d, aText))
  {
    hide OccursAt, NoneIn, MatchesFrom, Rest, Leftmost, Separated, Spliced, Round, MatchAt, Folded;
    CanEndIsEnds(ch, d, aText);
    var text, searchText := Folded(ch, d, aText), Folded(ch, d, d.findString);
    var result := "";
    replaced := false;
    Begin(ch, aText, text, searchText, d.wholeWord, d.replaceString);
    var ii := 0;
    ghost var rounds := 0;
    while ii < |text|
      invariant ii == Position(ch, text, searchText, d.wholeWord, rounds)
      invariant Progress(ch, aText, text, searchText, d.wholeWord, d.replaceString, result, replaced, ii)
      decreases |text| - ii
    {
      var next := Find(text, searchText, ii);
      RoundIs(ch, text, searchText, d.wholeWord, ii, next);
      rounds := rounds + 1;
      if next == -1 {
        NothingOccurs(ch, text, searchText, d.wholeWord, ii, |text|);
        Keep(ch, aText, text, searchText, d.wholeWord, d.replaceString, result, replaced, ii, |text|);
        result := result + aText[ii..|text|];
        ii := |text|;
        break;
      }
      NothingOccurs(ch, text, searchText, d.wholeWord, ii, next);
      Keep(ch, aText, text, searchText, d.wholeWord, d.replaceString, result, replaced, ii, next);
      assert next == ii ==> result + aText[ii..next] == result;
      if next > ii {
        result := result + aText[ii..next];
      }
      ii := next;
      next := next + |searchText|;
      var startOK, endOK := true, true;
      if d.wholeWord {
        startOK := ii == 0 || !IsWordChar(ch, text[ii - 1]);
        endOK := next == |text| || !IsWordChar(ch, text[next]);
      }
      if startOK && endOK {
        MatchMovesOn(ch, text, searchText, d.wholeWord, ii);
        Substitute(ch, aText, text, searchText, d.wholeWord, d.replaceString, result, replaced, ii);
        result := result + d.replaceString;
        replaced := true;
        ii := next;
      } else {
        NoMatchAt(ch, text, searchText, d.wholeWord, ii);
        Keep(ch, aText, text, searchText, d.wholeWord, d.replaceString, result, replaced, ii, ii + 1);
        assert aText[ii..ii + 1] == [aText[ii]];
        result := result + [aText[ii]];
        ii := ii + 1;
      }
    }
    WhereMatchesAre(ch, d, aText);
    matches := Finish(ch, aText, text, searchText, d.wholeWord, d.replaceString, result, replaced);
    FirstMatchesAreLeftmost(ch, d, aText, 0, matches);
    newText := result;
  }
}
