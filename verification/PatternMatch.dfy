// The wildcard-to-regex compiler of common/eda_pattern_match.cpp, proved to preserve meaning.
module PatternMatch {
  import opened Glob
  import opened Options

  // ---- A reader for the part of the regex language that the compiler emits ----

  datatype Atom = AnyChar | Literal(c: char)
  datatype Node = LineStart | LineEnd | Once(atom: Atom) | Many(atom: Atom)

  // The characters with a meaning in the regex language.
  predicate IsSpecial(c: char) {
    || c == '.' || c == '*' || c == '+' || c == '?' || c == '^' || c == '$' || c == '{' || c == '}'
    || c == '(' || c == ')' || c == '|' || c == '[' || c == ']' || c == '\\'
  }

  predicate IsAlnum(c: char) {
    'a' <= c <= 'z' || 'A' <= c <= 'Z' || '0' <= c <= '9'
  }

  // One atom and the number of characters it takes. A backslash in front of a letter or digit has
  // meanings of its own and is not read; neither is a bare special character other than '.'.
  function ReadAtom(r: string): Option<(Atom, nat)>
    requires r != ""
  {
    if r[0] == '\\' then
      if |r| >= 2 && !IsAlnum(r[1]) then Some((Literal(r[1]), 2)) else None
    else if r[0] == '.' then Some((AnyChar, 1))
    else if !IsSpecial(r[0]) then Some((Literal(r[0]), 1))
    else None
  }

  function ReadRegex(r: string): Option<seq<Node>> {
    if r == "" then Some([])
    else if r[0] == '^' || r[0] == '$' then
      match ReadRegex(r[1..])
      case None => None
      case Some(rest) => Some([if r[0] == '^' then LineStart else LineEnd] + rest)
    else
      match ReadAtom(r)
      case None => None
      case Some((atom, width)) =>
        var starred := width < |r| && r[width] == '*';
        match ReadRegex(r[if starred then width + 1 else width..])
        case None => None
        case Some(rest) => Some([if starred then Many(atom) else Once(atom)] + rest)
  }

  predicate AtomFits(atom: Atom, c: char) {
    atom == AnyChar || atom == Literal(c)
  }

  predicate AllFit(atom: Atom, s: string, i: nat, j: nat)
    requires i <= j <= |s|
  {
    forall k :: i <= k < j ==> AtomFits(atom, s[k])
  }

  // The nodes match s[i..j].
  ghost predicate NodesMatch(nodes: seq<Node>, s: string, i: nat, j: nat)
    requires i <= j <= |s|
  {
    if nodes == [] then i == j
    else
      var rest := nodes[1..];
      match nodes[0]
      case LineStart => i == 0 && NodesMatch(rest, s, i, j)
      case LineEnd => i == |s| && NodesMatch(rest, s, i, j)
      case Once(atom) => i < j && AtomFits(atom, s[i]) && NodesMatch(rest, s, i + 1, j)
      case Many(atom) => exists e ::
        i <= e <= j && AllFit(atom, s, i, e) && NodesMatch(rest, s, e, j)
  }

  // A regex search succeeds when some substring matches.
  ghost predicate Search(nodes: seq<Node>, s: string) {
    exists i, j :: 0 <= i <= j <= |s| && NodesMatch(nodes, s, i, j)
  }

  // ---- The meaning of a wildcard: '*' and '?', everything else literal ----

  function WildcardItems(w: string): seq<Item> {
    if w == "" then []
    else [if w[0] == '*' then Run else if w[0] == '?' then One else Exactly(w[0])] + WildcardItems(w[1..])
  }

  // ---- What the compiler emits ----

  // What it puts a backslash in front of.
  const METACHARACTERS := ".*+?^${}()|[]/\\"

  function CompileChar(c: char): string {
    if c == '?' then "."
    else if c == '*' then ".*"
    else if c in METACHARACTERS then ['\\', c]
    else [c]
  }

  function Compile(w: string): string {
    if w == "" then "" else Compile(w[..|w| - 1]) + CompileChar(w[|w| - 1])
  }

  function NodeOf(c: char): Node {
    if c == '?' then Once(AnyChar) else if c == '*' then Many(AnyChar) else Once(Literal(c))
  }

  function Nodes(w: string): seq<Node> {
    if w == "" then [] else [NodeOf(w[0])] + Nodes(w[1..])
  }

  lemma {:induction false} CompileCons(w: string)
    requires w != ""
    ensures Compile(w) == CompileChar(w[0]) + Compile(w[1..])
  {
    if |w| > 1 {
      CompileCons(w[..|w| - 1]);
      assert w[..|w| - 1][1..] == w[1..][..|w| - 2];
    } else {
      assert w[..0] == "" && w[1..] == "";
    }
  }

  lemma ReadCompiledChar(c: char, tail: string)
    requires tail == "" || tail[0] != '*'
    requires ReadRegex(tail).Some?
    ensures ReadRegex(CompileChar(c) + tail) == Some([NodeOf(c)] + ReadRegex(tail).value)
    ensures CompileChar(c)[0] != '*'
  {
  }

  lemma {:induction false} ReadCompiled(w: string, suffix: string)
    requires suffix == "" || suffix[0] != '*'
    requires ReadRegex(suffix).Some?
    ensures ReadRegex(Compile(w) + suffix) == Some(Nodes(w) + ReadRegex(suffix).value)
    ensures Compile(w) + suffix == "" || (Compile(w) + suffix)[0] != '*'
  {
    hide ReadRegex, CompileChar, NodeOf;
    if w == "" {
      assert Compile(w) + suffix == suffix && Nodes(w) + ReadRegex(suffix).value == ReadRegex(suffix).value;
    } else {
      var head, tail := CompileChar(w[0]), Compile(w[1..]) + suffix;
      assert Compile(w) + suffix == head + tail by { CompileCons(w); }
      ReadCompiled(w[1..], suffix);
      ReadCompiledChar(w[0], tail);
      var node, nodes, rest := NodeOf(w[0]), Nodes(w[1..]), ReadRegex(suffix).value;
      assert [node] + nodes + rest == [node] + (nodes + rest);
    }
  }

  // ---- The emitted text, character by character ----

  lemma {:induction false} CompileConcat(a: string, b: string)
    ensures Compile(a + b) == Compile(a) + Compile(b)
  {
    hide CompileChar;
    if b == "" {
      assert a + b == a && Compile(a) + "" == Compile(a);
    } else {
      var s, front, last := a + b, b[..|b| - 1], CompileChar(b[|b| - 1]);
      assert s[..|s| - 1] == a + front && s[|s| - 1] == b[|b| - 1];
      CompileConcat(a, front);
      JoinLast(Compile(a), Compile(front), last);
    }
  }

  lemma JoinLast(a: string, b: string, c: string)
    ensures a + b + c == a + (b + c)
  {
  }

  lemma CompileOne(c: char)
    ensures Compile([c]) ==
      if c == '*' then ".*"
      else if c == '?' then "."
      else if c in {'.', '+', '^', '$', '{', '}', '(', ')', '|', '[', ']', '/', '\\'} then "\\" + [c]
      else [c]
  {
    assert [c][..0] == "";
  }

  // Every special character and slash has a backslash in front, but for the dots of '?' and '*', and
  // every star that has none is behind such a dot.
  predicate WellEscaped(r: string, afterDot: bool) {
    if r == "" then true
    else if r[0] == '\\' then
      && |r| >= 2 && r[1] in {'.', '+', '^', '$', '{', '}', '(', ')', '|', '[', ']', '/', '\\'}
      && WellEscaped(r[2..], false)
    else if r[0] == '*' then afterDot && WellEscaped(r[1..], false)
    else
      && r[0] !in {'+', '?', '^', '$', '{', '}', '(', ')', '|', '[', ']', '/'}
      && WellEscaped(r[1..], r[0] == '.')
  }

  lemma {:induction false} EmittedIsEscaped(w: string)
    ensures WellEscaped(Compile(w), false) && WellEscaped(Compile(w), true)
  {
    if w != "" {
      EmittedIsEscaped(w[1..]);
      CompileCons(w);
      OneMoreEscaped(w[0], Compile(w[1..]));
    }
  }

  lemma OneMoreEscaped(c: char, rest: string)
    requires WellEscaped(rest, false) && WellEscaped(rest, true)
    ensures WellEscaped(CompileChar(c) + rest, false) && WellEscaped(CompileChar(c) + rest, true)
  {
    var r := CompileChar(c) + rest;
    if c == '*' {
      assert r[1..][0] == '*' && r[1..][1..] == rest;
      assert WellEscaped(r[1..], true);
    } else if |CompileChar(c)| == 2 {
      assert r[2..] == rest;
    } else {
      assert r[1..] == rest;
    }
  }

  // ---- The compiled regex has the wildcard's meaning ----

  lemma {:induction false} NodesMatchIsSplits(w: string, s: string, i: nat, j: nat)
    requires i <= j <= |s|
    ensures NodesMatch(Nodes(w), s, i, j) <==> Splits(WildcardItems(w), s[i..j])
  {
    hide Splits;
    if w == "" {
      SplitNothing(s[i..j]);
    } else {
      var item, items := WildcardItems(w)[0], WildcardItems(w[1..]);
      assert Nodes(w)[1..] == Nodes(w[1..]);
      forall e | i <= e <= j
        ensures NodesMatch(Nodes(w[1..]), s, e, j) <==> Splits(items, s[e..j])
      {
        NodesMatchIsSplits(w[1..], s, e, j);
      }
      if NodesMatch(Nodes(w), s, i, j) {
        var e := i + 1;
        if w[0] == '*' {
          assert Nodes(w)[0] == Many(AnyChar);
          e :| i <= e <= j && AllFit(AnyChar, s, i, e) && NodesMatch(Nodes(w)[1..], s, e, j);
        }
        SplitCons(item, items, s[i..e], s[e..j]);
        assert s[i..e] + s[e..j] == s[i..j];
      }
      if Splits([item] + items, s[i..j]) {
        var d := SplitHead(item, items, s[i..j]);
        assert s[i..j][..d] == s[i..i + d] && s[i..j][d..] == s[i + d..j];
      }
    }
  }

  lemma ReadUnanchored(w: string)
    ensures ReadRegex(Compile(w)) == Some(Nodes(w))
  {
    ReadCompiled(w, "");
    assert Compile(w) + "" == Compile(w) && Nodes(w) + [] == Nodes(w);
  }

  lemma ReadAnchored(w: string)
    ensures ReadRegex("^" + Compile(w) + "$") == Some([LineStart] + (Nodes(w) + [LineEnd]))
  {
    var end := "$";
    assert end[0] == '$' && end[1..] == "";
    var none: seq<Node> := [];
    assert ReadRegex(end[1..]) == Some(none) && [LineEnd] + none == [LineEnd];
    assert ReadRegex(end) == Some([LineEnd]);
    ReadCompiled(w, "$");
    var r := "^" + Compile(w) + "$";
    assert r[1..] == Compile(w) + "$";
  }

  // '^' in front and '$' behind restrict a search to whole-string matches.
  lemma {:induction false} EndNode(nodes: seq<Node>, s: string, i: nat, j: nat)
    requires i <= j <= |s|
    ensures NodesMatch(nodes + [LineEnd], s, i, j) <==> j == |s| && NodesMatch(nodes, s, i, j)
  {
    var all := nodes + [LineEnd];
    if nodes == [] {
      assert all == [LineEnd] && all[1..] == [];
    } else {
      assert all[0] == nodes[0] && all[1..] == nodes[1..] + [LineEnd];
      forall e | i <= e <= j
        ensures NodesMatch(nodes[1..] + [LineEnd], s, e, j) <==> j == |s| && NodesMatch(nodes[1..], s, e, j)
      {
        EndNode(nodes[1..], s, e, j);
      }
    }
  }

  ghost predicate SomeSubstringFits(w: string, s: string) {
    exists i, j :: 0 <= i <= j <= |s| && Splits(WildcardItems(w), s[i..j])
  }

  // Unanchored, a wildcard is found in exactly the texts with a substring of its form.
  lemma SearchUnanchored(w: string, s: string)
    ensures Search(Nodes(w), s) <==> SomeSubstringFits(w, s)
  {
    forall i, j | 0 <= i <= j <= |s|
      ensures NodesMatch(Nodes(w), s, i, j) <==> Splits(WildcardItems(w), s[i..j])
    {
      NodesMatchIsSplits(w, s, i, j);
    }
  }

  // Anchored, it is found in exactly the texts of its form.
  lemma SearchAnchored(w: string, s: string)
    ensures Search([LineStart] + (Nodes(w) + [LineEnd]), s) <==> Splits(WildcardItems(w), s)
  {
    var nodes := [LineStart] + (Nodes(w) + [LineEnd]);
    assert nodes[1..] == Nodes(w) + [LineEnd];
    forall i, j | 0 <= i <= j <= |s|
      ensures NodesMatch(nodes, s, i, j) <==> i == 0 && j == |s| && NodesMatch(Nodes(w), s, i, j)
    {
      EndNode(Nodes(w), s, i, j);
    }
    NodesMatchIsSplits(w, s, 0, |s|);
    assert s[0..|s|] == s;
  }

  // Without a backslash both dialects read a pattern alike, so the anchored form accepts exactly
  // what MatchWild promises (for a text that is not empty and without the leading-dot rule).
  lemma {:induction false} SameItems(w: CString, i: nat)
    requires '\\' !in w && i <= |w|
    ensures WildcardItems(w[i..]) == Items(w, i)
    decreases |w| - i
  {
    if i < |w| {
      SameItems(w, i + 1);
      assert w[i..][1..] == w[i + 1..];
    }
  }

  lemma AgreesWithMatchWild(w: CString, s: string)
    requires '\\' !in w
    ensures Search([LineStart] + (Nodes(w) + [LineEnd]), s) <==> Splits(Items(w), s)
  {
    SearchAnchored(w, s);
    SameItems(w, 0);
    assert w[0..] == w;
  }

  // ---- The matcher objects ----

  predicate StartsWith(s: string, c: char) { s != "" && s[0] == c }

  predicate EndsWith(s: string, c: char) { s != "" && s[|s| - 1] == c }

  class WildcardMatch {
    var wildcardPattern: string
    var pattern: string
    var regex: Option<seq<Node>>  // what the regex library makes of `pattern`

    constructor () {
      wildcardPattern, pattern, regex := "", "", None;
    }

    ghost predicate Finds(candidate: string)
      reads this
    {
      regex.Some? && Search(regex.value, candidate)
    }

    // Regular expressions must be explicit: "^...$" is kept as it is, "/..." loses the slash in front
    // and one at the end. The result says whether the pattern compiles.
    method SetRegex(p: string) returns (ok: bool)
      modifies this`pattern, this`regex
      ensures StartsWith(p, '^') && EndsWith(p, '$') ==> pattern == p
      ensures !(StartsWith(p, '^') && EndsWith(p, '$')) && StartsWith(p, '/') ==>
        p == "/" + pattern || p == "/" + pattern + "/"
      ensures !(StartsWith(p, '^') && EndsWith(p, '$')) && StartsWith(p, '/') && p != "/" && EndsWith(p, '/') ==>
        p == "/" + pattern + "/"
      ensures !(StartsWith(p, '^') && EndsWith(p, '$')) && !StartsWith(p, '/') ==>
        !ok && pattern == old(pattern) && regex == old(regex)
      ensures (StartsWith(p, '^') && EndsWith(p, '$')) || StartsWith(p, '/') ==>
        regex == ReadRegex(pattern) && ok == regex.Some?
    {
      if StartsWith(p, '^') && EndsWith(p, '$') {
        pattern := p;
      } else if StartsWith(p, '/') {
        pattern := p[1..];
        if EndsWith(pattern, '/') {
          pattern := pattern[..|pattern| - 1];
        }
      } else {
        return false;
      }
      regex := ReadRegex(pattern);
      return regex.Some?;
    }

    // EDA_PATTERN_MATCH_WILDCARD
    method SetWildcard(w: string) returns (ok: bool)
      modifies this
      ensures ok && wildcardPattern == w && pattern == Compile(w)
      ensures forall s :: Finds(s) <==> SomeSubstringFits(w, s)
    {
      hide Splits, Search, NodesMatch, ReadRegex, Nodes, SomeSubstringFits;
      wildcardPattern := w;
      var r := "";
      for i := 0 to |w|
        invariant r == Compile(w[..i])
      {
        assert w[..i + 1][..i] == w[..i];
        var c := w[i];
        if c == '?' {
          r := r + ".";
        } else if c == '*' {
          r := r + ".*";
        } else if c in METACHARACTERS {
          r := r + "\\";
          r := r + [c];
        } else {
          r := r + [c];
        }
      }
      assert w[..|w|] == w;
      var slashed := "/" + r + "/";
      ok := SetRegex(slashed);
      assert pattern == slashed[1..|slashed| - 1] == r;
      ReadUnanchored(w);
      forall s ensures Finds(s) <==> SomeSubstringFits(w, s) {
        SearchUnanchored(w, s);
      }
    }

    // EDA_PATTERN_MATCH_WILDCARD_ANCHORED
    method SetWildcardAnchored(w: string) returns (ok: bool)
      modifies this
      ensures ok && wildcardPattern == w && pattern == "^" + Compile(w) + "$"
      ensures forall s :: Finds(s) <==> Splits(WildcardItems(w), s)
    {
      hide Splits, Search, NodesMatch, ReadRegex, Nodes;
      wildcardPattern := w;
      var r := "^";
      for i := 0 to |w|
        invariant r == "^" + Compile(w[..i])
      {
        assert w[..i + 1][..i] == w[..i];
        var c := w[i];
        if c == '?' {
          r := r + ".";
        } else if c == '*' {
          r := r + ".*";
        } else if c in METACHARACTERS {
          r := r + "\\";
          r := r + [c];
        } else {
          r := r + [c];
        }
      }
      assert w[..|w|] == w;
      r := r + "$";
      ok := SetRegex(r);
      ReadAnchored(w);
      forall s ensures Finds(s) <==> Splits(WildcardItems(w), s) {
        SearchAnchored(w, s);
      }
    }
  }
}
