// EDA_TEXT::Levenshtein of common/eda_text.cpp: the table is proved to hold the least number of
// single-character edits, over all edit scripts.
module EditDistance {

  // ---- What is being minimised: scripts of single-character edits at arbitrary positions ----

  datatype Edit = Insert(at: nat, c: char) | Delete(at: nat) | Substitute(at: nat, c: char)

  predicate Applies(e: Edit, s: string) {
    if e.Insert? then e.at <= |s| else e.at < |s|
  }

  function Apply(e: Edit, s: string): string
    requires Applies(e, s)
  {
    match e
    case Insert(at, c) => s[..at] + [c] + s[at..]
    case Delete(at) => s[..at] + s[at + 1..]
    case Substitute(at, c) => s[..at] + [c] + s[at + 1..]
  }

  // An edit changes nothing in front of its place and nothing behind it.
  lemma EditsMean(a: string, x: char, c: char, b: string)
    ensures Apply(Insert(|a|, c), a + b) == a + [c] + b
    ensures Apply(Delete(|a|), a + [x] + b) == a + b
    ensures Apply(Substitute(|a|, c), a + [x] + b) == a + [c] + b
  {
    var s := a + [x] + b;
    assert s[..|a|] == a && s[|a| + 1..] == b;
  }

  // The script, applied edit by edit, turns s into t.
  predicate Turns(script: seq<Edit>, s: string, t: string) {
    if script == [] then s == t
    else Applies(script[0], s) && Turns(script[1..], Apply(script[0], s), t)
  }

  // ---- What the table is filled with ----

  function Min(a: nat, b: nat): nat { if a <= b then a else b }

  function Max(a: nat, b: nat): nat { if a <= b then b else a }

  function Front(s: string): string
    requires s != ""
  {
    s[..|s| - 1]
  }

  function Last(s: string): char
    requires s != ""
  {
    s[|s| - 1]
  }

  function Distance(s: string, t: string): nat
    decreases |s| + |t|
  {
    if s == "" then |t|
    else if t == "" then |s|
    else if Last(s) == Last(t) then Distance(Front(s), Front(t))
    else Min(Min(Distance(Front(s), t), Distance(s, Front(t))), Distance(Front(s), Front(t))) + 1
  }

  // ---- Neighbouring cells differ by at most one ----

  lemma {:induction false} Lipschitz(s: string, t: string)
    ensures s != "" ==> Distance(s, t) <= Distance(Front(s), t) + 1 && Distance(Front(s), t) <= Distance(s, t) + 1
    ensures t != "" ==> Distance(s, t) <= Distance(s, Front(t)) + 1 && Distance(s, Front(t)) <= Distance(s, t) + 1
    decreases |s| + |t|
  {
    if s != "" && t != "" {
      Lipschitz(Front(s), t);
      Lipschitz(s, Front(t));
      Lipschitz(Front(s), Front(t));
    }
  }

  // Hence taking the diagonal outright on equal characters loses nothing, and the diagonal never
  // costs more than one.
  lemma Diagonal(s: string, t: string)
    requires s != "" && t != ""
    ensures Distance(s, t) <= Distance(Front(s), Front(t)) + (if Last(s) == Last(t) then 0 else 1)
  {
  }

  // ---- A metric ----

  lemma {:induction false} Symmetric(s: string, t: string)
    ensures Distance(s, t) == Distance(t, s)
    decreases |s| + |t|
  {
    if s != "" && t != "" {
      Symmetric(Front(s), t);
      Symmetric(s, Front(t));
      Symmetric(Front(s), Front(t));
    }
  }

  lemma {:induction false} Bounds(s: string, t: string)
    ensures Distance(s, t) <= Max(|s|, |t|)
    ensures |s| <= |t| + Distance(s, t) && |t| <= |s| + Distance(s, t)
    decreases |s| + |t|
  {
    if s != "" && t != "" {
      Bounds(Front(s), t);
      Bounds(s, Front(t));
      Bounds(Front(s), Front(t));
    }
  }

  lemma {:induction false} ZeroOnlyForEqual(s: string, t: string)
    ensures Distance(s, t) == 0 <==> s == t
    decreases |s| + |t|
  {
    if s != "" && t != "" {
      ZeroOnlyForEqual(Front(s), Front(t));
      assert s == Front(s) + [Last(s)] && t == Front(t) + [Last(t)];
    }
  }

  lemma {:induction false} Triangle(s: string, t: string, u: string)
    ensures Distance(s, u) <= Distance(s, t) + Distance(t, u)
    decreases |s| + |t| + |u|
  {
    if s == "" {
      Bounds(t, u);
    } else if u == "" {
      Bounds(s, t);
    } else if t == "" {
      Bounds(s, u);
    } else {
      Lipschitz(s, u);
      Diagonal(s, u);
      Triangle(Front(s), t, u);
      Triangle(s, t, Front(u));
      Triangle(s, Front(t), Front(u));
      Triangle(Front(s), Front(t), u);
      Triangle(s, Front(t), u);
      Triangle(Front(s), Front(t), Front(u));
    }
  }

  // ---- No script is shorter ----

  lemma {:induction false} CommonSuffix(s: string, t: string, suffix: string)
    ensures Distance(s + suffix, t + suffix) == Distance(s, t)
  {
    if suffix == "" {
      assert s + suffix == s && t + suffix == t;
    } else {
      assert Front(s + suffix) == s + Front(suffix) && Front(t + suffix) == t + Front(suffix);
      CommonSuffix(s, t, Front(suffix));
    }
  }

  lemma OneEdit(e: Edit, s: string)
    requires Applies(e, s)
    ensures Distance(s, Apply(e, s)) <= 1
  {
    var before := s[..e.at];
    var after := if e.Insert? then s[e.at..] else s[e.at + 1..];
    var here := if e.Insert? then "" else [s[e.at]];
    var there := if e.Delete? then "" else [e.c];
    assert s == before + here + after && Apply(e, s) == before + there + after;
    CommonSuffix(before + here, before + there, after);
    ZeroOnlyForEqual(before, before);
    assert before + "" == before;
    if here != "" { assert Front(before + here) == before; }
    if there != "" { assert Front(before + there) == before; }
    if here == "" {
      Lipschitz(before, before + there);
    } else if there == "" {
      Lipschitz(before + here, before);
    } else {
      Diagonal(before + here, before + there);
    }
  }

  lemma {:induction false} NoShorterScript(script: seq<Edit>, s: string, t: string)
    requires Turns(script, s, t)
    ensures Distance(s, t) <= |script|
  {
    if script == [] {
      ZeroOnlyForEqual(s, t);
    } else {
      var s' := Apply(script[0], s);
      NoShorterScript(script[1..], s', t);
      OneEdit(script[0], s);
      Triangle(s, s', t);
    }
  }

  // ---- And one is as short ----

  lemma ApplyInFront(e: Edit, s: string, suffix: string)
    requires Applies(e, s)
    ensures Apply(e, s + suffix) == Apply(e, s) + suffix
  {
    assert (s + suffix)[..e.at] == s[..e.at];
    if e.Insert? {
      assert (s + suffix)[e.at..] == s[e.at..] + suffix;
      assert s[..e.at] + [e.c] + (s[e.at..] + suffix) == s[..e.at] + [e.c] + s[e.at..] + suffix;
    } else {
      assert (s + suffix)[e.at + 1..] == s[e.at + 1..] + suffix;
    }
  }

  // A script works the same with more text behind.
  lemma {:induction false} Append(script: seq<Edit>, s: string, t: string, suffix: string)
    requires Turns(script, s, t)
    ensures Turns(script, s + suffix, t + suffix)
  {
    if script != [] {
      var e := script[0];
      ApplyInFront(e, s, suffix);
      Append(script[1..], Apply(e, s), t, suffix);
    }
  }

  lemma {:induction false} Then(script: seq<Edit>, s: string, t: string, e: Edit)
    requires Turns(script, s, t) && Applies(e, t)
    ensures Turns(script + [e], s, Apply(e, t))
  {
    var all := script + [e];
    if script == [] {
      assert all[0] == e && all[1..] == [];
    } else {
      assert all[0] == script[0] && all[1..] == script[1..] + [e];
      Then(script[1..], Apply(script[0], s), t, e);
    }
  }

  // Turn s into t in front of a suffix of at most one character, then edit at the end of t.
  lemma ThenAt(script: seq<Edit>, s: string, t: string, suffix: string, e: Edit) returns (longer: seq<Edit>)
    requires Turns(script, s, t) && e.at == |t|
    requires if e.Insert? then suffix == "" else |suffix| == 1
    ensures |longer| == |script| + 1
    ensures Turns(longer, s + suffix, if e.Delete? then t else t + [e.c])
  {
    Append(script, s, t, suffix);
    Then(script, s + suffix, t + suffix, e);
    assert Apply(e, t + suffix) == if e.Delete? then t else t + [e.c];
    longer := script + [e];
  }

  lemma {:induction false} BestScript(s: string, t: string) returns (script: seq<Edit>)
    ensures Turns(script, s, t) && |script| == Distance(s, t)
    decreases |s| + |t|
  {
    hide Turns;
    NoScript();
    if s == "" && t == "" {
      script := [];
    } else if s != "" && t != "" && Last(s) == Last(t) {
      script := BestScript(Front(s), Front(t));
      Append(script, Front(s), Front(t), [Last(s)]);
      assert s == Front(s) + [Last(s)] && t == Front(t) + [Last(t)];
    } else {
      var s', t', suffix, e := LastEdit(s, t);
      script := BestScript(s', t');
      script := ThenAt(script, s', t', suffix, e);
    }
  }

  lemma NoScript()
    ensures Turns([], "", "")
  {
  }

  // The cheapest neighbour of a cell, and the edit that leads from there.
  lemma LastEdit(s: string, t: string) returns (s': string, t': string, suffix: string, e: Edit)
    requires s != "" || t != ""
    requires s != "" && t != "" ==> Last(s) != Last(t)
    ensures s == s' + suffix && |s'| + |t'| < |s| + |t|
    ensures t == (if e.Delete? then t' else t' + [e.c])
    ensures e.at == |t'| && if e.Insert? then suffix == "" else |suffix| == 1
    ensures Distance(s, t) == Distance(s', t') + 1
  {
    if s != "" && (t == "" || Distance(s, t) == Distance(Front(s), t) + 1) {
      s', t', suffix, e := Front(s), t, [Last(s)], Delete(|t|);
    } else if s == "" || Distance(s, t) == Distance(s, Front(t)) + 1 {
      s', t', suffix, e := s, Front(t), "", Insert(|t| - 1, Last(t));
    } else {
      s', t', suffix, e := Front(s), Front(t), [Last(s)], Substitute(|t| - 1, Last(t));
    }
  }

  ghost predicate IsLeast(d: nat, s: string, t: string) {
    && (exists script :: Turns(script, s, t) && |script| == d)
    && (forall script :: Turns(script, s, t) ==> d <= |script|)
  }

  lemma DistanceIsLeast(s: string, t: string)
    ensures IsLeast(Distance(s, t), s, t)
  {
    var best := BestScript(s, t);
    forall script | Turns(script, s, t) ensures Distance(s, t) <= |script| {
      NoShorterScript(script, s, t);
    }
  }

  // ---- The method ----

  function Score(d: nat, s: string, t: string): real
    requires s != "" && t != ""
  {
    1.0 - d as real / Max(|s|, |t|) as real
  }

  lemma Ratio(d: nat, l: nat)
    requires d <= l && 0 < l
    ensures 0.0 <= d as real / l as real <= 1.0
    ensures d as real / l as real == 0.0 <==> d == 0
  {
  }

  lemma ScoreRange(s: string, t: string)
    requires s != "" && t != ""
    ensures 0.0 <= Score(Distance(s, t), s, t) <= 1.0
    ensures Score(Distance(s, t), s, t) == 1.0 <==> s == t
  {
    Bounds(s, t);
    ZeroOnlyForEqual(s, t);
    Ratio(Distance(s, t), Max(|s|, |t|));
  }

  lemma ScoreMeans(d: nat, s: string, t: string)
    requires s != "" && t != ""
    ensures (1.0 - Score(d, s, t)) * (if |s| < |t| then |t| else |s|) as real == d as real
  {
    var l := Max(|s|, |t|) as real;
    var q := d as real / l;
    assert q * l == d as real;
  }

  lemma ScoreIs(d: nat, s: string, t: string)
    requires s != "" && t != ""
    ensures Score(d, s, t) == 1.0 - d as real / Max(|s|, |t|) as real
  {
  }

  // What the score lacks to 1, of the longer length, is the least number of edits.
  ghost predicate Measures(similarity: real, s: string, t: string) {
    exists d: nat :: IsLeast(d, s, t) && (1.0 - similarity) * (if |s| < |t| then |t| else |s|) as real == d as real
  }

  lemma Scored(s: string, t: string, similarity: real)
    requires s != "" && t != "" && similarity == Score(Distance(s, t), s, t)
    ensures Measures(similarity, s, t)
    ensures 0.0 <= similarity <= 1.0 && (similarity == 1.0 <==> s == t)
  {
    hide Distance, Score, IsLeast;
    DistanceIsLeast(s, t);
    ScoreRange(s, t);
    ScoreMeans(Distance(s, t), s, t);
  }

  // The rows before i hold their distances, and so do column 0 and the cells before j in row i.
  ghost predicate Filled(distance: array2<nat>, s: string, t: string, i: nat, j: nat)
    requires distance.Length0 == |s| + 1 && distance.Length1 == |t| + 1
    reads distance
  {
    forall k, l :: 0 <= k <= |s| && 0 <= l <= |t| && (k < i || l == 0 || (k == i && l < j)) ==>
      distance[k, l] == Distance(s[..k], t[..l])
  }

  lemma Cell(s: string, t: string, i: nat, j: nat)
    requires 0 < i <= |s| && 0 < j <= |t|
    ensures Distance(s[..i], t[..j]) ==
      if s[i - 1] == t[j - 1] then Distance(s[..i - 1], t[..j - 1])
      else Min(Min(Distance(s[..i - 1], t[..j]), Distance(s[..i], t[..j - 1])), Distance(s[..i - 1], t[..j - 1])) + 1
  {
    assert Front(s[..i]) == s[..i - 1] && Front(t[..j]) == t[..j - 1];
  }

  method FillTable(str1: string, str2: string) returns (distance: array2<nat>)
    ensures distance.Length0 == |str1| + 1 && distance.Length1 == |str2| + 1
    ensures distance[|str1|, |str2|] == Distance(str1, str2)
  {
    var m, n := |str1|, |str2|;
    distance := new nat[m + 1, n + 1];
    for i := 0 to m + 1
      invariant forall k :: 0 <= k < i ==> distance[k, 0] == k
    {
      distance[i, 0] := i;
    }
    for j := 0 to n + 1
      invariant forall k :: 0 <= k <= m ==> distance[k, 0] == k
      invariant forall l :: 0 <= l < j ==> distance[0, l] == l
    {
      distance[0, j] := j;
    }
    assert Filled(distance, str1, str2, 1, 1);
    for i := 1 to m + 1
      invariant Filled(distance, str1, str2, i, 1)
    {
      for j := 1 to n + 1
        invariant Filled(distance, str1, str2, i, j)
      {
        Cell(str1, str2, i, j);
        if str1[i - 1] == str2[j - 1] {
          distance[i, j] := distance[i - 1, j - 1];
        } else {
          distance[i, j] := Min(Min(distance[i - 1, j], distance[i, j - 1]), distance[i - 1, j - 1]) + 1;
        }
      }
    }
    assert str1[..m] == str1 && str2[..n] == str2;
  }

  // Two empty texts are equal but score 0; for all others 1 means equal.
  method Levenshtein(str1: string, str2: string) returns (similarity: real)
    ensures str1 == "" || str2 == "" ==> similarity == 0.0
    ensures str1 != "" && str2 != "" ==> Measures(similarity, str1, str2)
    ensures 0.0 <= similarity <= 1.0
    ensures similarity == 1.0 <==> str1 == str2 && str1 != ""
  {
    hide Measures, Score, Distance;
    var m, n := |str1|, |str2|;
    if n == 0 || m == 0 {
      return 0.0;
    }
    var distance := FillTable(str1, str2);
    var maxLen := Max(m, n);
    similarity := 1.0 - distance[m, n] as real / maxLen as real;
    ScoreIs(distance[m, n], str1, str2);
    Scored(str1, str2, similarity);
  }
}
