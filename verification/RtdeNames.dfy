/** `join_csv` and `split_csv` (rtde_client.cpp): the lists of variable names and types in a recipe. */
module RtdeNames {
  predicate NoComma(s: string) {
    forall k :: 0 <= k < |s| ==> s[k] != ','
  }

  ghost predicate NoCommas(parts: seq<string>) {
    forall k :: 0 <= k < |parts| ==> NoComma(parts[k])
  }

  function Join(names: seq<string>): string {
    if names == [] then ""
    else if |names| == 1 then names[0]
    else names[0] + "," + Join(names[1..])
  }

  /** The position of the first comma, or the length. */
  function FirstComma(s: string): (k: nat)
    ensures k <= |s| && (k < |s| ==> s[k] == ',') && forall j :: 0 <= j < k ==> s[j] != ','
  {
    if s == "" || s[0] == ',' then 0 else 1 + FirstComma(s[1..])
  }

  /** The parts between the commas; always at least one. */
  function Split(s: string): (parts: seq<string>)
    ensures parts != []
    decreases |s|
  {
    var k := FirstComma(s);
    if k == |s| then [s] else [s[..k]] + Split(s[k + 1..])
  }

  lemma FirstCommaIs(s: string, k: nat)
    requires k <= |s| && NoComma(s[..k]) && (k < |s| ==> s[k] == ',')
    ensures FirstComma(s) == k
  {
    assert forall j :: 0 <= j < k ==> s[j] == s[..k][j];
  }

  lemma SplitStep(n: string, rest: string)
    requires NoComma(n)
    ensures Split(n) == [n] && Split(n + "," + rest) == [n] + Split(rest)
  {
    var s := n + "," + rest;
    assert n[..|n|] == n && s[..|n|] == n && s[|n| + 1..] == rest;
    FirstCommaIs(n, |n|);
    FirstCommaIs(s, |n|);
  }

  /** Splitting what was joined gives the names back, if they hold no comma and there is at least one. */
  lemma {:induction false} SplitJoin(names: seq<string>)
    requires names != [] && NoCommas(names)
    ensures Split(Join(names)) == names
  {
    hide Split, NoComma;
    assert NoComma(names[0]) && NoCommas(names[1..]);
    SplitStep(names[0], Join(names[1..]));
    if |names| > 1 {
      SplitJoin(names[1..]);
      assert names == [names[0]] + names[1..];
    }
  }

  lemma JoinStep(n: string, rest: seq<string>)
    requires NoComma(n)
    ensures Join([n]) == n && NoCommas([n])
    ensures rest != [] ==> Join([n] + rest) == n + "," + Join(rest)
    ensures NoCommas(rest) ==> NoCommas([n] + rest)
  {
    assert rest != [] ==> ([n] + rest)[1..] == rest;
  }

  lemma FirstPart(s: string)
    ensures NoComma(s[..FirstComma(s)])
  {
    hide FirstComma;
  }

  lemma CutAtComma(s: string, k: nat)
    requires k < |s| && s[k] == ','
    ensures s == s[..k] + "," + s[k + 1..]
  {
    hide *;
    var c := [s[k]];
    assert c == ",";
    assert s == s[..k] + c + s[k + 1..];
  }

  /** Joining the parts gives the text back; no part holds a comma. */
  lemma {:induction false} JoinSplit(s: string)
    ensures Join(Split(s)) == s && NoCommas(Split(s))
    decreases |s|
  {
    hide NoComma, NoCommas, Join, FirstComma;
    var k := FirstComma(s);
    FirstPart(s);
    if k == |s| {
      assert s[..k] == s;
      JoinStep(s, []);
    } else {
      CutAtComma(s, k);
      JoinSplit(s[k + 1..]);
      JoinStep(s[..k], Split(s[k + 1..]));
    }
  }

  lemma {:induction false} JoinMore(names: seq<string>, n: string)
    requires names != []
    ensures Join(names + [n]) == Join(names) + "," + n
  {
    if |names| == 1 {
      assert (names + [n])[1..] == [n];
    } else {
      assert (names + [n])[1..] == names[1..] + [n];
      JoinMore(names[1..], n);
    }
  }

  /** `join_csv`. */
  method JoinCsv(names: seq<string>) returns (out: string)
    ensures out == Join(names)
  {
    out := "";
    for i := 0 to |names|
      invariant out == Join(names[..i])
    {
      assert names[..i + 1] == names[..i] + [names[i]];
      if i > 0 {
        JoinMore(names[..i], names[i]);
        out := out + ",";
      }
      out := out + names[i];
    }
    assert names[..|names|] == names;
  }

  lemma SplitAt(s: string, start: nat, i: nat)
    requires start <= i <= |s| && NoComma(s[start..i]) && (i < |s| ==> s[i] == ',')
    ensures Split(s[start..]) == [s[start..i]] + if i == |s| then [] else Split(s[i + 1..])
  {
    var t, k := s[start..], i - start;
    assert t[..k] == s[start..i] && (k < |t| ==> t[k + 1..] == s[i + 1..]);
    FirstCommaIs(t, k);
    hide NoComma, FirstComma;
    if k == |t| {
      assert t == s[start..i] && [t] + [] == [t];
    }
  }

  /** `split_csv`. */
  method SplitCsv(s: string) returns (out: seq<string>)
    ensures out == Split(s)
  {
    hide Split;
    out := [];
    var start := 0;
    assert s[0..] == s && out + Split(s) == Split(s);
    for i := 0 to |s| + 1
      invariant 0 <= start <= i && (start <= |s| || i == |s| + 1)
      invariant i <= |s| ==> NoComma(s[start..i]) && out + Split(s[start..]) == Split(s)
      invariant i == |s| + 1 ==> out == Split(s)
    {
      if i == |s| || s[i] == ',' {
        SplitAt(s, start, i);
        var part := s[start..i];
        if i < |s| {
          assert out + ([part] + Split(s[i + 1..])) == out + [part] + Split(s[i + 1..]);
        } else {
          assert [part] + [] == [part];
        }
        out := out + [part];
        start := i + 1;
      } else {
        assert s[start..i + 1] == s[start..i] + [s[i]];
      }
    }
  }

  /** Two names of one letter. */
  lemma TwoNames(a: char, b: char)
    requires a != ',' && b != ','
    ensures Join([[a], [b]]) == [a, ',', b] && Split([a, ',', b]) == [[a], [b]]
  {
    assert Join([[a], [b]]) == [a] + "," + [b];
    assert NoComma([a]) && NoComma([b]);
    SplitJoin([[a], [b]]);
  }
}
