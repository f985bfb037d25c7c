/** How often a number occurs in a sequence. */
module Counting {
  function Times(s: seq<nat>, x: nat): nat {
    if s == [] then 0 else Times(s[..|s| - 1], x) + if s[|s| - 1] == x then 1 else 0
  }

  lemma TimesMore(s: seq<nat>, y: nat, x: nat)
    ensures Times(s + [y], x) == Times(s, x) + if x == y then 1 else 0
  {
    assert (s + [y])[..|s|] == s;
  }

  lemma {:induction false} TimesConcat(s: seq<nat>, t: seq<nat>, x: nat)
    ensures Times(s + t, x) == Times(s, x) + Times(t, x)
    decreases |t|
  {
    if t == [] {
      assert s + t == s;
    } else {
      var n := |t| - 1;
      TimesConcat(s, t[..n], x);
      assert (s + t)[..|s + t| - 1] == s + t[..n];
    }
  }

  lemma TimesHead(s: seq<nat>, x: nat)
    requires s != []
    ensures Times(s, x) == Times(s[1..], x) + if x == s[0] then 1 else 0
  {
    assert s == [s[0]] + s[1..];
    TimesConcat([s[0]], s[1..], x);
    assert [s[0]][..0] == [];
  }

  lemma {:induction false} TimesIn(s: seq<nat>, i: nat)
    requires i < |s|
    ensures Times(s, s[i]) >= 1
  {
    var n := |s| - 1;
    if i < n {
      TimesIn(s[..n], i);
    }
  }

  lemma {:induction false} TimesTwice(s: seq<nat>, i: nat, j: nat)
    requires i < j < |s| && s[i] == s[j]
    ensures Times(s, s[i]) >= 2
  {
    var n := |s| - 1;
    if j < n {
      TimesTwice(s[..n], i, j);
    } else {
      TimesIn(s[..n], i);
    }
  }
}
