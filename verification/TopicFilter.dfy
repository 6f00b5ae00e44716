/** Topic filters: the pointer-walking matcher against the level-by-level rules of section 4.7 of MQTT 3.1.1. */
module TopicFilter {

  // ---------------------------------------------------------------- levels

  /** The length of the first level of s. */
  function LevelEnd(s: string): (e: nat)
    ensures e <= |s| && (forall k :: 0 <= k < e ==> s[k] != '/') && (e < |s| ==> s[e] == '/')
  {
    if s == "" || s[0] == '/' then 0 else 1 + LevelEnd(s[1..])
  }

  /** The levels of s, split at every separator. */
  function Levels(s: string): (r: seq<string>)
    ensures |r| > 0
  {
    var e := LevelEnd(s);
    if e == |s| then [s] else [s[..e]] + Levels(s[e + 1..])
  }

  predicate IsLiteral(level: string) {
    forall k :: 0 <= k < |level| ==> level[k] != '+' && level[k] != '#'
  }

  /** Wildcards stand alone in their level, and '#' only in the last level. */
  predicate WellFormed(filter: seq<string>) {
    forall k :: 0 <= k < |filter| ==> IsLiteral(filter[k]) || filter[k] == "+" || (filter[k] == "#" && k == |filter| - 1)
  }

  predicate NoEmptyLevel(name: seq<string>) {
    forall k :: 0 <= k < |name| ==> name[k] != ""
  }

  /** '+' matches exactly one level, '#' one or more remaining levels, any other level only itself. */
  predicate Matches(filter: seq<string>, name: seq<string>) {
    if filter == [] then name == []
    else if filter[0] == "#" then name != []
    else name != [] && (filter[0] == "+" || filter[0] == name[0]) && Matches(filter[1..], name[1..])
  }

  // ---------------------------------------------------------------- the walk

  /** What the loop answers with the cursors at the start of filter and name. */
  function Walk(filter: string, name: string): bool {
    if filter == "" || name == "" then filter == "" && name == ""
    else if name[0] == '/' && filter[0] != '/' then false
    else if filter[0] != '+' && filter[0] != '#' && filter[0] != name[0] then false
    else if filter[0] == '+' then Walk(filter[1..], name[1 + LevelEnd(name[1..])..])
    else if filter[0] == '#' then Walk(filter[1..], "")
    else Walk(filter[1..], name[1..])
  }

  /** _aws_iot_mqtt_internal_is_topic_matched */
  method IsTopicMatched(filter: string, name: string) returns (matched: bool)
    ensures matched == Walk(filter, name)
  {
    hide LevelEnd;
    var curf: nat, curn: nat := 0, 0;
    assert filter[0..] == filter && name[0..] == name;
    while curf < |filter| && curn < |name|
      invariant curf <= |filter| && curn <= |name|
      invariant Walk(filter[curf..], name[curn..]) == Walk(filter, name)
      decreases |filter| - curf
    {
      if name[curn] == '/' && filter[curf] != '/' { break; }
      if filter[curf] != '+' && filter[curf] != '#' && filter[curf] != name[curn] { break; }
      ghost var f, n := filter[curf..], name[curn..];
      assert f[0] == filter[curf] && n[0] == name[curn] && f[1..] == filter[curf + 1..] && n[1..] == name[curn + 1..];
      if filter[curf] == '+' {
        curn := SkipLevel(name, curn);
      } else if filter[curf] == '#' {
        curn := |name| - 1;
        assert name[|name|..] == "";
      }
      curf := curf + 1;
      curn := curn + 1;
    }
    matched := curn == |name| && curf == |filter|;
  }

  /** The inner loop of '+': the last character before the next separator or the end. */
  method SkipLevel(name: string, start: nat) returns (curn: nat)
    requires start < |name|
    ensures start <= curn < |name|
    ensures name[curn + 1..] == name[start..][1 + LevelEnd(name[start..][1..])..]
  {
    curn := start;
    var nextpos := curn + 1;
    ghost var rest := name[start + 1..];
    assert name[start..][1..] == rest;
    while nextpos < |name| && name[nextpos] != '/'
      invariant start <= curn < |name| && nextpos == curn + 1
      invariant LevelEnd(rest) == curn - start + LevelEnd(name[nextpos..])
    {
      assert name[nextpos..][1..] == name[nextpos + 1..];
      curn := curn + 1;
      nextpos := curn + 1;
    }
  }

  // ---------------------------------------------------------------- the walk refines the levels

  /** A literal level is walked exactly when the name has the same level there. */
  lemma {:induction false} WalkLiteral(f: string, n: string)
    requires IsLiteral(f[..LevelEnd(f)])
    ensures Walk(f, n) == (f[..LevelEnd(f)] == n[..LevelEnd(n)] && Walk(f[LevelEnd(f)..], n[LevelEnd(n)..]))
  {
    if f != "" && n != "" && f[0] == n[0] && f[0] != '/' {
      var e, l := LevelEnd(f), LevelEnd(n);
      var f', n' := f[1..], n[1..];
      assert f[..e] == [f[0]] + f'[..e - 1] && n[..l] == [n[0]] + n'[..l - 1];
      assert f[..e][0] == f[0];
      LiteralTail(f[..e], f'[..e - 1]);
      WalkLiteral(f', n');
      assert f'[e - 1..] == f[e..] && n'[l - 1..] == n[l..];
    } else if f != "" && f[0] != '/' {
      assert f[..LevelEnd(f)][0] == f[0];
      assert n == "" || n[0] == '/' || n[..LevelEnd(n)][0] == n[0];
    } else {
      assert f[..LevelEnd(f)] == "" && f[LevelEnd(f)..] == f;
      if n != "" && n[0] != '/' { assert n[..LevelEnd(n)][0] == n[0]; } else { assert n[LevelEnd(n)..] == n; }
    }
  }

  lemma LiteralTail(level: string, tail: string)
    requires IsLiteral(level) && |level| == |tail| + 1 && level[1..] == tail
    ensures IsLiteral(tail)
  {
    forall k | 0 <= k < |tail| ensures tail[k] != '+' && tail[k] != '#' {
      assert tail[k] == level[k + 1];
    }
  }

  /** '+' walks one nonempty level. */
  lemma WalkPlus(f: string, n: string)
    requires f != "" && f[..LevelEnd(f)] == "+" && n[..LevelEnd(n)] != ""
    ensures Walk(f, n) == Walk(f[LevelEnd(f)..], n[LevelEnd(n)..])
  {
    assert f[..LevelEnd(f)][0] == f[0];
    assert n[..LevelEnd(n)][0] == n[0];
    assert f[0] == '+' && n[0] != '/';
    assert LevelEnd(n) == 1 + LevelEnd(n[1..]);
  }

  /** '#' walks to the end. */
  lemma WalkHash(n: string)
    requires n[..LevelEnd(n)] != ""
    ensures Walk("#", n)
  {
    assert n[..LevelEnd(n)][0] == n[0];
    assert "#"[1..] == "";
  }

  /** At the end of a level both sides must end or continue together. */
  lemma WalkSeparator(f: string, n: string)
    ensures var e, l := LevelEnd(f), LevelEnd(n);
            Walk(f[e..], n[l..]) == (if e == |f| || l == |n| then e == |f| && l == |n| else Walk(f[e + 1..], n[l + 1..]))
  {
    hide LevelEnd, Walk;
    var e, l := LevelEnd(f), LevelEnd(n);
    WalkSlash(f[e..], n[l..]);
    if e < |f| && l < |n| { assert f[e..][1..] == f[e + 1..] && n[l..][1..] == n[l + 1..]; }
  }

  lemma WalkSlash(f: string, n: string)
    requires (f == "" || f[0] == '/') && (n == "" || n[0] == '/')
    ensures Walk(f, n) == (if f == "" || n == "" then f == "" && n == "" else Walk(f[1..], n[1..]))
  {
  }

  /** The matcher decides the level-by-level match for every well-formed filter and every name without empty levels. */
  lemma {:induction false} WalkRefinesLevels(f: string, n: string)
    requires WellFormed(Levels(f)) && NoEmptyLevel(Levels(n))
    ensures Walk(f, n) == Matches(Levels(f), Levels(n))
    decreases |f|
  {
    hide LevelEnd, Walk;
    var e, l := LevelEnd(f), LevelEnd(n);
    var fl, nl := Levels(f), Levels(n);
    assert f[..e] == fl[0] && n[..l] == nl[0];
    if fl[0] == "#" {
      assert !IsLiteral(fl[0]) by { assert fl[0][0] == '#'; }
      assert |fl| == 1;
      assert f[..e] == f;
      WalkHash(n);
    } else {
      if fl[0] == "+" { WalkPlus(f, n); } else { assert IsLiteral(fl[0]); WalkLiteral(f, n); }
      WalkSeparator(f, n);
      if e < |f| && l < |n| {
        assert fl[1..] == Levels(f[e + 1..]) && nl[1..] == Levels(n[l + 1..]);
        TailLevels(fl, nl);
        WalkRefinesLevels(f[e + 1..], n[l + 1..]);
      } else {
        OneSideEnds(f, n);
      }
    }
  }

  lemma TailLevels(fl: seq<string>, nl: seq<string>)
    requires |fl| > 1 && |nl| > 1 && WellFormed(fl) && NoEmptyLevel(nl)
    ensures WellFormed(fl[1..]) && NoEmptyLevel(nl[1..])
  {
    forall k | 0 <= k < |fl| - 1
      ensures IsLiteral(fl[1..][k]) || fl[1..][k] == "+" || (fl[1..][k] == "#" && k == |fl[1..]| - 1)
    {
      assert fl[1..][k] == fl[k + 1];
    }
  }

  lemma OneSideEnds(f: string, n: string)
    requires LevelEnd(f) == |f| || LevelEnd(n) == |n|
    ensures Matches(Levels(f)[1..], Levels(n)[1..]) == (LevelEnd(f) == |f| && LevelEnd(n) == |n|)
  {
    var fl, nl := Levels(f), Levels(n);
    if LevelEnd(f) == |f| {
      assert fl[1..] == [];
    } else {
      assert fl[1..] == Levels(f[LevelEnd(f) + 1..]);
    }
    if LevelEnd(n) == |n| {
      assert nl[1..] == [];
    } else {
      assert nl[1..] == Levels(n[LevelEnd(n) + 1..]);
    }
  }

  /** The delivery test, which also compares the strings outright, accepts exactly the matching subscriptions. */
  lemma DeliveryIsMatch(f: string, n: string)
    requires WellFormed(Levels(f)) && NoEmptyLevel(Levels(n))
    ensures (f == n || Walk(f, n)) <==> Matches(Levels(f), Levels(n))
  {
    WalkRefinesLevels(f, n);
    SelfMatch(Levels(f));
  }

  lemma {:induction false} SelfMatch(levels: seq<string>)
    ensures Matches(levels, levels)
  {
    if levels != [] { SelfMatch(levels[1..]); }
  }
}
