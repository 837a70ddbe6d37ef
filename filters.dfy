/** The hero filter of each mode and the visibility it decides: a map from trimmed hero name
    to on/off plus a switch for the universal (hero-less) entries. */
module Filters {
  import opened JsText
  import opened Catalog
  import opened Assignment

  /** One mode's `heroFilterByMode[mode]`. */
  type HeroFilter = map<string, bool>

  /** `cur[h] !== false`: a hero the filter does not mention is shown. */
  predicate HeroOn(cur: HeroFilter, h: string) {
    !(h in cur && !cur[h])
  }

  /** `isHeroEnabled(name)`: an empty name is governed by the universal switch. */
  predicate HeroEnabled(cur: HeroFilter, universal: bool, name: string) {
    if name == "" then universal else HeroOn(cur, Trim(name))
  }

  /** `isItemEnabled(item)`. */
  predicate ItemEnabled(cur: HeroFilter, universal: bool, e: Entry) {
    HeroEnabled(cur, universal, Trim(e.heroName))
  }

  /** An entry whose hero name trims to nothing follows the universal switch; any other
      follows its hero's filter entry. */
  lemma ItemEnabledCases(cur: HeroFilter, universal: bool, e: Entry)
    ensures Trim(e.heroName) == "" ==> (ItemEnabled(cur, universal, e) <==> universal)
    ensures Trim(e.heroName) != "" ==> (ItemEnabled(cur, universal, e) <==> HeroOn(cur, Trim(e.heroName)))
  {
    TrimIdempotent(e.heroName);
  }

  /** Switching one hero changes the visibility of that hero's entries only. */
  lemma FilterIsPerHero(cur: HeroFilter, universal: bool, h: string, on: bool, e: Entry)
    requires Trim(e.heroName) != h
    ensures ItemEnabled(cur[h := on], universal, e) == ItemEnabled(cur, universal, e)
  {
    TrimIdempotent(e.heroName);
  }

  /** `areAllFiltersOn()`. */
  predicate AllFiltersOn(cur: HeroFilter, universal: bool) {
    (forall k | k in cur :: cur[k]) && universal
  }

  /** With every filter on, every entry is shown. */
  lemma AllFiltersOnShowsAll(cur: HeroFilter, universal: bool)
    requires AllFiltersOn(cur, universal)
    ensures forall e: Entry :: ItemEnabled(cur, universal, e)
  {
  }

  // ---------------------------------------------------------------- role tri-state

  datatype TriState = NoneOn | AllOn | Mixed

  /** `(rolesByGroup[role] || []).map(safeName)`, given the role's list. */
  function TrimAll(hs: seq<string>): (r: seq<string>)
    ensures |r| == |hs| && forall i :: 0 <= i < |hs| ==> r[i] == Trim(hs[i])
  {
    seq(|hs|, i requires 0 <= i < |hs| => Trim(hs[i]))
  }

  /** How many of `hs` are on. */
  function CountOn(cur: HeroFilter, hs: seq<string>): (n: nat)
    ensures n <= |hs|
  {
    if hs == [] then 0 else CountOn(cur, hs[..|hs| - 1]) + (if HeroOn(cur, hs[|hs| - 1]) then 1 else 0)
  }

  lemma {:induction false} CountOnBounds(cur: HeroFilter, hs: seq<string>)
    ensures CountOn(cur, hs) == 0 <==> forall i :: 0 <= i < |hs| ==> !HeroOn(cur, hs[i])
    ensures CountOn(cur, hs) == |hs| <==> forall i :: 0 <= i < |hs| ==> HeroOn(cur, hs[i])
  {
    if hs != [] {
      var p := hs[..|hs| - 1];
      CountOnBounds(cur, p);
      assert forall i :: 0 <= i < |p| ==> p[i] == hs[i];
    }
  }

  /** `getRoleTriState(role)` for the role's hero list `roleHeroes` (empty when the role is
      unknown): none, all or some of its heroes on. */
  method GetRoleTriState(cur: HeroFilter, roleHeroes: seq<string>) returns (r: TriState)
    ensures r == NoneOn <==> forall i :: 0 <= i < |roleHeroes| ==> !HeroOn(cur, Trim(roleHeroes[i]))
    ensures r == AllOn <==>
              |roleHeroes| > 0 && forall i :: 0 <= i < |roleHeroes| ==> HeroOn(cur, Trim(roleHeroes[i]))
    ensures r == Mixed <==>
              (exists i :: 0 <= i < |roleHeroes| && HeroOn(cur, Trim(roleHeroes[i])))
              && (exists i :: 0 <= i < |roleHeroes| && !HeroOn(cur, Trim(roleHeroes[i])))
  {
    var heroes := TrimAll(roleHeroes);
    if |heroes| == 0 {
      return NoneOn;
    }
    var on := 0;
    for i := 0 to |heroes|
      invariant on == CountOn(cur, heroes[..i])
    {
      assert heroes[..i + 1][..i] == heroes[..i];
      if HeroOn(cur, heroes[i]) {
        on := on + 1;
      }
    }
    assert heroes[..|heroes|] == heroes;
    CountOnBounds(cur, heroes);
    if on == 0 {
      return NoneOn;
    }
    if on == |heroes| {
      return AllOn;
    }
    return Mixed;
  }

  // ---------------------------------------------------------------- updates

  /** Every key of `cur` set to `v`. */
  function AllSet(cur: HeroFilter, v: bool): (r: HeroFilter)
    ensures r.Keys == cur.Keys && forall k | k in r :: r[k] == v
  {
    map k | k in cur :: v
  }

  /** `cur[h] = on` for each `h` of `hs`, in order. */
  function SetHeroes(cur: HeroFilter, hs: seq<string>, on: bool): HeroFilter {
    if hs == [] then cur else SetHeroes(cur, hs[..|hs| - 1], on)[hs[|hs| - 1] := on]
  }

  /** The listed heroes are set to `on` (and added when new); every other key keeps its value. */
  lemma {:induction false} SetHeroesSpec(cur: HeroFilter, hs: seq<string>, on: bool)
    ensures forall k :: k in SetHeroes(cur, hs, on) <==> k in cur || k in hs
    ensures forall k | k in hs :: SetHeroes(cur, hs, on)[k] == on
    ensures forall k | k in cur && k !in hs :: SetHeroes(cur, hs, on)[k] == cur[k]
  {
    if hs != [] {
      var p := hs[..|hs| - 1];
      SetHeroesSpec(cur, p, on);
      assert hs == p + [hs[|hs| - 1]];
    }
  }

  /** After a role is switched, its tri-state is that switch (when it has heroes). */
  lemma SetRoleDecidesTriState(cur: HeroFilter, roleHeroes: seq<string>, on: bool)
    ensures forall i :: 0 <= i < |roleHeroes| ==>
              HeroOn(SetHeroes(cur, TrimAll(roleHeroes), on), Trim(roleHeroes[i])) == on
  {
    SetHeroesSpec(cur, TrimAll(roleHeroes), on);
    forall i | 0 <= i < |roleHeroes|
      ensures HeroOn(SetHeroes(cur, TrimAll(roleHeroes), on), Trim(roleHeroes[i])) == on
    {
      assert TrimAll(roleHeroes)[i] == Trim(roleHeroes[i]);
    }
  }

  /** The filter `resetFiltersToDefaults` and a first `loadHeroFilter` build: every hero of
      every role, trimmed, on. */
  function DefaultFilter(roles: seq<RoleGroup>): HeroFilter {
    if roles == [] then map[]
    else SetHeroes(DefaultFilter(roles[..|roles| - 1]), TrimAll(roles[|roles| - 1].heroes), true)
  }

  /** The default filter names exactly the catalog's heroes and has every filter on. */
  lemma {:induction false} DefaultFilterSpec(roles: seq<RoleGroup>)
    ensures forall k :: k in DefaultFilter(roles) <==>
              exists g, i :: 0 <= g < |roles| && 0 <= i < |roles[g].heroes| && k == Trim(roles[g].heroes[i])
    ensures AllFiltersOn(DefaultFilter(roles), true)
  {
    if roles != [] {
      var p := roles[..|roles| - 1];
      var last := roles[|roles| - 1];
      DefaultFilterSpec(p);
      SetHeroesSpec(DefaultFilter(p), TrimAll(last.heroes), true);
      forall k ensures k in DefaultFilter(roles) ==>
          exists g, i :: 0 <= g < |roles| && 0 <= i < |roles[g].heroes| && k == Trim(roles[g].heroes[i])
      {
        if k in DefaultFilter(roles) {
          if k in TrimAll(last.heroes) {
            var i :| 0 <= i < |last.heroes| && TrimAll(last.heroes)[i] == k;
            assert roles[|roles| - 1].heroes[i] == last.heroes[i];
          } else {
            var g, i :| 0 <= g < |p| && 0 <= i < |p[g].heroes| && k == Trim(p[g].heroes[i]);
            assert roles[g] == p[g];
          }
        }
      }
      forall k | exists g, i :: 0 <= g < |roles| && 0 <= i < |roles[g].heroes| && k == Trim(roles[g].heroes[i])
        ensures k in DefaultFilter(roles)
      {
        var g, i :| 0 <= g < |roles| && 0 <= i < |roles[g].heroes| && k == Trim(roles[g].heroes[i]);
        if g == |roles| - 1 {
          assert TrimAll(last.heroes)[i] == k;
        } else {
          assert roles[g] == p[g];
        }
      }
    }
  }

  /** `resetFiltersToDefaults`' loops: every hero of every role, trimmed, set on. */
  method BuildDefaultFilter(roles: seq<RoleGroup>) returns (next: HeroFilter)
    ensures next == DefaultFilter(roles)
  {
    next := map[];
    for g := 0 to |roles|
      invariant next == DefaultFilter(roles[..g])
    {
      assert roles[..g + 1][..g] == roles[..g];
      var heroes := roles[g].heroes;
      ghost var before := next;
      for i := 0 to |heroes|
        invariant next == SetHeroes(before, TrimAll(heroes[..i]), true)
      {
        assert TrimAll(heroes[..i + 1])[..i] == TrimAll(heroes[..i]);
        next := next[Trim(heroes[i]) := true];
      }
      assert heroes[..|heroes|] == heroes;
    }
    assert roles[..|roles|] == roles;
  }

  /** `heroFilterByMode` and `universalEnabledByMode`. */
  class HeroFilters {
    var heroFilterByMode: map<Mode, HeroFilter>
    var universalEnabledByMode: map<Mode, bool>

    ghost predicate Valid()
      reads this
    {
      Items in heroFilterByMode && Powers in heroFilterByMode
      && Items in universalEnabledByMode && Powers in universalEnabledByMode
    }

    /** `loadHeroFilter` with nothing saved: every hero on, universal entries on, both modes. */
    constructor(roles: seq<RoleGroup>)
      ensures Valid()
      ensures heroFilterByMode == map[Items := DefaultFilter(roles), Powers := DefaultFilter(roles)]
      ensures universalEnabledByMode == map[Items := true, Powers := true]
    {
      var next := BuildDefaultFilter(roles);
      heroFilterByMode := map[Items := next, Powers := next];
      universalEnabledByMode := map[Items := true, Powers := true];
    }

    /** `setAllFilters(nextOn)` in mode `mode`: every hero key and the universal switch. */
    method SetAllFilters(mode: Mode, nextOn: bool)
      requires Valid()
      modifies this
      ensures Valid()
      ensures heroFilterByMode == old(heroFilterByMode)[mode := AllSet(old(heroFilterByMode)[mode], nextOn)]
      ensures universalEnabledByMode == old(universalEnabledByMode)[mode := nextOn]
    {
      var cur := heroFilterByMode[mode];
      ghost var orig := cur;
      var keys := cur.Keys;
      while keys != {}
        invariant keys <= orig.Keys && cur.Keys == orig.Keys
        invariant forall k | k in cur :: cur[k] == if k in keys then orig[k] else nextOn
        decreases |keys|
      {
        var k :| k in keys;
        cur := cur[k := nextOn];
        keys := keys - {k};
      }
      assert cur == AllSet(orig, nextOn);
      heroFilterByMode := heroFilterByMode[mode := cur];
      universalEnabledByMode := universalEnabledByMode[mode := nextOn];
    }

    /** `setRoleFilters(role, on)` in mode `mode`, for the role's hero list. */
    method SetRoleFilters(mode: Mode, roleHeroes: seq<string>, on: bool)
      requires Valid()
      modifies this
      ensures Valid()
      ensures heroFilterByMode ==
                old(heroFilterByMode)[mode := SetHeroes(old(heroFilterByMode)[mode], TrimAll(roleHeroes), on)]
      ensures universalEnabledByMode == old(universalEnabledByMode)
    {
      var cur := heroFilterByMode[mode];
      ghost var orig := cur;
      var heroes := TrimAll(roleHeroes);
      for i := 0 to |heroes|
        invariant cur == SetHeroes(orig, heroes[..i], on)
      {
        assert heroes[..i + 1][..i] == heroes[..i];
        cur := cur[heroes[i] := on];
      }
      assert heroes[..|heroes|] == heroes;
      heroFilterByMode := heroFilterByMode[mode := cur];
    }

    /** The filter part of `resetFiltersToDefaults` in mode `mode`. */
    method ResetToDefaults(mode: Mode, roles: seq<RoleGroup>)
      requires Valid()
      modifies this
      ensures Valid()
      ensures heroFilterByMode == old(heroFilterByMode)[mode := DefaultFilter(roles)]
      ensures universalEnabledByMode == old(universalEnabledByMode)[mode := true]
    {
      var next := BuildDefaultFilter(roles);
      heroFilterByMode := heroFilterByMode[mode := next];
      universalEnabledByMode := universalEnabledByMode[mode := true];
    }
  }
}
