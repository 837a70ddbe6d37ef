/** Catalog ordering: the fixed rank tables, the ability rank of a power, the hero-to-role
    lookup, and the two comparators with which the item and power catalogs are sorted. */
module Catalog {
  import opened JsText
  import opened Sorting

  /** One catalog entry. A missing hero, category, rarity or ability is the empty string
      (every use goes through `String(x || "")` or `safeName`, which read absent as ""). */
  datatype Entry = Entry(id: string, heroName: string, category: string, rarity: string,
                         cost: int, ability: string, name: string)

  /** One `role: [hero, ...]` member of the catalog's roles object, in object order. */
  datatype RoleGroup = RoleGroup(role: string, heroes: seq<string>)

  // ---------------------------------------------------------------- rank tables

  /** `Rank.role`: tank, damage, support rank 0..2; anything else 99. */
  function RoleRank(role: string): (r: int)
    ensures r == 0 || r == 1 || r == 2 || r == 99
  {
    var s := ToLower(role);
    if s == "tank" then 0 else if s == "damage" then 1 else if s == "support" then 2 else 99
  }

  /** `Rank.category`: weapon, ability, survival, gadget rank 0..3; anything else 99. */
  function CategoryRank(cat: string): (r: int)
    ensures 0 <= r <= 3 || r == 99
  {
    var c := ToLower(cat);
    if c == "weapon" then 0 else if c == "ability" then 1
    else if c == "survival" then 2 else if c == "gadget" then 3 else 99
  }

  /** `Rank.rarity`: common, rare, epic rank 0..2; anything else 99. */
  function RarityRank(rarity: string): (r: int)
    ensures 0 <= r <= 2 || r == 99
  {
    var v := ToLower(rarity);
    if v == "common" then 0 else if v == "rare" then 1 else if v == "epic" then 2 else 99
  }

  /** Each rank table gives its fixed rank exactly to its words, in any letter case. */
  lemma RankTables(s: string)
    ensures RoleRank(s) == 0 <==> EqualsIgnoreCase(s, "tank")
    ensures RoleRank(s) == 1 <==> EqualsIgnoreCase(s, "damage")
    ensures RoleRank(s) == 2 <==> EqualsIgnoreCase(s, "support")
    ensures CategoryRank(s) == 0 <==> EqualsIgnoreCase(s, "weapon")
    ensures CategoryRank(s) == 1 <==> EqualsIgnoreCase(s, "ability")
    ensures CategoryRank(s) == 2 <==> EqualsIgnoreCase(s, "survival")
    ensures CategoryRank(s) == 3 <==> EqualsIgnoreCase(s, "gadget")
    ensures RarityRank(s) == 0 <==> EqualsIgnoreCase(s, "common")
    ensures RarityRank(s) == 1 <==> EqualsIgnoreCase(s, "rare")
    ensures RarityRank(s) == 2 <==> EqualsIgnoreCase(s, "epic")
  {
    assert ToLower("tank") == "tank" && ToLower("damage") == "damage" && ToLower("support") == "support";
    assert ToLower("weapon") == "weapon" && ToLower("ability") == "ability";
    assert ToLower("survival") == "survival" && ToLower("gadget") == "gadget";
    assert ToLower("common") == "common" && ToLower("rare") == "rare" && ToLower("epic") == "epic";
  }

  /** The three rank tables ignore letter case. */
  lemma RanksIgnoreCase(a: string, b: string)
    requires EqualsIgnoreCase(a, b)
    ensures RoleRank(a) == RoleRank(b)
    ensures CategoryRank(a) == CategoryRank(b)
    ensures RarityRank(a) == RarityRank(b)
  {
  }

  // ---------------------------------------------------------------- ability rank

  /** `arr.findIndex(x => x.toLowerCase() === a.toLowerCase())`. */
  function FindIndexIgnoreCase(arr: seq<string>, a: string): (idx: int)
    ensures -1 <= idx < |arr|
    ensures idx == -1 <==> forall k :: 0 <= k < |arr| ==> !EqualsIgnoreCase(arr[k], a)
    ensures idx >= 0 ==> EqualsIgnoreCase(arr[idx], a)
    ensures forall k :: 0 <= k < idx ==> !EqualsIgnoreCase(arr[k], a)
  {
    if arr == [] then -1
    else if EqualsIgnoreCase(arr[0], a) then 0
    else
      var i := FindIndexIgnoreCase(arr[1..], a);
      if i == -1 then -1 else i + 1
  }

  /** `abilitiesMap.get(h) || []`. */
  function AbilitiesOf(abilitiesMap: map<string, seq<string>>, hero: string): seq<string> {
    if hero in abilitiesMap then abilitiesMap[hero] else []
  }

  /** `rankAbilities(heroName, ability, abilitiesMap)`, including its two "Pharah" tests:
      the empty-ability case tests the trimmed name, the unmatched case the name as given. */
  function RankAbilities(heroName: string, ability: string, abilitiesMap: map<string, seq<string>>): int {
    var h := Trim(heroName);
    var a := Trim(ability);
    if a == "" then (if h == "Pharah" then 9999 else -1)
    else
      var arr := AbilitiesOf(abilitiesMap, h);
      var idx := FindIndexIgnoreCase(arr, a);
      if idx == -1 then (if heroName == "Pharah" then 9999 else |arr| + 1) else idx
  }

  /** The ability rank is -1 for an empty ability (9999 for the trimmed name "Pharah"), the
      first case-insensitive position of the ability in the hero's list when it is listed,
      and one past the list's length when it is not (9999 for the raw name "Pharah"). */
  lemma RankAbilitiesCases(heroName: string, ability: string, abilitiesMap: map<string, seq<string>>)
    ensures Trim(ability) == "" ==>
      RankAbilities(heroName, ability, abilitiesMap) == (if Trim(heroName) == "Pharah" then 9999 else -1)
    ensures Trim(ability) != "" ==>
      var arr := AbilitiesOf(abilitiesMap, Trim(heroName));
      var r := RankAbilities(heroName, ability, abilitiesMap);
      var listed := exists k :: 0 <= k < |arr| && EqualsIgnoreCase(arr[k], Trim(ability));
      && (listed ==> 0 <= r < |arr| && EqualsIgnoreCase(arr[r], Trim(ability))
                     && forall k :: 0 <= k < r ==> !EqualsIgnoreCase(arr[k], Trim(ability)))
      && (!listed ==> r == (if heroName == "Pharah" then 9999 else |arr| + 1))
  {
  }

  /** For any hero but "Pharah", a power without an ability sorts before every power with one,
      and a listed ability sorts before an unlisted one. */
  lemma AbilityRankOrder(hero: string, a1: string, a2: string, abilitiesMap: map<string, seq<string>>)
    requires Trim(hero) != "Pharah" && hero != "Pharah"
    requires Trim(a2) != ""
    ensures Trim(a1) == "" ==> RankAbilities(hero, a1, abilitiesMap) < RankAbilities(hero, a2, abilitiesMap)
    ensures var arr := AbilitiesOf(abilitiesMap, Trim(hero));
            Trim(a1) != "" && (exists k :: 0 <= k < |arr| && EqualsIgnoreCase(arr[k], Trim(a1)))
            && !(exists k :: 0 <= k < |arr| && EqualsIgnoreCase(arr[k], Trim(a2)))
            ==> RankAbilities(hero, a1, abilitiesMap) < RankAbilities(hero, a2, abilitiesMap)
  {
    RankAbilitiesCases(hero, a1, abilitiesMap);
    RankAbilitiesCases(hero, a2, abilitiesMap);
  }

  // ---------------------------------------------------------------- hero -> role lookup

  /** The role groups in `Object.keys(roles).sort(localeCompare)` order. Object keys are
      distinct, so sorting the groups by their key gives the keys' order. */
  function SortedGroups(roles: seq<RoleGroup>, lc: (string, string) -> int): seq<RoleGroup> {
    SortBy((g1: RoleGroup, g2: RoleGroup) => lc(g1.role, g2.role), roles)
  }

  predicate HasHero(g: RoleGroup, h: string) {
    ListsHero(g.heroes, h)
  }

  /** Some hero of the list trims to `h`. */
  predicate ListsHero(heroes: seq<string>, h: string) {
    exists k :: 0 <= k < |heroes| && Trim(heroes[k]) == h
  }

  /** `heroToGroup.set(safeName(heroName), role)` for each hero of one group, in order. */
  function AddHeroes(acc: map<string, string>, role: string, heroes: seq<string>): map<string, string> {
    if heroes == [] then acc
    else
      var n := |heroes| - 1;
      AddHeroes(acc, role, heroes[..n])[Trim(heroes[n]) := role]
  }

  /** After one group, a hero the group lists maps to its role; any other keeps its entry. */
  lemma {:induction false} AddHeroesAt(acc: map<string, string>, role: string, heroes: seq<string>, h: string)
    ensures h in AddHeroes(acc, role, heroes) <==> h in acc || ListsHero(heroes, h)
    ensures h in AddHeroes(acc, role, heroes) ==>
              AddHeroes(acc, role, heroes)[h] == if ListsHero(heroes, h) then role else acc[h]
  {
    if heroes != [] {
      var n := |heroes| - 1;
      AddHeroesAt(acc, role, heroes[..n], h);
      if ListsHero(heroes, h) && Trim(heroes[n]) != h {
        var k :| 0 <= k < |heroes| && Trim(heroes[k]) == h;
        assert heroes[..n][k] == heroes[k];
      }
      if ListsHero(heroes[..n], h) {
        var k :| 0 <= k < n && Trim(heroes[..n][k]) == h;
        assert heroes[k] == heroes[..n][k];
      }
    }
  }

  /** The lookup after the given groups have been processed in order. */
  function AddGroups(acc: map<string, string>, groups: seq<RoleGroup>): map<string, string> {
    if groups == [] then acc
    else
      var n := |groups| - 1;
      AddHeroes(AddGroups(acc, groups[..n]), groups[n].role, groups[n].heroes)
  }

  /** `makeHeroRoleLookup(roles).heroToGroup`. */
  function HeroToGroup(roles: seq<RoleGroup>, lc: (string, string) -> int): map<string, string> {
    AddGroups(map[], SortedGroups(roles, lc))
  }

  /** The role of the last group (in processing order) listing `h`. */
  function LastRoleWith(groups: seq<RoleGroup>, h: string): (r: string)
    requires exists i :: 0 <= i < |groups| && HasHero(groups[i], h)
  {
    var n := |groups| - 1;
    if HasHero(groups[n], h) then groups[n].role
    else
      assert exists i :: 0 <= i < n && HasHero(groups[..n][i], h) by {
        var i :| 0 <= i < |groups| && HasHero(groups[i], h);
        assert groups[..n][i] == groups[i];
      }
      LastRoleWith(groups[..n], h)
  }

  /** A hero maps to a role iff some group lists it, and later groups override earlier ones. */
  lemma {:induction false} AddGroupsLastWins(groups: seq<RoleGroup>, h: string)
    ensures h in AddGroups(map[], groups) <==> exists i :: 0 <= i < |groups| && HasHero(groups[i], h)
    ensures h in AddGroups(map[], groups) ==> AddGroups(map[], groups)[h] == LastRoleWith(groups, h)
  {
    if groups != [] {
      var n := |groups| - 1;
      AddGroupsLastWins(groups[..n], h);
      AddHeroesAt(AddGroups(map[], groups[..n]), groups[n].role, groups[n].heroes, h);
      assert forall i :: 0 <= i < n ==> groups[..n][i] == groups[i];
      if !HasHero(groups[n], h) && exists i :: 0 <= i < |groups| && HasHero(groups[i], h) {
        var i :| 0 <= i < |groups| && HasHero(groups[i], h);
        assert i < n && HasHero(groups[..n][i], h);
      }
    }
  }

  /** `makeHeroRoleLookup(roles)`: the role names in sorted order and the hero-to-role map,
      built by the same nested loops as the source. */
  method MakeHeroRoleLookup(roles: seq<RoleGroup>, lc: (string, string) -> int)
    returns (heroToGroup: map<string, string>, roleNames: seq<string>)
    ensures heroToGroup == HeroToGroup(roles, lc)
    ensures |roleNames| == |roles|
    ensures forall i :: 0 <= i < |roleNames| ==> roleNames[i] == SortedGroups(roles, lc)[i].role
  {
    var groups := SortedGroups(roles, lc);
    roleNames := seq(|groups|, i requires 0 <= i < |groups| => groups[i].role);
    heroToGroup := map[];
    for i := 0 to |groups|
      invariant heroToGroup == AddGroups(map[], groups[..i])
    {
      var heroes := groups[i].heroes;
      ghost var before := heroToGroup;
      for j := 0 to |heroes|
        invariant heroToGroup == AddHeroes(before, groups[i].role, heroes[..j])
      {
        assert heroes[..j + 1][..j] == heroes[..j];
        heroToGroup := heroToGroup[Trim(heroes[j]) := groups[i].role];
      }
      assert heroes[..|heroes|] == heroes;
      assert groups[..i + 1][..i] == groups[..i];
    }
    assert groups[..|groups|] == groups;
  }

  /** `heroToGroup.get(hero)` read through `String(x || "")`: the empty string when absent. */
  function GroupOf(heroToGroup: map<string, string>, hero: string): string {
    if hero in heroToGroup then heroToGroup[hero] else ""
  }

  // ---------------------------------------------------------------- item order

  /** The comparator of `sortItems`: universal (hero-less) entries first, then role rank,
      hero name, category rank, rarity rank, cost and entry name. */
  function CompareItems(heroToGroup: map<string, string>, lc: (string, string) -> int, a: Entry, b: Entry): int {
    var aHero := Trim(a.heroName);
    var bHero := Trim(b.heroName);
    var aIsUniversal := aHero == "";
    var bIsUniversal := bHero == "";
    if aIsUniversal != bIsUniversal then (if aIsUniversal then -1 else 1)
    else
      var aGR := RoleRank(GroupOf(heroToGroup, aHero));
      var bGR := RoleRank(GroupOf(heroToGroup, bHero));
      if aGR != bGR then aGR - bGR
      else
        var hn := lc(aHero, bHero);
        if hn != 0 then hn
        else
          var aCat := CategoryRank(a.category);
          var bCat := CategoryRank(b.category);
          if aCat != bCat then aCat - bCat
          else
            var aR := RarityRank(a.rarity);
            var bR := RarityRank(b.rarity);
            if aR != bR then aR - bR
            else if a.cost != b.cost then a.cost - b.cost
            else lc(a.name, b.name)
  }

  function ItemOrder(heroToGroup: map<string, string>, lc: (string, string) -> int): (Entry, Entry) -> int {
    (a: Entry, b: Entry) => CompareItems(heroToGroup, lc, a, b)
  }

  /** `sortItems(items, roles)`: a sorted copy; the input sequence is a value and is untouched. */
  function SortItems(items: seq<Entry>, roles: seq<RoleGroup>, lc: (string, string) -> int): seq<Entry> {
    SortBy(ItemOrder(HeroToGroup(roles, lc), lc), items)
  }

  /** If `localeCompare` is a consistent comparator, so is the item comparator. */
  lemma ItemOrderValid(heroToGroup: map<string, string>, lc: (string, string) -> int)
    requires ValidComparator(lc)
    ensures ValidComparator(ItemOrder(heroToGroup, lc))
  {
    var cmp := ItemOrder(heroToGroup, lc);
    forall a, b ensures SignFlips(cmp, a, b) {
      Flip(lc, Trim(a.heroName), Trim(b.heroName));
      Flip(lc, a.name, b.name);
    }
    forall a, b, c ensures ChainsThrough(cmp, a, b, c) {
      if cmp(a, b) <= 0 && cmp(b, c) <= 0 {
        ItemChain(heroToGroup, lc, a, b, c);
      }
    }
  }

  lemma ItemChain(heroToGroup: map<string, string>, lc: (string, string) -> int, a: Entry, b: Entry, c: Entry)
    requires ValidComparator(lc)
    requires CompareItems(heroToGroup, lc, a, b) <= 0 && CompareItems(heroToGroup, lc, b, c) <= 0
    ensures CompareItems(heroToGroup, lc, a, c) <= 0
  {
    var ha, hb, hc := Trim(a.heroName), Trim(b.heroName), Trim(c.heroName);
    Flip(lc, ha, hb); Flip(lc, hb, hc); Flip(lc, ha, hc);
    Flip(lc, a.name, b.name); Flip(lc, b.name, c.name); Flip(lc, a.name, c.name);
    if lc(ha, hb) <= 0 && lc(hb, hc) <= 0 { Chain(lc, ha, hb, hc); }
    if lc(hc, hb) <= 0 && lc(hb, ha) <= 0 { Chain(lc, hc, hb, ha); }
    if lc(a.name, b.name) <= 0 && lc(b.name, c.name) <= 0 { Chain(lc, a.name, b.name, c.name); }
    if lc(ha, hb) < 0 && lc(hb, hc) <= 0 { ChainStrict(lc, ha, hb, hc); }
    if lc(ha, hb) <= 0 && lc(hb, hc) < 0 {
      if lc(ha, hc) >= 0 { Chain(lc, hc, ha, hb); }
    }
  }

  /** `sortItems` returns a reordering of its input that is ordered by the item comparator,
      keeps entries the comparator ties in input order, and puts every universal entry
      before every hero-owned one. */
  lemma SortItemsCorrect(items: seq<Entry>, roles: seq<RoleGroup>, lc: (string, string) -> int)
    requires ValidComparator(lc)
    ensures multiset(SortItems(items, roles, lc)) == multiset(items)
    ensures SortedBy(ItemOrder(HeroToGroup(roles, lc), lc), SortItems(items, roles, lc))
    ensures forall x :: Ties(ItemOrder(HeroToGroup(roles, lc), lc), SortItems(items, roles, lc), x)
                        == Ties(ItemOrder(HeroToGroup(roles, lc), lc), items, x)
    ensures var r := SortItems(items, roles, lc);
            forall i, j :: 0 <= i < j < |r| && Trim(r[j].heroName) == "" ==> Trim(r[i].heroName) == ""
  {
    var cmp := ItemOrder(HeroToGroup(roles, lc), lc);
    ItemOrderValid(HeroToGroup(roles, lc), lc);
    SortBySorted(cmp, items);
    forall x ensures Ties(cmp, SortItems(items, roles, lc), x) == Ties(cmp, items, x) {
      SortByStable(cmp, items, x);
    }
    var r := SortItems(items, roles, lc);
    forall i, j | 0 <= i < j < |r| && Trim(r[j].heroName) == "" ensures Trim(r[i].heroName) == "" {
      assert cmp(r[i], r[j]) <= 0;
    }
  }

  // ---------------------------------------------------------------- power order

  /** Group rank of `sortPowers`: position of the lower-cased group in ROLE_ORDER
      (Tank, Damage, Support lower-cased), 999 for anything else, "~" standing for no group. */
  function PowerGroupRank(heroToGroup: map<string, string>, hero: string): (r: int)
    ensures r == (if RoleRank(GroupOf(heroToGroup, hero)) == 99 then 999 else RoleRank(GroupOf(heroToGroup, hero)))
  {
    var group := ToLower(if GroupOf(heroToGroup, hero) != "" then GroupOf(heroToGroup, hero) else "~");
    assert ToLower("~") == "~";
    if group == "tank" then 0 else if group == "damage" then 1 else if group == "support" then 2 else 999
  }

  /** The comparator of `sortPowers`: group rank, hero name, ability rank, power name. */
  function ComparePowers(heroToGroup: map<string, string>, abilitiesMap: map<string, seq<string>>,
                         lc: (string, string) -> int, a: Entry, b: Entry): int {
    var aHero := Trim(a.heroName);
    var bHero := Trim(b.heroName);
    var aGR := PowerGroupRank(heroToGroup, aHero);
    var bGR := PowerGroupRank(heroToGroup, bHero);
    if aGR != bGR then aGR - bGR
    else
      var hn := lc(aHero, bHero);
      if hn != 0 then hn
      else
        var aRank := RankAbilities(aHero, a.ability, abilitiesMap);
        var bRank := RankAbilities(bHero, b.ability, abilitiesMap);
        if aRank != bRank then aRank - bRank
        else lc(a.name, b.name)
  }

  function PowerOrder(heroToGroup: map<string, string>, abilitiesMap: map<string, seq<string>>,
                      lc: (string, string) -> int): (Entry, Entry) -> int {
    (a: Entry, b: Entry) => ComparePowers(heroToGroup, abilitiesMap, lc, a, b)
  }

  /** `sortPowers(powers, roles, abilitiesMap)`: a sorted copy of the input. */
  function SortPowers(powers: seq<Entry>, roles: seq<RoleGroup>, abilitiesMap: map<string, seq<string>>,
                      lc: (string, string) -> int): seq<Entry> {
    SortBy(PowerOrder(HeroToGroup(roles, lc), abilitiesMap, lc), powers)
  }

  /** If `localeCompare` is a consistent comparator, so is the power comparator. */
  lemma PowerOrderValid(heroToGroup: map<string, string>, abilitiesMap: map<string, seq<string>>,
                        lc: (string, string) -> int)
    requires ValidComparator(lc)
    ensures ValidComparator(PowerOrder(heroToGroup, abilitiesMap, lc))
  {
    var cmp := PowerOrder(heroToGroup, abilitiesMap, lc);
    forall a, b ensures SignFlips(cmp, a, b) {
      Flip(lc, Trim(a.heroName), Trim(b.heroName));
      Flip(lc, a.name, b.name);
    }
    forall a, b, c ensures ChainsThrough(cmp, a, b, c) {
      if cmp(a, b) <= 0 && cmp(b, c) <= 0 {
        PowerChain(heroToGroup, abilitiesMap, lc, a, b, c);
      }
    }
  }

  lemma PowerChain(heroToGroup: map<string, string>, abilitiesMap: map<string, seq<string>>,
                   lc: (string, string) -> int, a: Entry, b: Entry, c: Entry)
    requires ValidComparator(lc)
    requires ComparePowers(heroToGroup, abilitiesMap, lc, a, b) <= 0
    requires ComparePowers(heroToGroup, abilitiesMap, lc, b, c) <= 0
    ensures ComparePowers(heroToGroup, abilitiesMap, lc, a, c) <= 0
  {
    var ha, hb, hc := Trim(a.heroName), Trim(b.heroName), Trim(c.heroName);
    Flip(lc, ha, hb); Flip(lc, hb, hc); Flip(lc, ha, hc);
    Flip(lc, a.name, b.name); Flip(lc, b.name, c.name); Flip(lc, a.name, c.name);
    if lc(ha, hb) <= 0 && lc(hb, hc) <= 0 { Chain(lc, ha, hb, hc); }
    if lc(a.name, b.name) <= 0 && lc(b.name, c.name) <= 0 { Chain(lc, a.name, b.name, c.name); }
    if lc(ha, hb) < 0 && lc(hb, hc) <= 0 { ChainStrict(lc, ha, hb, hc); }
    if lc(ha, hb) <= 0 && lc(hb, hc) < 0 {
      if lc(ha, hc) >= 0 { Chain(lc, hc, ha, hb); }
    }
  }

  /** `sortPowers` returns a reordering of its input, ordered by the power comparator and
      stable on ties; within the known role groups the group order Tank, Damage, Support holds,
      and powers of heroes with no known group come last. */
  lemma SortPowersCorrect(powers: seq<Entry>, roles: seq<RoleGroup>, abilitiesMap: map<string, seq<string>>,
                          lc: (string, string) -> int)
    requires ValidComparator(lc)
    ensures multiset(SortPowers(powers, roles, abilitiesMap, lc)) == multiset(powers)
    ensures SortedBy(PowerOrder(HeroToGroup(roles, lc), abilitiesMap, lc), SortPowers(powers, roles, abilitiesMap, lc))
    ensures forall x :: Ties(PowerOrder(HeroToGroup(roles, lc), abilitiesMap, lc), SortPowers(powers, roles, abilitiesMap, lc), x)
                        == Ties(PowerOrder(HeroToGroup(roles, lc), abilitiesMap, lc), powers, x)
    ensures var r := SortPowers(powers, roles, abilitiesMap, lc);
            var htg := HeroToGroup(roles, lc);
            forall i, j :: 0 <= i < j < |r| ==>
              PowerGroupRank(htg, Trim(r[i].heroName)) <= PowerGroupRank(htg, Trim(r[j].heroName))
  {
    var htg := HeroToGroup(roles, lc);
    var cmp := PowerOrder(htg, abilitiesMap, lc);
    PowerOrderValid(htg, abilitiesMap, lc);
    SortBySorted(cmp, powers);
    forall x ensures Ties(cmp, SortPowers(powers, roles, abilitiesMap, lc), x) == Ties(cmp, powers, x) {
      SortByStable(cmp, powers, x);
    }
    var r := SortPowers(powers, roles, abilitiesMap, lc);
    forall i, j | 0 <= i < j < |r|
      ensures PowerGroupRank(htg, Trim(r[i].heroName)) <= PowerGroupRank(htg, Trim(r[j].heroName))
    {
      assert cmp(r[i], r[j]) <= 0;
    }
  }
}
