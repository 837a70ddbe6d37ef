/** The bank rule of `renderFromState`: the catalog-ordered ids that no tier holds and whose
    entry exists and is enabled; and what the tier lists show, for the snapshot taken back. */
module Bank {
  import opened Assignment
  import opened Catalog
  import opened Filters

  /** `TIERS.flatMap((t) => st[t])`: every value in a tier, tier by tier. */
  function Placed(st: State): seq<Json> {
    st.s + st.a + st.b + st.c + st.d
  }

  lemma PlacedSpec(st: State, v: Json)
    ensures v in Placed(st) <==> exists t: Tier :: v in st.Get(t)
  {
    if v in Placed(st) {
      if v in st.s { assert v in st.Get(S); }
      else if v in st.a { assert v in st.Get(A); }
      else if v in st.b { assert v in st.Get(B); }
      else if v in st.c { assert v in st.Get(C); }
      else { assert v in st.Get(D); }
    }
  }

  /** The id goes in the bank: not placed, in the catalog, enabled by the filter. */
  predicate InBank(st: State, byId: map<string, Entry>, cur: HeroFilter, universal: bool, id: string) {
    JStr(id) !in Placed(st) && id in byId && ItemEnabled(cur, universal, byId[id])
  }

  /** `ordered.filter(...)`. */
  function BankIds(ordered: seq<string>, st: State, byId: map<string, Entry>, cur: HeroFilter,
                   universal: bool): seq<string>
  {
    if ordered == [] then []
    else
      BankIds(ordered[..|ordered| - 1], st, byId, cur, universal)
      + (if InBank(st, byId, cur, universal, ordered[|ordered| - 1]) then [ordered[|ordered| - 1]] else [])
  }

  /** The bank holds exactly the catalog ids that no tier holds and the filter shows, in
      catalog order; so every shown catalog id is either placed in a tier or in the bank,
      never both. */
  lemma {:induction false} BankSpec(ordered: seq<string>, st: State, byId: map<string, Entry>,
                                    cur: HeroFilter, universal: bool)
    ensures forall id :: id in BankIds(ordered, st, byId, cur, universal) <==>
              id in ordered && InBank(st, byId, cur, universal, id)
    ensures IsSubsequence(BankIds(ordered, st, byId, cur, universal), ordered)
  {
    if ordered != [] {
      var p := ordered[..|ordered| - 1];
      var last := ordered[|ordered| - 1];
      BankSpec(p, st, byId, cur, universal);
      assert ordered == p + [last];
      SubsequenceExtend(BankIds(p, st, byId, cur, universal), p, last,
                        InBank(st, byId, cur, universal, last));
    }
  }

  /** A subsequence stays one when the same element is appended to both, or to the longer. */
  lemma {:induction false} SubsequenceExtend<T>(a: seq<T>, b: seq<T>, x: T, both: bool)
    requires IsSubsequence(a, b)
    ensures IsSubsequence(a + (if both then [x] else []), b + [x])
    decreases |b|
  {
    var a' := a + (if both then [x] else []);
    if b == [] {
      assert a == [];
      if both { assert a' == [x] && a'[1..] == [] && (b + [x])[1..] == []; }
    } else if a == [] {
      if both {
        SubsequenceExtend(a, b[1..], x, both);
        assert (b + [x])[1..] == b[1..] + [x];
      }
    } else {
      assert (b + [x])[1..] == b[1..] + [x];
      assert a'[0] == a[0] && a'[1..] == a[1..] + (if both then [x] else []);
      if a[0] == b[0] && IsSubsequence(a[1..], b[1..]) {
        SubsequenceExtend(a[1..], b[1..], x, both);
      } else {
        SubsequenceExtend(a, b[1..], x, both);
      }
    }
  }

  /** The ids of a tier's values that `renderFromState` shows as cards (`BY_ID[id]` exists). */
  function RenderedTier(tier: seq<Json>, byId: map<string, Entry>): seq<string> {
    if tier == [] then []
    else
      RenderedTier(tier[..|tier| - 1], byId)
      + (if tier[|tier| - 1].JStr? && tier[|tier| - 1].s in byId then [tier[|tier| - 1].s] else [])
  }

  /** A tier holding only catalog ids shows one card per value and reads back unchanged. */
  lemma {:induction false} RenderedTierReadsBack(tier: seq<Json>, allowed: set<string>, byId: map<string, Entry>)
    requires forall v :: v in tier ==> IsAllowed(v, allowed)
    requires allowed <= byId.Keys
    ensures AsValues(RenderedTier(tier, byId)) == tier
  {
    if tier != [] {
      var p := tier[..|tier| - 1];
      assert forall v :: v in p ==> v in tier;
      RenderedTierReadsBack(p, allowed, byId);
      assert tier[|tier| - 1] in tier;
      assert tier == p + [tier[|tier| - 1]];
    }
  }
}
