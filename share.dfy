/** The share payload: `buildSharePayload` writes both modes' states with empty tiers and
    empty modes pruned away, and `applySharePayload` reads any JSON value back into a mode
    and two complete states. */
module Share {
  import opened Assignment

  /** What `applySharePayload` returns. */
  datatype Restored = Restored(mode: Mode, items: State, powers: State)

  /** `prune(st)`: the tier keys whose array is non-empty, each with its array. */
  function PruneFields(st: State): map<string, Json> {
    PruneFirst(st, 5)
  }

  /** `prune`'s loop after the first `n` tiers of `TIERS`: each non-empty one has been
      written under its key. */
  function PruneFirst(st: State, n: nat): (out: map<string, Json>)
    requires n <= 5
    ensures forall k :: k in out ==> k in {"S", "A", "B", "C", "D"}
  {
    if n == 0 then map[]
    else
      var out := PruneFirst(st, n - 1);
      var t := Tiers[n - 1];
      if st.Get(t) != [] then out[TierKey(t) := JArr(st.Get(t))] else out
  }

  /** All five tiers are empty. */
  predicate IsEmptyState(st: State) {
    forall t: Tier :: st.Get(t) == []
  }

  /** After `n` tiers, exactly the non-empty ones among them have been written, unchanged. */
  lemma {:induction false} PruneFirstSpec(st: State, n: nat)
    requires n <= 5
    ensures forall j :: 0 <= j < 5 ==>
              (TierKey(Tiers[j]) in PruneFirst(st, n) <==> j < n && st.Get(Tiers[j]) != [])
    ensures forall j :: 0 <= j < n && st.Get(Tiers[j]) != [] ==>
              PruneFirst(st, n)[TierKey(Tiers[j])] == JArr(st.Get(Tiers[j]))
  {
    if n > 0 {
      PruneFirstSpec(st, n - 1);
      assert "S" != "A" && "S" != "B" && "S" != "C" && "S" != "D" && "A" != "B"
        && "A" != "C" && "A" != "D" && "B" != "C" && "B" != "D" && "C" != "D";
    }
  }

  /** `prune` keeps exactly the non-empty tiers, unchanged, and nothing else. */
  lemma PruneFieldsCorrect(st: State)
    ensures forall k :: k in PruneFields(st) ==> k in {"S", "A", "B", "C", "D"}
    ensures forall t: Tier :: st.Get(t) != [] ==> Member(JObj(PruneFields(st)), TierKey(t)) == JArr(st.Get(t))
    ensures forall t: Tier :: st.Get(t) == [] ==> TierKey(t) !in PruneFields(st)
    ensures PruneFields(st) == map[] <==> IsEmptyState(st)
  {
    PruneFirstSpec(st, 5);
    forall t: Tier
      ensures st.Get(t) != [] ==> Member(JObj(PruneFields(st)), TierKey(t)) == JArr(st.Get(t))
      ensures st.Get(t) == [] ==> TierKey(t) !in PruneFields(st)
    {
      assert t == Tiers[TierIndex(t)];
    }
    var f := PruneFields(st);
    if !IsEmptyState(st) {
      var t: Tier :| st.Get(t) != [];
      assert TierKey(t) in f;
    } else {
      assert st.Get(Tiers[0]) == [] && st.Get(Tiers[1]) == [] && st.Get(Tiers[2]) == []
        && st.Get(Tiers[3]) == [] && st.Get(Tiers[4]) == [];
      assert "S" !in f && "A" !in f && "B" !in f && "C" !in f && "D" !in f;
      assert f.Keys == {};
    }
  }

  /** `buildSharePayload(mode, stateByMode)`. */
  function BuildSharePayload(mode: Mode, items: State, powers: State): Json {
    PayloadOf(mode, PruneFields(items), PruneFields(powers))
  }

  /** `{ m: mode }`, then `i` and `p` set only when they have a key. */
  function PayloadOf(mode: Mode, i: map<string, Json>, p: map<string, Json>): Json {
    JObj(map["m" := JStr(ModeName(mode))] +
         (if i != map[] then map["i" := JObj(i)] else map[]) +
         (if p != map[] then map["p" := JObj(p)] else map[]))
  }

  /** Where each member of an assembled payload comes from. */
  lemma PayloadOfMembers(mode: Mode, i: map<string, Json>, p: map<string, Json>)
    ensures Member(PayloadOf(mode, i, p), "m") == JStr(ModeName(mode))
    ensures Member(PayloadOf(mode, i, p), "i") == (if i != map[] then JObj(i) else JNull)
    ensures Member(PayloadOf(mode, i, p), "p") == (if p != map[] then JObj(p) else JNull)
    ensures "i" in PayloadOf(mode, i, p).fields <==> i != map[]
    ensures "p" in PayloadOf(mode, i, p).fields <==> p != map[]
    ensures forall k :: k in PayloadOf(mode, i, p).fields ==> k in {"m", "i", "p"}
  {
    var mi: map<string, Json> := if i != map[] then map["i" := JObj(i)] else map[];
    var mp: map<string, Json> := if p != map[] then map["p" := JObj(p)] else map[];
    assert "m" != "i" && "m" != "p" && "i" != "p";
    assert mi.Keys <= {"i"} && mp.Keys <= {"p"};
  }

  /** The payload names the mode, and carries a mode's tiers only when that mode has an id
      placed; every tier it carries is a non-empty array. */
  lemma BuildSharePayloadShape(mode: Mode, items: State, powers: State)
    ensures Member(BuildSharePayload(mode, items, powers), "m") == JStr(ModeName(mode))
    ensures "i" in BuildSharePayload(mode, items, powers).fields <==> !IsEmptyState(items)
    ensures "p" in BuildSharePayload(mode, items, powers).fields <==> !IsEmptyState(powers)
    ensures forall k :: k in BuildSharePayload(mode, items, powers).fields ==> k in {"m", "i", "p"}
    ensures forall t: Tier :: items.Get(t) == [] <==>
              !Member(Member(BuildSharePayload(mode, items, powers), "i"), TierKey(t)).JArr?
    ensures forall t: Tier :: powers.Get(t) == [] <==>
              !Member(Member(BuildSharePayload(mode, items, powers), "p"), TierKey(t)).JArr?
  {
    var payload := BuildSharePayload(mode, items, powers);
    PayloadMembers(mode, items, powers);
    PruneFieldsCorrect(items);
    PruneFieldsCorrect(powers);
    forall t: Tier
      ensures items.Get(t) == [] <==> !Member(Member(payload, "i"), TierKey(t)).JArr?
      ensures powers.Get(t) == [] <==> !Member(Member(payload, "p"), TierKey(t)).JArr?
    {
    }
  }

  /** Where each part of the payload comes from. */
  lemma PayloadMembers(mode: Mode, items: State, powers: State)
    ensures Member(BuildSharePayload(mode, items, powers), "m") == JStr(ModeName(mode))
    ensures Member(BuildSharePayload(mode, items, powers), "i") ==
              (if PruneFields(items) != map[] then JObj(PruneFields(items)) else JNull)
    ensures Member(BuildSharePayload(mode, items, powers), "p") ==
              (if PruneFields(powers) != map[] then JObj(PruneFields(powers)) else JNull)
    ensures "i" in BuildSharePayload(mode, items, powers).fields <==> PruneFields(items) != map[]
    ensures "p" in BuildSharePayload(mode, items, powers).fields <==> PruneFields(powers) != map[]
    ensures forall k :: k in BuildSharePayload(mode, items, powers).fields ==> k in {"m", "i", "p"}
  {
    PayloadOfMembers(mode, PruneFields(items), PruneFields(powers));
  }

  /** `payload.m === "powers" ? "powers" : "items"`, with "items" for a falsy payload. */
  function PayloadMode(payload: Json): (m: Mode)
    ensures m == Powers <==> payload.JObj? && "m" in payload.fields && payload.fields["m"] == JStr("powers")
  {
    if Member(payload, "m") == JStr("powers") then Powers else Items
  }

  /** `applySharePayload(payload)`: the mode, and each mode's tiers coerced by `fix`, which
      is `fixStateShape` (a missing or non-object mode gives the empty state). */
  function ApplySharePayload(payload: Json): (r: Restored)
    ensures r.mode == Powers <==> Member(payload, "m") == JStr("powers")
    ensures !Member(payload, "i").JObj? ==> IsEmptyState(r.items)
    ensures !Member(payload, "p").JObj? ==> IsEmptyState(r.powers)
  {
    Restored(PayloadMode(payload), FixStateShape(Member(payload, "i")), FixStateShape(Member(payload, "p")))
  }

  /** Applying a built payload gives back the mode and both states exactly, although the
      payload leaves out empty tiers and empty modes. */
  lemma {:induction false} ShareRoundTrip(mode: Mode, items: State, powers: State)
    ensures ApplySharePayload(BuildSharePayload(mode, items, powers)) == Restored(mode, items, powers)
  {
    var payload := BuildSharePayload(mode, items, powers);
    PayloadMembers(mode, items, powers);
    PruneFieldsCorrect(items);
    PruneFieldsCorrect(powers);
    var r := ApplySharePayload(payload);
    assert r.mode == mode by {
      assert Member(payload, "m") == JStr(ModeName(mode));
      assert "powers" != "items";
    }
    RestoresState(Member(payload, "i"), items);
    RestoresState(Member(payload, "p"), powers);
  }

  /** A mode field that holds exactly the non-empty tiers of `st` (or is missing when there
      are none) is coerced back into `st`. */
  lemma RestoresState(v: Json, st: State)
    requires forall t: Tier :: st.Get(t) != [] ==> Member(v, TierKey(t)) == JArr(st.Get(t))
    requires forall t: Tier :: st.Get(t) == [] ==> !Member(v, TierKey(t)).JArr?
    ensures FixStateShape(v) == st
  {
    var r := FixStateShape(v);
    assert r.Get(S) == st.Get(S) && r.Get(A) == st.Get(A) && r.Get(B) == st.Get(B)
      && r.Get(C) == st.Get(C) && r.Get(D) == st.Get(D);
  }
}
