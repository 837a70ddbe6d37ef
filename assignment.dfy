/** The tier-assignment data model: modes, tiers, the JSON values a tier can hold once a
    state has come from storage or a share link, and the two pure coercions applied to
    such states (`fixStateShape` and the per-tier catalog filter of `sanitizeStates`). */
module Assignment {

  datatype Mode = Items | Powers

  datatype Tier = S | A | B | C | D

  /** `TIERS`, in display order. */
  const Tiers: seq<Tier> := [S, A, B, C, D]

  /** Position of a tier in `TIERS`. */
  function TierIndex(t: Tier): (i: int)
    ensures 0 <= i < 5 && Tiers[i] == t
  {
    match t
    case S => 0
    case A => 1
    case B => 2
    case C => 3
    case D => 4
  }

  /** The object key of a tier. */
  function TierKey(t: Tier): string {
    match t
    case S => "S"
    case A => "A"
    case B => "B"
    case C => "C"
    case D => "D"
  }

  /** The string a mode is stored under ("items" | "powers"). */
  function ModeName(m: Mode): string {
    if m == Powers then "powers" else "items"
  }

  /** A JSON value as `JSON.parse` produces it (numbers kept as integers). */
  datatype Json =
    | JNull
    | JBool(b: bool)
    | JNum(n: int)
    | JStr(s: string)
    | JArr(elems: seq<Json>)
    | JObj(fields: map<string, Json>)

  /** One mode's assignment: the sequence of values in each tier, in order. */
  datatype State = State(s: seq<Json>, a: seq<Json>, b: seq<Json>, c: seq<Json>, d: seq<Json>)
  {
    /** `st[t]`. */
    function Get(t: Tier): seq<Json> {
      match t
      case S => s
      case A => a
      case B => b
      case C => c
      case D => d
    }

    /** `st[t] = v`. */
    function With(t: Tier, v: seq<Json>): (r: State)
      ensures r.Get(t) == v
      ensures forall u: Tier :: u != t ==> r.Get(u) == Get(u)
    {
      match t
      case S => this.(s := v)
      case A => this.(a := v)
      case B => this.(b := v)
      case C => this.(c := v)
      case D => this.(d := v)
    }
  }

  /** Ids as tier values. */
  function AsValues(ids: seq<string>): (r: seq<Json>)
    ensures |r| == |ids| && forall i :: 0 <= i < |ids| ==> r[i] == JStr(ids[i])
  {
    seq(|ids|, i requires 0 <= i < |ids| => JStr(ids[i]))
  }

  /** Two states agree when every tier does. */
  lemma StateExt(x: State, y: State)
    requires forall t: Tier :: x.Get(t) == y.Get(t)
    ensures x == y
  {
    assert x.Get(S) == y.Get(S) && x.Get(A) == y.Get(A) && x.Get(B) == y.Get(B)
      && x.Get(C) == y.Get(C) && x.Get(D) == y.Get(D);
  }

  /** The tiers before position `n` of `TIERS` are those of `done`, the others those of
      `base`: a state part way through a tier-by-tier rewrite. */
  ghost predicate DoneBelow(st: State, done: State, base: State, n: int) {
    forall t: Tier :: st.Get(t) == if TierIndex(t) < n then done.Get(t) else base.Get(t)
  }

  /** Writing tier `Tiers[n]` from `done` advances the rewrite by one tier. */
  lemma DoneBelowStep(st: State, done: State, base: State, n: int, v: seq<Json>)
    requires 0 <= n < 5 && DoneBelow(st, done, base, n) && v == done.Get(Tiers[n])
    ensures DoneBelow(st.With(Tiers[n], v), done, base, n + 1)
  {
    assert TierIndex(Tiers[n]) == n;
  }

  /** Part way through, the next tier still holds its `base` value. */
  lemma DoneBelowNext(st: State, done: State, base: State, n: int)
    requires 0 <= n < 5 && DoneBelow(st, done, base, n)
    ensures st.Get(Tiers[n]) == base.Get(Tiers[n])
  {
    assert TierIndex(Tiers[n]) == n;
  }

  /** After all five tiers the rewrite is complete. */
  lemma DoneBelowAll(st: State, done: State, base: State)
    requires DoneBelow(st, done, base, 5)
    ensures st == done
  {
    StateExt(st, done);
  }

  /** Builds a state tier by tier. */
  function MakeState(f: Tier -> seq<Json>): (st: State)
    ensures forall t: Tier :: st.Get(t) == f(t)
  {
    State(f(S), f(A), f(B), f(C), f(D))
  }

  /** `emptyState()`. */
  function EmptyState(): (st: State)
    ensures forall t: Tier :: st.Get(t) == []
  {
    MakeState(t => [])
  }

  /** `v?.[key]` for a JSON value: only an object has properties. */
  function Member(v: Json, key: string): Json {
    if v.JObj? && key in v.fields then v.fields[key] else JNull
  }

  /** `Array.isArray(v?.[t]) ? v[t] : []`. */
  function TierArray(v: Json, t: Tier): seq<Json> {
    var m := Member(v, TierKey(t));
    if m.JArr? then m.elems else []
  }

  /** `fixStateShape(st)`: every tier present, holding the stored array when there is one and
      the empty sequence when the stored value is missing or not an array. */
  function FixStateShape(v: Json): (st: State)
    ensures forall t: Tier :: Member(v, TierKey(t)).JArr? ==> st.Get(t) == Member(v, TierKey(t)).elems
    ensures forall t: Tier :: !Member(v, TierKey(t)).JArr? ==> st.Get(t) == []
  {
    MakeState(t => TierArray(v, t))
  }

  /** The JSON object a state is written as (`JSON.stringify(stateByMode[m])`). */
  function StateJson(st: State): Json {
    JObj(map["S" := JArr(st.s), "A" := JArr(st.a), "B" := JArr(st.b),
             "C" := JArr(st.c), "D" := JArr(st.d)])
  }

  /** Writing a state and coercing it back loses nothing. */
  lemma FixStateShapeRoundTrip(st: State)
    ensures FixStateShape(StateJson(st)) == st
  {
    var j := StateJson(st);
    assert Member(j, "S") == JArr(st.s);
    assert Member(j, "A") == JArr(st.a);
    assert Member(j, "B") == JArr(st.b);
    assert Member(j, "C") == JArr(st.c);
    assert Member(j, "D") == JArr(st.d);
  }

  // ---------------------------------------------------------------- catalog filter

  /** `allowed.has(v)`: a Set of id strings never holds a non-string. */
  predicate IsAllowed(v: Json, allowed: set<string>) {
    v.JStr? && v.s in allowed
  }

  /** `tier.filter(id => allowed.has(id))`: only allowed ids survive, each as often as before. */
  function KeepAllowed(s: seq<Json>, allowed: set<string>): (r: seq<Json>)
    ensures forall v :: v in r ==> IsAllowed(v, allowed)
    ensures forall v :: IsAllowed(v, allowed) ==> multiset(r)[v] == multiset(s)[v]
  {
    if s == [] then []
    else
      assert s == [s[0]] + s[1..];
      (if IsAllowed(s[0], allowed) then [s[0]] else []) + KeepAllowed(s[1..], allowed)
  }

  /** `a` is `b` with some elements dropped, order kept. */
  predicate IsSubsequence<T(==)>(a: seq<T>, b: seq<T>)
    decreases |b|
  {
    if a == [] then true
    else if b == [] then false
    else (a[0] == b[0] && IsSubsequence(a[1..], b[1..])) || IsSubsequence(a, b[1..])
  }

  /** The filter keeps the surviving ids in their original relative order. */
  lemma {:induction false} KeepAllowedOrder(s: seq<Json>, allowed: set<string>)
    ensures IsSubsequence(KeepAllowed(s, allowed), s)
  {
    if s != [] {
      KeepAllowedOrder(s[1..], allowed);
      var rest := KeepAllowed(s[1..], allowed);
      if IsAllowed(s[0], allowed) {
        assert KeepAllowed(s, allowed) == [s[0]] + rest;
        assert ([s[0]] + rest)[1..] == rest;
      } else {
        assert KeepAllowed(s, allowed) == rest;
        assert rest == [] || IsSubsequence(rest, s[1..]);
      }
    }
  }

  /** Filtering a filtered tier changes nothing. */
  lemma {:induction false} KeepAllowedFixed(s: seq<Json>, allowed: set<string>)
    requires forall v :: v in s ==> IsAllowed(v, allowed)
    ensures KeepAllowed(s, allowed) == s
  {
    if s != [] {
      var t := s[1..];
      forall v | v in t ensures IsAllowed(v, allowed) {
        assert v in s;
      }
      KeepAllowedFixed(t, allowed);
      assert IsAllowed(s[0], allowed) by { assert s[0] in s; }
      assert KeepAllowed(s, allowed) == [s[0]] + KeepAllowed(t, allowed);
      assert s == [s[0]] + t;
    }
  }

  /** `sanitize(st, allowed)` as a value: every tier filtered against the catalog. */
  function SanitizeState(st: State, allowed: set<string>): (r: State)
    ensures forall t: Tier :: r.Get(t) == KeepAllowed(st.Get(t), allowed)
  {
    MakeState(t => KeepAllowed(st.Get(t), allowed))
  }

  /** Every tier holds only ids of the catalog. */
  predicate IsSanitized(st: State, allowed: set<string>) {
    forall t: Tier, v :: v in st.Get(t) ==> IsAllowed(v, allowed)
  }

  /** Sanitizing keeps exactly the catalog ids of each tier, in order and with their
      multiplicity, and leaves a state that sanitizing again does not change. */
  lemma SanitizeStateCorrect(st: State, allowed: set<string>)
    ensures IsSanitized(SanitizeState(st, allowed), allowed)
    ensures forall t: Tier, v :: IsAllowed(v, allowed) ==>
              multiset(SanitizeState(st, allowed).Get(t))[v] == multiset(st.Get(t))[v]
    ensures forall t: Tier :: IsSubsequence(SanitizeState(st, allowed).Get(t), st.Get(t))
    ensures SanitizeState(SanitizeState(st, allowed), allowed) == SanitizeState(st, allowed)
  {
    var r := SanitizeState(st, allowed);
    forall t: Tier
      ensures IsSubsequence(r.Get(t), st.Get(t))
      ensures KeepAllowed(r.Get(t), allowed) == r.Get(t)
    {
      KeepAllowedOrder(st.Get(t), allowed);
      KeepAllowedFixed(r.Get(t), allowed);
    }
    var rr := SanitizeState(r, allowed);
    assert rr.s == r.s && rr.a == r.a && rr.b == r.b && rr.c == r.c && rr.d == r.d
      by { assert rr.Get(S) == r.Get(S) && rr.Get(A) == r.Get(A) && rr.Get(B) == r.Get(B)
             && rr.Get(C) == r.Get(C) && rr.Get(D) == r.Get(D); }
  }

  /** A state that is already sanitized is left as it is. */
  lemma SanitizedUnchanged(st: State, allowed: set<string>)
    requires IsSanitized(st, allowed)
    ensures SanitizeState(st, allowed) == st
  {
    forall t: Tier ensures KeepAllowed(st.Get(t), allowed) == st.Get(t) {
      KeepAllowedFixed(st.Get(t), allowed);
    }
    StateExt(SanitizeState(st, allowed), st);
  }
}
