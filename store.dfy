/** The assignment store: the current mode and one five-tier state per mode, with the
    operations that replace or rewrite those states (sanitize, reset, snapshot from the
    lists, tab switch, load from a share link). */
module Store {
  import opened Wrappers
  import opened Assignment
  import opened Share
  import opened ShareLink
  import opened Base64Url
  import opened Reorder

  /** The `data-id`s of the `.item` children of a list, in list order; the placeholder is
      not an `.item` and is skipped. */
  function Ids(l: seq<Slot>): seq<string> {
    if l == [] then []
    else Ids(l[..|l| - 1]) + (if l[|l| - 1].Item? then [l[|l| - 1].card.id] else [])
  }

  /** The ids of a list as tier values. */
  function TierValues(l: seq<Slot>): seq<Json> {
    AsValues(Ids(l))
  }

  /** The state `updateStateFromDom` reads off the lists: list 0 is the bank, lists 1..5 are
      the tiers S..D. */
  function Snapshot(ls: seq<seq<Slot>>): State
    requires |ls| == 6
  {
    State(TierValues(ls[1]), TierValues(ls[2]), TierValues(ls[3]), TierValues(ls[4]), TierValues(ls[5]))
  }

  /** Tier `Tiers[i]` of a snapshot is read from list `i + 1`. */
  lemma SnapshotTier(ls: seq<seq<Slot>>, i: int)
    requires |ls| == 6 && 0 <= i < 5
    ensures Snapshot(ls).Get(Tiers[i]) == TierValues(ls[i + 1])
  {
  }

  lemma {:induction false} IdsConcat(a: seq<Slot>, b: seq<Slot>)
    ensures Ids(a + b) == Ids(a) + Ids(b)
    decreases |b|
  {
    if b != [] {
      var b' := b[..|b| - 1];
      assert a + b == (a + b') + [b[|b| - 1]];
      assert (a + b)[..|a + b| - 1] == a + b';
      assert (a + b)[|a + b| - 1] == b[|b| - 1];
      IdsConcat(a, b');
    } else {
      assert a + b == a;
    }
  }

  lemma {:induction false} IdsWithoutPlaceholder(l: seq<Slot>)
    ensures Ids(Without(l, Placeholder)) == Ids(l)
  {
    if l != [] {
      var p := l[..|l| - 1];
      assert l == p + [l[|l| - 1]];
      WithoutConcat(p, [l[|l| - 1]], Placeholder);
      IdsWithoutPlaceholder(p);
      IdsConcat(Without(p, Placeholder), Without([l[|l| - 1]], Placeholder));
      assert Without([l[|l| - 1]], Placeholder) == if l[|l| - 1] == Placeholder then [] else [l[|l| - 1]];
    }
  }

  /** The snapshot stores no bank order and ignores where the placeholder stands. */
  lemma SnapshotIgnoresBankAndPlaceholder(ls: seq<seq<Slot>>, bank: seq<Slot>)
    requires |ls| == 6
    ensures Snapshot(ls[0 := bank]) == Snapshot(ls)
    ensures Snapshot(MapWithout(ls, Placeholder)) == Snapshot(ls)
  {
    forall i | 1 <= i < 6 ensures Ids(MapWithout(ls, Placeholder)[i]) == Ids(ls[i]) {
      IdsWithoutPlaceholder(ls[i]);
    }
  }

  /** After a drop into tier list `pi`, the snapshot's tier holds the dragged card's id where
      the placeholder stood, between the ids of the list's other cards in their old order. */
  lemma DropSnapshot(ls: seq<seq<Slot>>, c: Card, pi: int, pk: int)
    requires |ls| == 6 && 1 <= pi < 6
    requires 0 <= pk < |ls[pi]| && ls[pi][pk] == Placeholder
    requires CountIn(ls, Placeholder) == 1
    ensures Snapshot(SettleAll(ls, c)).Get(Tiers[pi - 1]) ==
              AsValues(Ids(Without(ls[pi][..pk], Item(c)))) + [JStr(c.id)]
              + AsValues(Ids(Without(ls[pi][pk + 1..], Item(c))))
  {
    DropPlacesCard(ls, c, pi, pk);
    SnapshotTier(SettleAll(ls, c), pi - 1);
    IdsAround(Without(ls[pi][..pk], Item(c)), c, Without(ls[pi][pk + 1..], Item(c)));
  }

  lemma IdsAround(before: seq<Slot>, c: Card, after: seq<Slot>)
    ensures TierValues(before + [Item(c)] + after) ==
              AsValues(Ids(before)) + [JStr(c.id)] + AsValues(Ids(after))
  {
    IdsConcat(before + [Item(c)], after);
    IdsConcat(before, [Item(c)]);
    assert Ids([Item(c)]) == [c.id] by {
      assert [Item(c)][..0] == [];
    }
    assert Ids(before + [Item(c)] + after) == Ids(before) + [c.id] + Ids(after);
  }

  /** `sanitize(st, allowed)`: each tier in turn, in `TIERS` order, is replaced by its
      allowed values. */
  method SanitizeTiers(st: State, allowed: set<string>) returns (r: State)
    ensures r == SanitizeState(st, allowed)
  {
    ghost var target := SanitizeState(st, allowed);
    r := st;
    for i := 0 to 5
      invariant DoneBelow(r, target, st, i)
    {
      SanitizeStep(r, st, allowed, i);
      r := r.With(Tiers[i], KeepAllowed(r.Get(Tiers[i]), allowed));
    }
    DoneBelowAll(r, target, st);
  }

  /** Filtering the next tier in place advances `sanitize`'s loop by one tier. */
  lemma SanitizeStep(r: State, st: State, allowed: set<string>, i: int)
    requires 0 <= i < 5 && DoneBelow(r, SanitizeState(st, allowed), st, i)
    ensures DoneBelow(r.With(Tiers[i], KeepAllowed(r.Get(Tiers[i]), allowed)),
                      SanitizeState(st, allowed), st, i + 1)
  {
    DoneBelowNext(r, SanitizeState(st, allowed), st, i);
    DoneBelowStep(r, SanitizeState(st, allowed), st, i, KeepAllowed(r.Get(Tiers[i]), allowed));
  }

  /** Reads the five tier lists (lists 1..5) into a fresh state, tier by tier. */
  method ReadTiers(lists: seq<seq<Slot>>) returns (st: State)
    requires |lists| == 6
    ensures st == Snapshot(lists)
  {
    ghost var target := Snapshot(lists);
    st := EmptyState();
    for i := 0 to 5
      invariant DoneBelow(st, target, EmptyState(), i)
    {
      SnapshotTier(lists, i);
      DoneBelowStep(st, target, EmptyState(), i, TierValues(lists[i + 1]));
      st := st.With(Tiers[i], TierValues(lists[i + 1]));
    }
    DoneBelowAll(st, target, EmptyState());
  }

  class TierStore {
    var mode: Mode
    var stateByMode: map<Mode, State>
    /** The ids of each mode's catalog (`idsByMode`). */
    const itemsAllowed: set<string>
    const powersAllowed: set<string>

    function Allowed(m: Mode): set<string> {
      match m
      case Items => itemsAllowed
      case Powers => powersAllowed
    }

    /** Both modes always have a state. */
    ghost predicate Valid()
      reads this
    {
      Items in stateByMode && Powers in stateByMode
    }

    /** The store at start-up: items mode, both states empty. */
    constructor(itemIds: seq<string>, powerIds: seq<string>)
      ensures Valid() && mode == Items
      ensures stateByMode == map[Items := EmptyState(), Powers := EmptyState()]
      ensures itemsAllowed == set id | id in itemIds
      ensures powersAllowed == set id | id in powerIds
    {
      mode := Items;
      stateByMode := map[Items := EmptyState(), Powers := EmptyState()];
      itemsAllowed := set id | id in itemIds;
      powersAllowed := set id | id in powerIds;
    }

    /** `sanitizeStates`: each mode's tiers keep only the ids of that mode's own catalog. */
    method SanitizeStates()
      requires Valid()
      modifies this
      ensures Valid() && mode == old(mode)
      ensures stateByMode == map[Items := SanitizeState(old(stateByMode)[Items], itemsAllowed),
                                 Powers := SanitizeState(old(stateByMode)[Powers], powersAllowed)]
    {
      var items := SanitizeTiers(stateByMode[Items], itemsAllowed);
      var powers := SanitizeTiers(stateByMode[Powers], powersAllowed);
      stateByMode := map[Items := items, Powers := powers];
    }

    /** The reset button's state part: the current mode's tiers are emptied. */
    method Reset()
      requires Valid()
      modifies this
      ensures Valid() && mode == old(mode)
      ensures stateByMode == old(stateByMode)[mode := EmptyState()]
    {
      stateByMode := stateByMode[mode := EmptyState()];
    }

    /** `updateStateFromDom`: the current mode's state becomes what the tier lists show. */
    method UpdateStateFromDom(board: Board)
      requires Valid() && |board.lists| == 6
      modifies this
      ensures Valid() && mode == old(mode)
      ensures stateByMode == old(stateByMode)[mode := Snapshot(board.lists)]
    {
      var st := ReadTiers(board.lists);
      stateByMode := stateByMode[mode := st];
    }

    /** The items / powers tab: a click on the active tab does nothing; otherwise the active
        mode is saved from the lists and the other mode becomes active with its own state
        untouched. */
    method SelectTab(target: Mode, board: Board)
      requires Valid() && |board.lists| == 6
      modifies this
      ensures Valid() && mode == target
      ensures old(mode) == target ==> stateByMode == old(stateByMode)
      ensures old(mode) != target ==> stateByMode == old(stateByMode)[old(mode) := Snapshot(board.lists)]
      ensures stateByMode[target] == old(stateByMode)[target]
    {
      if mode == target {
        return;
      }
      UpdateStateFromDom(board);
      mode := target;
    }

    /** `tryLoadFromHash`: all or nothing. Without an `s=` parameter, or when any decoding
        step fails, nothing changes; otherwise the restored mode and states are committed and
        sanitized against the catalogs. */
    method TryLoadFromHash(hash: string, decode: seq<Byte> -> Option<Json>) returns (ok: bool)
      requires Valid()
      modifies this
      ensures Valid()
      ensures ok <==> LoadFromHash(hash, decode).Some?
      ensures !ok ==> mode == old(mode) && stateByMode == old(stateByMode)
      ensures ok ==> var r := LoadFromHash(hash, decode).value;
                     mode == r.mode
                     && stateByMode == map[Items := SanitizeState(r.items, itemsAllowed),
                                           Powers := SanitizeState(r.powers, powersAllowed)]
    {
      var restored := LoadFromHash(hash, decode);
      if restored.None? {
        return false;
      }
      mode := restored.value.mode;
      stateByMode := stateByMode[Items := restored.value.items][Powers := restored.value.powers];
      SanitizeStates();
      ok := true;
    }
  }

  /** A store whose states are sanitized comes back exactly from its own share link, given
      a JSON/gzip step that round-trips the payload. */
  lemma ShareLinkRestoresStore(m: Mode, items: State, powers: State,
                               itemsAllowed: set<string>, powersAllowed: set<string>,
                               encode: Json -> seq<Byte>, decode: seq<Byte> -> Option<Json>)
    requires IsSanitized(items, itemsAllowed) && IsSanitized(powers, powersAllowed)
    requires decode(encode(BuildSharePayload(m, items, powers))) == Some(BuildSharePayload(m, items, powers))
    requires |encode(BuildSharePayload(m, items, powers))| > 0
    ensures LoadFromHash(ShareFragment(m, items, powers, encode), decode).Some?
    ensures var r := LoadFromHash(ShareFragment(m, items, powers, encode), decode).value;
            r.mode == m
            && SanitizeState(r.items, itemsAllowed) == items
            && SanitizeState(r.powers, powersAllowed) == powers
  {
    ShareLinkRoundTrip(m, items, powers, encode, decode);
    SanitizedUnchanged(items, itemsAllowed);
    SanitizedUnchanged(powers, powersAllowed);
  }
}
