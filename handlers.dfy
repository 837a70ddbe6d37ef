/** The event handlers that tie the lists, the store and the filters together. */
module Handlers {
  import opened Assignment
  import opened Catalog
  import opened Reorder
  import opened Store
  import opened Bank
  import opened Filters

  /** `onDragEnd`: the dragged card replaces the placeholder, the drag is cleared, and the
      current mode's state is read back from the lists; the other mode is untouched. */
  method OnDragEnd(board: Board, store: TierStore)
    requires board.Valid() && store.Valid()
    modifies board, store
    ensures board.Valid() && !board.dragging && board.draggingEl == null && !board.hasPlaceholder
    ensures board.lists == if old(board.hasPlaceholder) then SettleAll(old(board.lists), old(board.draggingEl))
                           else old(board.lists)
    ensures store.Valid() && store.mode == old(store.mode)
    ensures store.stateByMode == old(store.stateByMode)[store.mode := Snapshot(board.lists)]
  {
    board.FinishDrag();
    store.UpdateStateFromDom(board);
  }

  /** The reset button: the current mode's tiers are emptied and its hero filter goes back
      to every hero on. */
  method OnResetClick(store: TierStore, filters: HeroFilters, roles: seq<RoleGroup>)
    requires store.Valid() && filters.Valid()
    modifies store, filters
    ensures store.Valid() && store.mode == old(store.mode)
    ensures store.stateByMode == old(store.stateByMode)[store.mode := EmptyState()]
    ensures filters.Valid()
    ensures filters.heroFilterByMode == old(filters.heroFilterByMode)[store.mode := DefaultFilter(roles)]
    ensures filters.universalEnabledByMode == old(filters.universalEnabledByMode)[store.mode := true]
  {
    store.Reset();
    filters.ResetToDefaults(store.mode, roles);
  }

  /** The tier lists show, for each tier, the cards `renderFromState` draws for it. */
  predicate ShowsTiers(lists: seq<seq<Slot>>, st: State, byId: map<string, Entry>)
    requires |lists| == 6
  {
    forall i :: 0 <= i < 5 ==> Ids(lists[i + 1]) == RenderedTier(st.Get(Tiers[i]), byId)
  }

  /** Rendering a sanitized state and reading it back from the lists gives the same state:
      a tab switch or a drag end that moves nothing stores what was shown. */
  lemma RenderThenSnapshot(lists: seq<seq<Slot>>, st: State, allowed: set<string>, byId: map<string, Entry>)
    requires |lists| == 6
    requires IsSanitized(st, allowed) && allowed <= byId.Keys
    requires ShowsTiers(lists, st, byId)
    ensures Snapshot(lists) == st
  {
    forall t: Tier ensures Snapshot(lists).Get(t) == st.Get(t) {
      var i := TierIndex(t);
      SnapshotTier(lists, i);
      RenderedTierReadsBack(st.Get(t), allowed, byId);
    }
    StateExt(Snapshot(lists), st);
  }
}
