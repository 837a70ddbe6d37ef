/** The reorder engine: the drop-position rule `getDragAfterElement` and the drag
    bookkeeping over the six lists (the bank, then tiers S to D), each a sequence of
    slots holding a card element or the drag placeholder. */
module Reorder {

  /** A card element; its identity, not its id, is what the lists hold and move. */
  class Card {
    const id: string

    constructor(id: string)
      ensures this.id == id
    {
      this.id := id;
    }
  }

  /** A child of a list: a card or the placeholder of the current drag. */
  datatype Slot = Item(card: Card) | Placeholder

  /** `getBoundingClientRect()` as far as the rule reads it. */
  datatype Rect = Rect(top: real, bottom: real, left: real, width: real)

  function Abs(v: real): real {
    if v < 0.0 then -v else v
  }

  /** `y >= r.top && y <= r.bottom`. */
  predicate InSameRow(r: Rect, y: real) {
    y >= r.top && y <= r.bottom
  }

  /** `r.left + r.width / 2`. */
  function Mid(r: Rect): real {
    r.left + r.width / 2.0
  }

  /** The card may receive the drop before it: in the pointer's row and right of the pointer's
      x at its midpoint, or wholly below the pointer. */
  predicate Qualifies(r: Rect, x: real, y: real) {
    (InSameRow(r, y) && x < Mid(r)) || (!InSameRow(r, y) && y < r.top)
  }

  /** Distance to the pointer: in the same row, horizontal distance to the midpoint;
      below, the vertical gap weighted by 1000 plus the horizontal distance to the left edge. */
  function Score(r: Rect, x: real, y: real): real {
    if InSameRow(r, y) then Abs(Mid(r) - x) else (r.top - y) * 1000.0 + Abs(r.left - x)
  }

  /** A slot that `.item:not(.is-dragging)` selects, other than the dragged card, and that
      qualifies. */
  predicate Qualifying(s: Slot, draggingEl: Card?, x: real, y: real, rectOf: Card -> Rect) {
    s.Item? && s.card != draggingEl && Qualifies(rectOf(s.card), x, y)
  }

  /** Among the first `n` slots, slot `i` qualifies with the least score, and every
      qualifying slot before it has a strictly greater one. */
  predicate BestAmong(container: seq<Slot>, n: int, i: int, draggingEl: Card?, x: real, y: real,
                      rectOf: Card -> Rect)
    requires 0 <= n <= |container|
  {
    0 <= i < n && Qualifying(container[i], draggingEl, x, y, rectOf)
    && (forall j :: 0 <= j < n && Qualifying(container[j], draggingEl, x, y, rectOf) ==>
          Score(rectOf(container[i].card), x, y) <= Score(rectOf(container[j].card), x, y))
    && (forall j :: 0 <= j < i && Qualifying(container[j], draggingEl, x, y, rectOf) ==>
          Score(rectOf(container[i].card), x, y) < Score(rectOf(container[j].card), x, y))
  }

  /** What the drop rule answers for a list: null when no slot qualifies, otherwise the card
      of the best slot, which is never the dragged card. */
  predicate IsDropTarget(container: seq<Slot>, draggingEl: Card?, x: real, y: real, rectOf: Card -> Rect,
                         after: Card?)
  {
    (after == null <==>
       forall j :: 0 <= j < |container| ==> !Qualifying(container[j], draggingEl, x, y, rectOf))
    && (after != null ==>
          after != draggingEl
          && exists i :: 0 <= i < |container| && BestAmong(container, |container|, i, draggingEl, x, y, rectOf)
                         && container[i] == Item(after))
  }

  /** The rule has one answer for given rectangles and pointer. */
  lemma DropTargetUnique(container: seq<Slot>, draggingEl: Card?, x: real, y: real, rectOf: Card -> Rect,
                         a1: Card?, a2: Card?)
    requires IsDropTarget(container, draggingEl, x, y, rectOf, a1)
    requires IsDropTarget(container, draggingEl, x, y, rectOf, a2)
    ensures a1 == a2
  {
    if a1 != null && a2 != null {
      var i :| BestAmong(container, |container|, i, draggingEl, x, y, rectOf) && container[i] == Item(a1);
      var k :| BestAmong(container, |container|, k, draggingEl, x, y, rectOf) && container[k] == Item(a2);
      BestUnique(container, i, k, draggingEl, x, y, rectOf);
    }
  }

  /** At most one slot is the best: the earliest of the least-scored. */
  lemma BestUnique(container: seq<Slot>, i: int, k: int, draggingEl: Card?, x: real, y: real,
                   rectOf: Card -> Rect)
    requires BestAmong(container, |container|, i, draggingEl, x, y, rectOf)
    requires BestAmong(container, |container|, k, draggingEl, x, y, rectOf)
    ensures i == k
  {
  }

  /** The card the drop rule holds after looking at the first `n` slots: a qualifying slot
      replaces the one held only with a strictly smaller score. */
  function BestFrom(container: seq<Slot>, n: nat, draggingEl: Card?, x: real, y: real,
                    rectOf: Card -> Rect): (r: Card?)
    requires n <= |container|
    ensures r != null ==> r != draggingEl && Item(r) in container
  {
    if n == 0 then null
    else
      var prev := BestFrom(container, n - 1, draggingEl, x, y, rectOf);
      var s := container[n - 1];
      if Qualifying(s, draggingEl, x, y, rectOf)
         && (prev == null || Score(rectOf(s.card), x, y) < Score(rectOf(prev), x, y))
      then s.card
      else prev
  }

  /** The card the drop rule picks in a whole list, null when it picks none. */
  function DropTarget(container: seq<Slot>, draggingEl: Card?, x: real, y: real,
                      rectOf: Card -> Rect): (r: Card?)
    ensures r != null ==> r != draggingEl && Item(r) in container
  {
    BestFrom(container, |container|, draggingEl, x, y, rectOf)
  }

  /** After `n` slots the card held is null exactly when none of them qualified, and is
      otherwise the best of them. */
  lemma {:induction false} BestFromSpec(container: seq<Slot>, n: nat, draggingEl: Card?, x: real, y: real,
                                        rectOf: Card -> Rect)
    requires n <= |container|
    ensures BestFrom(container, n, draggingEl, x, y, rectOf) == null <==>
              forall j :: 0 <= j < n ==> !Qualifying(container[j], draggingEl, x, y, rectOf)
    ensures BestFrom(container, n, draggingEl, x, y, rectOf) != null ==>
              exists i :: BestAmong(container, n, i, draggingEl, x, y, rectOf)
                          && container[i] == Item(BestFrom(container, n, draggingEl, x, y, rectOf))
  {
    if n > 0 {
      BestFromSpec(container, n - 1, draggingEl, x, y, rectOf);
      var prev := BestFrom(container, n - 1, draggingEl, x, y, rectOf);
      var s := container[n - 1];
      if prev == null {
        if Qualifying(s, draggingEl, x, y, rectOf) {
          BestIsNew(container, n, draggingEl, x, y, rectOf);
        }
      } else {
        var i :| BestAmong(container, n - 1, i, draggingEl, x, y, rectOf) && container[i] == Item(prev);
        if Qualifying(s, draggingEl, x, y, rectOf) && Score(rectOf(s.card), x, y) < Score(rectOf(prev), x, y) {
          BestIsNew(container, n, draggingEl, x, y, rectOf);
        } else {
          BestStays(container, n, i, draggingEl, x, y, rectOf);
        }
      }
    }
  }

  /** A qualifying slot scoring strictly below every earlier qualifying slot is the best. */
  lemma BestIsNew(container: seq<Slot>, n: nat, draggingEl: Card?, x: real, y: real, rectOf: Card -> Rect)
    requires 0 < n <= |container| && Qualifying(container[n - 1], draggingEl, x, y, rectOf)
    requires BestFrom(container, n - 1, draggingEl, x, y, rectOf) == null ==>
               forall j :: 0 <= j < n - 1 ==> !Qualifying(container[j], draggingEl, x, y, rectOf)
    requires BestFrom(container, n - 1, draggingEl, x, y, rectOf) != null ==>
               exists i :: BestAmong(container, n - 1, i, draggingEl, x, y, rectOf)
                           && container[i] == Item(BestFrom(container, n - 1, draggingEl, x, y, rectOf))
    requires var prev := BestFrom(container, n - 1, draggingEl, x, y, rectOf);
             prev != null ==> Score(rectOf(container[n - 1].card), x, y) < Score(rectOf(prev), x, y)
    ensures BestAmong(container, n, n - 1, draggingEl, x, y, rectOf)
  {
    var prev := BestFrom(container, n - 1, draggingEl, x, y, rectOf);
    if prev != null {
      var i :| BestAmong(container, n - 1, i, draggingEl, x, y, rectOf) && container[i] == Item(prev);
    }
  }

  /** A slot that does not beat the best so far leaves it the best. */
  lemma BestStays(container: seq<Slot>, n: nat, i: int, draggingEl: Card?, x: real, y: real, rectOf: Card -> Rect)
    requires 0 < n <= |container| && BestAmong(container, n - 1, i, draggingEl, x, y, rectOf)
    requires Qualifying(container[n - 1], draggingEl, x, y, rectOf) ==>
               Score(rectOf(container[i].card), x, y) <= Score(rectOf(container[n - 1].card), x, y)
    ensures BestAmong(container, n, i, draggingEl, x, y, rectOf)
  {
  }

  /** The function picks what the rule answers. */
  lemma DropTargetIsDropTarget(container: seq<Slot>, draggingEl: Card?, x: real, y: real, rectOf: Card -> Rect)
    ensures IsDropTarget(container, draggingEl, x, y, rectOf, DropTarget(container, draggingEl, x, y, rectOf))
  {
    BestFromSpec(container, |container|, draggingEl, x, y, rectOf);
  }

  /** `getDragAfterElement(container, x, y)`: the card to drop before, or null to append.
      The loop keeps the best score so far and replaces it only on a strictly smaller one. */
  method GetDragAfterElement(container: seq<Slot>, draggingEl: Card?, x: real, y: real,
                             rectOf: Card -> Rect) returns (best: Card?)
    ensures best == DropTarget(container, draggingEl, x, y, rectOf)
    ensures IsDropTarget(container, draggingEl, x, y, rectOf, best)
  {
    best := null;
    var bestScore := 0.0;
    for i := 0 to |container|
      invariant best == BestFrom(container, i, draggingEl, x, y, rectOf)
      invariant best != null ==> bestScore == Score(rectOf(best), x, y)
    {
      if container[i].Placeholder? || container[i].card == draggingEl {
        continue;
      }
      var el := container[i].card;
      var r := rectOf(el);
      var inSameRow := y >= r.top && y <= r.bottom;
      var isAfterHoriz := x < r.left + r.width / 2.0;
      var isBelow := y < r.top;
      var score: real;
      if inSameRow {
        if !isAfterHoriz {
          continue;
        }
        score := Abs(r.left + r.width / 2.0 - x);
      } else if isBelow {
        score := (r.top - y) * 1000.0 + Abs(r.left - x);
      } else {
        continue;
      }
      if best == null || score < bestScore {
        bestScore := score;
        best := el;
      }
    }
    DropTargetIsDropTarget(container, draggingEl, x, y, rectOf);
  }

  // ---------------------------------------------------------------- list edits

  /** The list with every occurrence of `s` removed, the rest in order. */
  function Without(l: seq<Slot>, s: Slot): seq<Slot>
    decreases |l|
  {
    if l == [] then [] else (if l[0] == s then [] else [l[0]]) + Without(l[1..], s)
  }

  /** Removing `s` drops all of its occurrences and keeps every other slot as often. */
  lemma {:induction false} WithoutMultiset(l: seq<Slot>, s: Slot)
    ensures multiset(Without(l, s)) == multiset(l)[s := 0]
    decreases |l|
  {
    if l != [] {
      WithoutMultiset(l[1..], s);
      assert l == [l[0]] + l[1..];
    }
  }

  lemma {:induction false} WithoutConcat(a: seq<Slot>, b: seq<Slot>, s: Slot)
    ensures Without(a + b, s) == Without(a, s) + Without(b, s)
    decreases |a|
  {
    if a != [] {
      assert (a + b)[1..] == a[1..] + b;
      WithoutConcat(a[1..], b, s);
    } else {
      assert a + b == b;
    }
  }

  lemma {:induction false} WithoutAbsent(l: seq<Slot>, s: Slot)
    requires s !in l
    ensures Without(l, s) == l
    decreases |l|
  {
    if l != [] {
      assert l[0] != s;
      WithoutAbsent(l[1..], s);
      assert l == [l[0]] + l[1..];
    }
  }

  /** The first position of `s`. */
  function IndexOf(l: seq<Slot>, s: Slot): (k: nat)
    requires s in l
    ensures k < |l| && l[k] == s && s !in l[..k]
  {
    if l[0] == s then 0
    else
      var k := IndexOf(l[1..], s);
      assert l[..k + 1] == [l[0]] + l[1..][..k];
      k + 1
  }

  /** `replaceChild(draggingEl, placeholder)` seen from one list: the card leaves the
      list it was in and every placeholder becomes the card. */
  function Settle(l: seq<Slot>, c: Card): seq<Slot>
    decreases |l|
  {
    if l == [] then [] else SettleSlot(l[0], c) + Settle(l[1..], c)
  }

  /** What one slot becomes: the card vanishes, the placeholder becomes the card. */
  function SettleSlot(s: Slot, c: Card): seq<Slot> {
    if s == Item(c) then [] else if s == Placeholder then [Item(c)] else [s]
  }

  /** A count of slots after settling: the card counted as often as the placeholder was,
      and no placeholder. */
  function Settled(m: multiset<Slot>, c: Card): multiset<Slot> {
    m[Item(c) := m[Placeholder]][Placeholder := 0]
  }

  /** Settling counts part by part. */
  lemma SettledAdd(m1: multiset<Slot>, m2: multiset<Slot>, c: Card)
    ensures Settled(m1 + m2, c) == Settled(m1, c) + Settled(m2, c)
  {
    forall s ensures Settled(m1 + m2, c)[s] == (Settled(m1, c) + Settled(m2, c))[s] {
    }
  }

  lemma SettleSlotMultiset(s: Slot, c: Card)
    ensures multiset(SettleSlot(s, c)) == Settled(multiset{s}, c)
  {
    if s == Item(c) {
      assert Settled(multiset{s}, c) == multiset{};
    } else if s == Placeholder {
      assert Settled(multiset{s}, c) == multiset{Item(c)};
    } else {
      assert Settled(multiset{s}, c) == multiset{s};
    }
  }

  /** Settling removes the card and the placeholders and adds the card once per placeholder. */
  lemma {:induction false} SettleMultiset(l: seq<Slot>, c: Card)
    ensures multiset(Settle(l, c)) == Settled(multiset(l), c)
    decreases |l|
  {
    if l != [] {
      var t := l[1..];
      SettleMultiset(t, c);
      assert multiset(l) == multiset{l[0]} + multiset(t) by {
        assert l == [l[0]] + t;
      }
      SettleSlotMultiset(l[0], c);
      SettledAdd(multiset{l[0]}, multiset(t), c);
    }
  }

  lemma {:induction false} SettleConcat(a: seq<Slot>, b: seq<Slot>, c: Card)
    ensures Settle(a + b, c) == Settle(a, c) + Settle(b, c)
    decreases |a|
  {
    if a != [] {
      assert (a + b)[1..] == a[1..] + b;
      SettleConcat(a[1..], b, c);
    } else {
      assert a + b == b;
    }
  }

  /** Without a placeholder, settling only takes the card out. */
  lemma {:induction false} SettleNoPlaceholder(l: seq<Slot>, c: Card)
    requires Placeholder !in l
    ensures Settle(l, c) == Without(l, Item(c))
    decreases |l|
  {
    if l != [] {
      assert l[0] != Placeholder;
      SettleNoPlaceholder(l[1..], c);
    }
  }

  /** Erasing the card and the placeholder, settling changes nothing. */
  lemma {:induction false} SettleKeepsOthers(l: seq<Slot>, c: Card)
    ensures Without(Settle(l, c), Item(c)) == Without(Without(l, Placeholder), Item(c))
    decreases |l|
  {
    if l != [] {
      SettleKeepsOthers(l[1..], c);
      WithoutConcat(SettleSlot(l[0], c), Settle(l[1..], c), Item(c));
      var g := if l[0] == Placeholder then [] else [l[0]];
      WithoutConcat(g, Without(l[1..], Placeholder), Item(c));
    }
  }

  // ---------------------------------------------------------------- across the lists

  /** The slots of all the lists together. */
  function AllSlots(ls: seq<seq<Slot>>): multiset<Slot>
    decreases |ls|
  {
    if ls == [] then multiset{} else multiset(ls[0]) + AllSlots(ls[1..])
  }

  /** How often `s` occurs in all the lists together. */
  function CountIn(ls: seq<seq<Slot>>, s: Slot): (n: int)
    ensures n >= 0
  {
    AllSlots(ls)[s]
  }

  /** Replacing one list changes the count by that list's difference. */
  lemma {:induction false} CountInUpdate(ls: seq<seq<Slot>>, i: int, l: seq<Slot>)
    requires 0 <= i < |ls|
    ensures AllSlots(ls[i := l]) == AllSlots(ls) - multiset(ls[i]) + multiset(l)
    decreases |ls|
  {
    if i > 0 {
      CountInUpdate(ls[1..], i - 1, l);
      assert ls[i := l][1..] == ls[1..][i - 1 := l];
      CountInAtLeastAll(ls[1..], i - 1);
    } else {
      assert ls[i := l][1..] == ls[1..];
    }
  }

  /** Each list's slots are among all the slots. */
  lemma {:induction false} CountInAtLeastAll(ls: seq<seq<Slot>>, j: int)
    requires 0 <= j < |ls|
    ensures multiset(ls[j]) <= AllSlots(ls)
    decreases |ls|
  {
    if j > 0 {
      CountInAtLeastAll(ls[1..], j - 1);
    }
  }

  /** A slot at a position in one list is counted there: once in all is once at all. */
  lemma CountInOne(ls: seq<seq<Slot>>, i: int, k: int, s: Slot)
    requires 0 <= i < |ls| && 0 <= k < |ls[i]| && ls[i][k] == s
    requires CountIn(ls, s) == 1
    ensures s !in ls[i][..k] && s !in ls[i][k + 1..]
    ensures forall j :: 0 <= j < |ls| && j != i ==> s !in ls[j]
  {
    CountInUpdate(ls, i, []);
    CountInAtLeastAll(ls, i);
    assert ls[i] == ls[i][..k] + [s] + ls[i][k + 1..];
    assert multiset(ls[i])[s] == multiset(ls[i][..k])[s] + 1 + multiset(ls[i][k + 1..])[s];
    forall j | 0 <= j < |ls| && j != i ensures s !in ls[j] {
      CountInAtLeast(ls[i := []], j, s);
    }
  }

  lemma {:induction false} CountInAtLeast(ls: seq<seq<Slot>>, j: int, s: Slot)
    requires 0 <= j < |ls|
    ensures CountIn(ls, s) >= multiset(ls[j])[s]
    decreases |ls|
  {
    if j > 0 {
      CountInAtLeast(ls[1..], j - 1, s);
    }
  }

  /** Every list with `s` removed. */
  function MapWithout(ls: seq<seq<Slot>>, s: Slot): (r: seq<seq<Slot>>)
    ensures |r| == |ls| && forall i :: 0 <= i < |ls| ==> r[i] == Without(ls[i], s)
  {
    seq(|ls|, i requires 0 <= i < |ls| => Without(ls[i], s))
  }

  lemma {:induction false} CountInMapWithout(ls: seq<seq<Slot>>, s: Slot)
    ensures AllSlots(MapWithout(ls, s)) == AllSlots(ls)[s := 0]
    decreases |ls|
  {
    if ls != [] {
      CountInMapWithout(ls[1..], s);
      WithoutMultiset(ls[0], s);
      assert MapWithout(ls, s)[1..] == MapWithout(ls[1..], s);
      var m0 := multiset(ls[0]);
      var m1 := AllSlots(ls[1..]);
      assert m0[s := 0] + m1[s := 0] == (m0 + m1)[s := 0];
    }
  }

  /** Every list settled: the state of the lists after `onDragEnd`'s `replaceChild`. */
  function SettleAll(ls: seq<seq<Slot>>, c: Card): (r: seq<seq<Slot>>)
    ensures |r| == |ls| && forall i :: 0 <= i < |ls| ==> r[i] == Settle(ls[i], c)
  {
    seq(|ls|, i requires 0 <= i < |ls| => Settle(ls[i], c))
  }

  lemma {:induction false} CountInSettleAll(ls: seq<seq<Slot>>, c: Card)
    ensures AllSlots(SettleAll(ls, c)) == Settled(AllSlots(ls), c)
    decreases |ls|
  {
    if ls != [] {
      CountInSettleAll(ls[1..], c);
      SettleMultiset(ls[0], c);
      assert SettleAll(ls, c)[1..] == SettleAll(ls[1..], c);
      SettledAdd(multiset(ls[0]), AllSlots(ls[1..]), c);
    }
  }

  /** After the drop, the dragged card stands exactly where the placeholder was, among the
      other slots of that list in their old order, and has left every other list. */
  lemma DropPlacesCard(ls: seq<seq<Slot>>, c: Card, pi: int, pk: int)
    requires 0 <= pi < |ls| && 0 <= pk < |ls[pi]| && ls[pi][pk] == Placeholder
    requires CountIn(ls, Placeholder) == 1
    ensures SettleAll(ls, c)[pi] ==
              Without(ls[pi][..pk], Item(c)) + [Item(c)] + Without(ls[pi][pk + 1..], Item(c))
    ensures forall j :: 0 <= j < |ls| && j != pi ==> SettleAll(ls, c)[j] == Without(ls[j], Item(c))
  {
    CountInOne(ls, pi, pk, Placeholder);
    var l := ls[pi];
    assert l == l[..pk] + [Placeholder] + l[pk + 1..];
    SettleConcat(l[..pk] + [Placeholder], l[pk + 1..], c);
    SettleConcat(l[..pk], [Placeholder], c);
    SettleNoPlaceholder(l[..pk], c);
    SettleNoPlaceholder(l[pk + 1..], c);
    forall j | 0 <= j < |ls| && j != pi ensures SettleAll(ls, c)[j] == Without(ls[j], Item(c)) {
      SettleNoPlaceholder(ls[j], c);
    }
  }

  /** After the drop every other card keeps its list and its order, no card is duplicated,
      and the only slot gone is the placeholder. */
  lemma DropKeepsOthers(ls: seq<seq<Slot>>, c: Card)
    requires CountIn(ls, Placeholder) == 1
    ensures forall j :: 0 <= j < |ls| ==>
              Without(SettleAll(ls, c)[j], Item(c)) == Without(Without(ls[j], Placeholder), Item(c))
    ensures AllSlots(SettleAll(ls, c)) == AllSlots(ls)[Item(c) := 1][Placeholder := 0]
  {
    forall j | 0 <= j < |ls|
      ensures Without(SettleAll(ls, c)[j], Item(c)) == Without(Without(ls[j], Placeholder), Item(c))
    {
      SettleKeepsOthers(ls[j], c);
    }
    CountInSettleAll(ls, c);
  }

  /** `insertBefore(placeholder, after)` on one list, or `appendChild` when `after` is null. */
  function PlaceIn(target: seq<Slot>, after: Card?): seq<Slot>
    requires after != null ==> Item(after) in target
  {
    if after == null then target + [Placeholder]
    else
      var k := IndexOf(target, Item(after));
      target[..k] + [Placeholder] + target[k..]
  }

  /** Inserting the placeholder anywhere in a list without one and erasing it again gives
      back the list. */
  lemma WithoutInserted(target: seq<Slot>, k: int)
    requires 0 <= k <= |target|
    requires Placeholder !in target
    ensures Without(target[..k] + [Placeholder] + target[k..], Placeholder) == target
    ensures multiset(target[..k] + [Placeholder] + target[k..]) == multiset(target) + multiset{Placeholder}
  {
    var a, b := target[..k], target[k..];
    assert target == a + b;
    assert Placeholder !in a && Placeholder !in b;
    calc {
      Without(a + [Placeholder] + b, Placeholder);
      { WithoutConcat(a + [Placeholder], b, Placeholder); }
      Without(a + [Placeholder], Placeholder) + Without(b, Placeholder);
      { WithoutConcat(a, [Placeholder], Placeholder); }
      Without(a, Placeholder) + Without([Placeholder], Placeholder) + Without(b, Placeholder);
      { WithoutAbsent(a, Placeholder); WithoutAbsent(b, Placeholder); }
      a + Without([Placeholder], Placeholder) + b;
      { assert Without([Placeholder], Placeholder) == []; }
      a + b;
    }
  }

  /** Placing the placeholder in a list without one adds it, just before `after` or last,
      and moves nothing else. */
  lemma PlaceInCorrect(target: seq<Slot>, after: Card?)
    requires after != null ==> Item(after) in target
    requires Placeholder !in target
    ensures Without(PlaceIn(target, after), Placeholder) == target
    ensures multiset(PlaceIn(target, after)) == multiset(target) + multiset{Placeholder}
    ensures after == null ==> PlaceIn(target, after) == target + [Placeholder]
    ensures after != null ==>
              exists k :: 0 <= k < |PlaceIn(target, after)| - 1
                && PlaceIn(target, after)[k] == Placeholder && PlaceIn(target, after)[k + 1] == Item(after)
  {
    if after == null {
      WithoutInserted(target, |target|);
      assert target[..|target|] + [Placeholder] + target[|target|..] == target + [Placeholder];
    } else {
      var k := IndexOf(target, Item(after));
      WithoutInserted(target, k);
      var placed := target[..k] + [Placeholder] + target[k..];
      assert placed[k] == Placeholder && placed[k + 1] == Item(after);
    }
  }

  /** The lists after the placeholder moves to list `li`: it leaves wherever it was first. */
  function MovePlaceholder(ls: seq<seq<Slot>>, li: int, after: Card?): seq<seq<Slot>>
    requires 0 <= li < |ls|
    requires after != null ==> Item(after) in ls[li]
  {
    var cleared := MapWithout(ls, Placeholder);
    WithoutMultiset(ls[li], Placeholder);
    assert after != null ==> Item(after) in multiset(cleared[li]);
    cleared[li := PlaceIn(cleared[li], after)]
  }

  /** Moving the placeholder leaves exactly one, in list `li`, and moves no card. */
  lemma MovePlaceholderCorrect(ls: seq<seq<Slot>>, li: int, after: Card?)
    requires 0 <= li < |ls|
    requires after != null ==> Item(after) in ls[li]
    ensures |MovePlaceholder(ls, li, after)| == |ls|
    ensures AllSlots(MovePlaceholder(ls, li, after)) == AllSlots(ls)[Placeholder := 1]
    ensures MovePlaceholder(ls, li, after)[li] == PlaceIn(Without(ls[li], Placeholder), after)
    ensures forall i :: 0 <= i < |ls| ==>
              Without(MovePlaceholder(ls, li, after)[i], Placeholder) == Without(ls[i], Placeholder)
  {
    var cleared := MapWithout(ls, Placeholder);
    var target := cleared[li];
    WithoutMultiset(ls[li], Placeholder);
    assert Placeholder !in multiset(target);
    assert after != null ==> Item(after) in multiset(ls[li]) && Item(after) in multiset(target);
    PlaceInCorrect(target, after);
    MovePlaceholderCount(ls, li, PlaceIn(target, after));
    forall i | 0 <= i < |ls|
      ensures Without(MovePlaceholder(ls, li, after)[i], Placeholder) == Without(ls[i], Placeholder)
    {
      if i != li {
        WithoutTwice(ls[i]);
      }
    }
  }

  /** Erasing the placeholder twice is erasing it once. */
  lemma WithoutTwice(l: seq<Slot>)
    ensures Without(Without(l, Placeholder), Placeholder) == Without(l, Placeholder)
  {
    WithoutMultiset(l, Placeholder);
    assert Placeholder !in multiset(Without(l, Placeholder));
    WithoutAbsent(Without(l, Placeholder), Placeholder);
  }

  /** Clearing the placeholder everywhere and giving list `li` a placeholder-free list plus
      one placeholder leaves one placeholder and every card's count. */
  lemma MovePlaceholderCount(ls: seq<seq<Slot>>, li: int, placed: seq<Slot>)
    requires 0 <= li < |ls|
    requires multiset(placed) == multiset(Without(ls[li], Placeholder)) + multiset{Placeholder}
    ensures AllSlots(MapWithout(ls, Placeholder)[li := placed]) == AllSlots(ls)[Placeholder := 1]
  {
    var cleared := MapWithout(ls, Placeholder);
    CountInMapWithout(ls, Placeholder);
    CountInUpdate(cleared, li, placed);
    CountInAtLeastAll(cleared, li);
  }

  /** Each card element occurs at most once in all the lists. */
  predicate UniqueCards(ls: seq<seq<Slot>>) {
    forall s | s in AllSlots(ls) :: s.Item? ==> AllSlots(ls)[s] == 1
  }

  /** Moving only the placeholder keeps the cards unique. */
  lemma UniqueCardsKept(before: seq<seq<Slot>>, after: seq<seq<Slot>>)
    requires UniqueCards(before)
    requires AllSlots(after)[Placeholder := 0] == AllSlots(before)[Placeholder := 0]
    ensures UniqueCards(after)
  {
    forall s | s in AllSlots(after) && s.Item? ensures AllSlots(after)[s] == 1 {
      assert AllSlots(after)[Placeholder := 0][s] == AllSlots(after)[s];
    }
  }

  /** Moving the placeholder keeps the cards unique, leaves exactly one placeholder and
      leaves each card's count alone. */
  lemma MoveKeepsCards(ls: seq<seq<Slot>>, li: int, after: Card?, c: Card)
    requires 0 <= li < |ls|
    requires after != null ==> Item(after) in ls[li]
    requires UniqueCards(ls)
    ensures UniqueCards(MovePlaceholder(ls, li, after))
    ensures CountIn(MovePlaceholder(ls, li, after), Placeholder) == 1
    ensures CountIn(MovePlaceholder(ls, li, after), Item(c)) == CountIn(ls, Item(c))
  {
    var moved := MovePlaceholder(ls, li, after);
    MovePlaceholderCorrect(ls, li, after);
    assert AllSlots(moved)[Placeholder := 0] == AllSlots(ls)[Placeholder := 0];
    UniqueCardsKept(ls, moved);
  }

  /** Putting the placeholder right after the card at position `k` of list `li`, in lists
      without one, keeps the cards unique and leaves one placeholder and that card once. */
  lemma StartKeepsCards(ls: seq<seq<Slot>>, li: int, k: int)
    requires 0 <= li < |ls| && 0 <= k < |ls[li]| && ls[li][k].Item?
    requires UniqueCards(ls) && CountIn(ls, Placeholder) == 0
    ensures var placed := ls[li][..k + 1] + [Placeholder] + ls[li][k + 1..];
            && UniqueCards(ls[li := placed])
            && CountIn(ls[li := placed], Placeholder) == 1
            && CountIn(ls[li := placed], ls[li][k]) == 1
  {
    var l := ls[li];
    var placed := l[..k + 1] + [Placeholder] + l[k + 1..];
    assert multiset(placed) == multiset(l) + multiset{Placeholder} by {
      assert l == l[..k + 1] + l[k + 1..];
    }
    CountInUpdate(ls, li, placed);
    CountInAtLeastAll(ls, li);
    assert l[k] in multiset(l);
    UniqueCardsKept(ls, ls[li := placed]);
  }

  // ---------------------------------------------------------------- drag state

  /** The six lists with the drag variables `draggingEl`, `dragPlaceholder` (present or not)
      and `dragging`. */
  class Board {
    var lists: seq<seq<Slot>>
    var draggingEl: Card?
    var hasPlaceholder: bool
    var dragging: bool

    /** Six lists; a card element is in at most one place; the placeholder is in the lists
        exactly while a drag is under way, and the dragged card is then in them too. */
    ghost predicate Valid()
      reads this
    {
      |lists| == 6
      && UniqueCards(lists)
      && CountIn(lists, Placeholder) == (if hasPlaceholder then 1 else 0)
      && (hasPlaceholder ==> draggingEl != null && CountIn(lists, Item(draggingEl)) == 1)
    }

    constructor(lists: seq<seq<Slot>>)
      requires |lists| == 6
      requires UniqueCards(lists)
      requires CountIn(lists, Placeholder) == 0
      ensures Valid() && this.lists == lists
      ensures draggingEl == null && !hasPlaceholder && !dragging
    {
      this.lists := lists;
      draggingEl := null;
      hasPlaceholder := false;
      dragging := false;
    }

    /** `onDragStart` on the card at position `k` of list `li`: the placeholder goes right
        after it. */
    method OnDragStart(li: int, k: int)
      requires Valid() && !hasPlaceholder
      requires 0 <= li < |lists| && 0 <= k < |lists[li]| && lists[li][k].Item?
      modifies this
      ensures Valid() && dragging && hasPlaceholder
      ensures draggingEl == old(lists[li][k].card)
      ensures lists == old(lists[li := lists[li][..k + 1] + [Placeholder] + lists[li][k + 1..]])
    {
      dragging := true;
      draggingEl := lists[li][k].card;
      StartKeepsCards(lists, li, k);
      lists := lists[li := lists[li][..k + 1] + [Placeholder] + lists[li][k + 1..]];
      hasPlaceholder := true;
    }

    /** `onListDragOver` on list `li` (the animation-frame callback run at once): the
        placeholder moves before the card the drop rule picks, or to the end of the list.
        Without a placeholder nothing happens. */
    method OnListDragOver(li: int, x: real, y: real, rectOf: Card -> Rect)
      requires Valid() && 0 <= li < |lists|
      modifies this
      ensures Valid()
      ensures draggingEl == old(draggingEl) && hasPlaceholder == old(hasPlaceholder)
      ensures dragging == old(dragging)
      ensures !old(hasPlaceholder) ==> lists == old(lists)
      ensures old(hasPlaceholder) ==>
                lists == MovePlaceholder(old(lists), li, DropTarget(old(lists)[li], draggingEl, x, y, rectOf))
    {
      if !hasPlaceholder {
        return;
      }
      var after := GetDragAfterElement(lists[li], draggingEl, x, y, rectOf);
      MoveKeepsCards(lists, li, after, draggingEl);
      lists := MovePlaceholder(lists, li, after);
    }

    /** `onListDrop`. */
    method OnListDrop()
      requires Valid()
      modifies this
      ensures Valid() && !dragging
      ensures lists == old(lists) && draggingEl == old(draggingEl) && hasPlaceholder == old(hasPlaceholder)
    {
      dragging := false;
    }

    /** `onDragEnd` up to `updateStateFromDom`: the dragged card replaces the placeholder
        and the drag variables are cleared. */
    method FinishDrag()
      requires Valid()
      modifies this
      ensures Valid() && !dragging && draggingEl == null && !hasPlaceholder
      ensures lists == if old(hasPlaceholder) then SettleAll(old(lists), old(draggingEl)) else old(lists)
    {
      dragging := false;
      if hasPlaceholder {
        CountInSettleAll(lists, draggingEl);
        var settled := SettleAll(lists, draggingEl);
        forall s | s in AllSlots(settled) && s.Item? ensures AllSlots(settled)[s] == 1 {
          if s != Item(draggingEl) {
            assert AllSlots(settled)[s] == AllSlots(lists)[s];
          }
        }
        lists := settled;
      }
      draggingEl := null;
      hasPlaceholder := false;
    }
  }
}
