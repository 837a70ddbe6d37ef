# Tier-list assignment engine

The app is a browser tier list with two modes, *items* and *powers*. In each mode, catalog
entries (ids) are placed into five tiers S, A, B, C and D. Entries not placed in a tier sit
in a *bank*.

This project models the engine that keeps that assignment:

- **Catalog order.**
  - The rank tables.
  - The ability rank, including its two "Pharah" special cases.
  - The hero-to-role lookup.
  - The item and power comparators, under a stable sort.
- **Assignment store.**
  - One five-tier state per mode, and the coercion of stored JSON into that shape.
  - Sanitizing against each mode's catalog.
  - Reset.
  - The snapshot taken from the tier lists.
  - The tab switch, which leaves the other mode alone.
- **Share link.**
  - The payload, which omits empty tiers and empty modes, and restoring it.
  - The URL-safe base64 of section 5 of RFC 4648, with padding stripped.
  - The `s=` fragment parameter.
  - The all-or-nothing load from the URL fragment.
- **Reorder engine.**
  - The drop-position rule over card rectangles and a pointer.
  - The drag state machine: the dragged card, the placeholder and the dragging flag over the six lists (bank and five tiers).
- **Hero filter and bank.**
  - The per-mode hero filter and its setters.
  - The role tri-state.
  - The bank: the catalog-ordered ids that no tier holds and the filter shows.

Modules, one per component:

| Module | Component |
|---|---|
| `Wrappers` | The `Option` type |
| `JsText` | `String.prototype.trim`, `toLowerCase`, `escapeHtml` |
| `Sorting` | A stable insertion sort standing in for `Array.prototype.sort` |
| `Catalog` | Ranks, comparators, hero-role lookup |
| `Assignment` | Modes, tiers, JSON values, states, `fixStateShape`, sanitize |
| `Share` | Payload build and apply |
| `Base64Url` | The codec and the browser's `btoa`/`atob` it relies on |
| `ShareLink` | The fragment parameter, the share fragment, load from the hash |
| `Reorder` | The drop rule and the `Board` drag state machine |
| `Filters` | Visibility predicate, tri-state, `HeroFilters` class |
| `Bank` | The bank rule and the rendered tier ids |
| `Store` | The `TierStore` class and the list snapshot |
| `Handlers` | Drag end and the reset button |

Modelling choices:

- **DOM cards** are objects of class `Reorder.Card`, each with a constant id. A list is a sequence of slots, where each slot is a card or the drag placeholder. Moving a card therefore moves that element, not just its id.
- **Tier contents** are sequences of `Json` values. `JSON.parse` of a share link or of stored state can put any value in a tier. Sanitizing keeps only strings that name an entry of the mode's catalog.
- **Parameters** stand for calls into code outside the model:
  - `localeCompare` is a parameter `lc`. The sort results are proved for any `lc` that is a consistent comparator.
  - `JSON.stringify` plus gzip, and gunzip plus `JSON.parse`, are the parameters `encode` and `decode`. The end-to-end share property assumes they round-trip the payload.
  - Bounding rectangles are a parameter `rectOf`.

## Model

| member | source | states |
|---|---|---|
| JsText.TrimStartSuffix | app.js:69-71 | trimming the start leaves a suffix preceded only by white space and not starting with white space |
| JsText.TrimEndPrefix | app.js:69-71 | trimming the end leaves a prefix followed only by white space and not ending with white space |
| JsText.TrimSlice | app.js:69-71 | `safeName` is the slice of the name between white-space runs at both ends, and it neither starts nor ends with white space |
| JsText.TrimIdempotent | app.js:69-71 | trimming a trimmed name changes nothing |
| JsText.TrimOfTrimmed | app.js:69-71 | a string with no white space at either end is its own trim |
| JsText.Trim | app.js:69-71 | `safeName`; specified by TrimSlice, TrimStartSuffix, TrimEndPrefix and TrimIdempotent |
| JsText.ToLower | app.js:85-108 | lower-casing keeps the length and maps each character on its own |
| JsText.ToLowerIdempotent | app.js:213 | lower-casing twice equals once, so a lower-cased string equals its source ignoring case |
| JsText.EscapeHtml | app.js:56-67 | the escaped text holds no `<`, `>` or `"` and is no shorter than the input |
| JsText.EscapeRoundTrip | app.js:56-67 | escaping loses nothing: decoding the four entities gives the input back |
| JsText.UnescapeChar | app.js:56-67 | one escaped character comes back first, whatever follows |
| JsText.UnescapeEntity | app.js:56-67 | each of the four entities turns back into its character |
| JsText.UnescapePlain | app.js:56-67 | a character other than `&` is kept as it is |
| Sorting.Flip | app.js:220-246 | a consistent comparator's sign flips when its arguments swap |
| Sorting.Chain | app.js:220-246 | a consistent comparator's "not after" relation is transitive |
| Sorting.ChainStrict | app.js:220-246 | "before" followed by "not after" is "before" |
| Sorting.Insert | app.js:220-246 | insertion adds exactly the element |
| Sorting.SortBy | app.js:220-246 | the sort returns a permutation of its input |
| Sorting.InsertSorted | app.js:220-246 | inserting into a sorted sequence keeps it sorted |
| Sorting.SortedCons | app.js:220-246 | an element before the head of a sorted sequence can go first |
| Sorting.SortedConsHead | app.js:220-246 | an element not after any element of a sorted sequence can go first |
| Sorting.SortBySorted | app.js:220-246 | the sort's result is sorted, for any consistent comparator |
| Sorting.TiesAppend | app.js:220-246 | the elements tied with a given one split over a concatenation |
| Sorting.NoTies | app.js:220-246 | a sequence with no element tied to a given one has no ties |
| Sorting.TiesInsert | app.js:220-246 | inserting into a sorted sequence puts the new element after every element it ties with |
| Sorting.TiesInsertFront | app.js:220-246 | an element inserted in front is the last of its ties |
| Sorting.TiesCons | app.js:220-246 | the ties of a sequence with a new first element start with that element when it ties |
| Sorting.SmallerThanTie | app.js:220-246 | nothing in a sorted sequence ties with a value below its first element |
| Sorting.SortByStable | app.js:220-246 | elements the comparator ties keep their input order (the sort is stable) |
| Sorting.InsertKeepsTies | app.js:220-246 | inserting into a sorted result appends the new element to its ties |
| Catalog.RoleRank | app.js:86-92 | the role rank is 0, 1, 2 or 99 |
| Catalog.CategoryRank | app.js:93-100 | the category rank is 0 to 3 or 99 |
| Catalog.RarityRank | app.js:101-107 | the rarity rank is 0 to 2 or 99 |
| Catalog.RankTables | app.js:85-108 | each rank is a given value exactly when the name equals the table's word ignoring case (tank/damage/support, weapon/ability/survival/gadget, common/rare/epic) |
| Catalog.RanksIgnoreCase | app.js:85-108 | names equal ignoring case get equal ranks |
| Catalog.FindIndexIgnoreCase | app.js:213 | the index is the first case-insensitive match, or -1 exactly when nothing matches |
| Catalog.RankAbilitiesCases | app.js:207-216 | an empty ability ranks -1, or 9999 when the trimmed hero is "Pharah"; a listed ability ranks at its first position; an unlisted one ranks one past the list length, or 9999 when the raw hero name is "Pharah" |
| Catalog.RankAbilities | app.js:207-216 | `rankAbilities`; specified by RankAbilitiesCases and AbilityRankOrder |
| Catalog.AbilityRankOrder | app.js:207-216 | for a hero other than "Pharah", an empty ability sorts before a non-empty one, and a listed ability before an unlisted one |
| Catalog.AddHeroesAt | app.js:200-202 | after one role's heroes are added, a hero the role lists maps to that role; other entries are kept |
| Catalog.AddGroupsLastWins | app.js:199-203 | a hero is in the lookup exactly when some role lists it, and it maps to the last such role in sorted role order |
| Catalog.SortedGroups | app.js:196-198 | the role names in `localeCompare` order; specified by MakeHeroRoleLookup |
| Catalog.HeroToGroup | app.js:194-205 | the hero-to-role lookup; specified by AddGroupsLastWins and MakeHeroRoleLookup |
| Catalog.MakeHeroRoleLookup | app.js:194-205 | the nested loops build the lookup function and return the role names in sorted order |
| Catalog.ItemOrderValid | app.js:220-246 | the item comparator is consistent (sign-antisymmetric and transitive) when `localeCompare` is |
| Catalog.ItemChain | app.js:220-246 | the item comparator's "not after" relation is transitive |
| Catalog.CompareItems | app.js:220-246 | the item comparator; specified by ItemOrderValid and ItemChain |
| Catalog.SortItemsCorrect | app.js:218-247 | `sortItems` returns a permutation of the items, sorted by the comparator and stable; every universal entry precedes every hero-owned entry |
| Catalog.SortItems | app.js:218-247 | `sortItems`; specified by SortItemsCorrect |
| Catalog.PowerGroupRank | app.js:258-262 | the power group rank is the role rank, with 999 for an unknown role |
| Catalog.PowerOrderValid | app.js:254-273 | the power comparator is consistent when `localeCompare` is |
| Catalog.PowerChain | app.js:254-273 | the power comparator's "not after" relation is transitive |
| Catalog.ComparePowers | app.js:254-273 | the power comparator; specified by PowerOrderValid and PowerChain |
| Catalog.SortPowersCorrect | app.js:249-274 | `sortPowers` returns a permutation of the powers, sorted and stable, with group ranks non-decreasing |
| Catalog.SortPowers | app.js:249-274 | `sortPowers`; specified by SortPowersCorrect |
| Assignment.State.With | app.js:686 | setting one tier changes that tier and no other |
| Assignment.StateExt | app.js:15 | two states that agree on every tier are equal |
| Assignment.MakeState | app.js:52-54 | a state built tier by tier has the given tiers |
| Assignment.AsValues | app.js:1442-1444 | ids become string values, one for one |
| Assignment.DoneBelowStep | app.js:683-687 | writing the next tier advances a tier-by-tier rewrite |
| Assignment.DoneBelowNext | app.js:683-687 | part way through a rewrite, the next tier still holds its old value |
| Assignment.DoneBelowAll | app.js:683-687 | after all five tiers the rewrite is complete |
| Assignment.EmptyState | app.js:52-54 | every tier of the empty state is empty |
| Assignment.FixStateShape | app.js:673-677 | each tier is the stored array when that key holds an array, otherwise empty |
| Assignment.FixStateShapeRoundTrip | app.js:673-677 | coercing the JSON form of a state gives back the state |
| Assignment.KeepAllowed | app.js:685-686 | the filtered tier holds only catalog ids, and each catalog id as often as before |
| Assignment.KeepAllowedOrder | app.js:685-686 | the filtered tier is a subsequence of the tier |
| Assignment.KeepAllowedFixed | app.js:685-686 | a tier of catalog ids only is unchanged by the filter |
| Assignment.SanitizeState | app.js:683-687 | each tier is filtered against the catalog, independently of the others |
| Assignment.SanitizeStateCorrect | app.js:679-688 | sanitizing leaves only catalog ids, keeps their order and multiplicity, and is idempotent |
| Assignment.SanitizedUnchanged | app.js:679-688 | a sanitized state is unchanged by sanitizing |
| Share.PruneFieldsCorrect | app.js:691-698 | pruning keeps exactly the non-empty tiers under their keys, and is empty exactly for an empty state |
| Share.PruneFields | app.js:691-698 | `prune`; specified by PruneFieldsCorrect |
| Share.PruneFirst | app.js:691-698 | the pruned object only ever has tier keys |
| Share.PruneFirstSpec | app.js:691-698 | after the first `n` tiers, exactly the non-empty ones among them are written, each with its array |
| Share.BuildSharePayloadShape | app.js:690-704 | the payload always has `m`, has `i` / `p` exactly when that mode has a placed id, and omits exactly the empty tiers |
| Share.BuildSharePayload | app.js:690-704 | `buildSharePayload`; specified by BuildSharePayloadShape, PayloadMembers and ShareRoundTrip |
| Share.PayloadMembers | app.js:690-704 | the payload's `m`, `i` and `p` members are the mode name and the pruned states |
| Share.PayloadOfMembers | app.js:690-704 | the payload has `m`, has `i` and `p` exactly when those objects have a key, and nothing else |
| Share.PayloadMode | app.js:707-708 | the restored mode is powers exactly when `m` is the string "powers" |
| Share.ApplySharePayload | app.js:706-720 | mode powers exactly when `payload.m === "powers"`; a missing or non-object mode restores as the empty state |
| Share.RestoresState | app.js:709-714 | an object whose arrays are exactly the non-empty tiers restores to that state |
| Share.ShareRoundTrip | app.js:690-720 | applying a built payload gives back the mode and both states exactly, although empty tiers and modes were omitted |
| Base64Url.EncodeSextets | app.js:115 | each sextet is below 64, and the count of sextets is never 1 modulo 4 |
| Base64Url.EncodeLength | app.js:115 | three bytes give four sextets, and a trailing one or two bytes give two or three |
| Base64Url.GroupRoundTrip | app.js:115-126 | each byte of a group of three comes back from the two sextets that carry its bits |
| Base64Url.DecodeGroup | app.js:123-126 | a full group of four sextets decodes to its three bytes ahead of the rest |
| Base64Url.OneByteRoundTrip | app.js:115-126 | a single trailing byte comes back from its two sextets |
| Base64Url.TwoBytesRoundTrip | app.js:115-126 | two trailing bytes come back from their three sextets |
| Base64Url.SextetsRoundTrip | app.js:110-127 | regrouping the sextets gives back the bytes |
| Base64Url.StdValue | app.js:123 | a standard-alphabet character's value maps back to it; -1 marks a character outside the alphabet |
| Base64Url.StdValueOfChar | app.js:123 | every sextet's standard character decodes to that sextet |
| Base64Url.UrlValue | app.js:119-121 | a URL-safe character's value maps back to it |
| Base64Url.UrlValueOfChar | app.js:119-121 | every sextet's URL-safe character decodes to that sextet |
| Base64Url.UrlString | app.js:116 | the URL-safe rendering of sextets uses only `[A-Za-z0-9-_]` |
| Base64Url.StdString | app.js:115 | the standard rendering has one character per sextet |
| Base64Url.ReplaceChar | app.js:116-121 | `replace(/x/g, y)` keeps the length |
| Base64Url.StripTrailing | app.js:116 | stripping trailing `=` leaves a prefix that does not end in `=` |
| Base64Url.PadEnd | app.js:122 | `padEnd` keeps a long enough string and otherwise fills it to the width with the pad |
| Base64Url.BinaryString | app.js:112-114 | the binary string has one character per byte, with that byte as its code |
| Base64Url.Btoa | app.js:115 | `btoa` succeeds exactly when every code is below 256 |
| Base64Url.RemoveAsciiWhitespace | app.js:123 | removing ASCII white space from text without any leaves it unchanged |
| Base64Url.StdValues | app.js:123 | standard text maps to one sextet per character, the sextet whose character it is |
| Base64Url.Atob | app.js:123 | a successful `atob` yields only codes below 256 |
| Base64Url.CharCodes | app.js:124-125 | each byte is the character code modulo 256, as a `Uint8Array` stores it |
| Base64Url.Encode | app.js:111-117 | the byte loop and the replacements give the URL-safe encoding of the array's contents |
| Base64Url.Decode | app.js:118-127 | decoding fails exactly when the function fails, and otherwise fills a fresh array with the decoded bytes |
| Base64Url.EncodeForm | app.js:111-117 | the encoding is the URL-safe character of each sextet, with no padding |
| Base64Url.StripPaddingOff | app.js:116 | stripping trailing `=` from URL-safe text plus padding gives the text |
| Base64Url.EncodeUrlSafe | app.js:111-117 | the encoding uses only `[A-Za-z0-9-_]` and never `=` |
| Base64Url.UrlValues | app.js:119-121 | URL-safe text maps to one sextet per character, the sextet whose URL-safe character it is |
| Base64Url.UrlToStd | app.js:119-121 | swapping `-`/`_` for `+`/`/` gives standard text with the same sextets |
| Base64Url.PadLength | app.js:122 | rounding the length up to a multiple of 4 adds 0, 3, 2 or 1 characters by the length modulo 4 |
| Base64Url.Eqs | app.js:122 | a run of `n` pad characters |
| Base64Url.StripNoEq | app.js:122-123 | `atob` accepts standard text of length 0 modulo 4 with no padding |
| Base64Url.StripOneEq | app.js:122-123 | one `=` after standard text of length 3 modulo 4 is removed |
| Base64Url.StripTwoEqs | app.js:122-123 | two `=` after text of length 2 modulo 4 are removed |
| Base64Url.StripThreeEqs | app.js:122-123 | three `=` after text of length 1 modulo 4 leave one `=` behind |
| Base64Url.PaddedStrip | app.js:122-123 | padding standard text to a width adds exactly the missing `=` characters, and nothing for `atob` to remove as white space |
| Base64Url.PaddedHasNoWhitespace | app.js:122-123 | the padded text has no white space for `atob` to remove |
| Base64Url.PadThenStrip | app.js:122-123 | `atob`'s padding removal leaves the unpadded text, with one `=` left over when the length is 1 modulo 4 |
| Base64Url.CharCodesOfBinary | app.js:112-125 | reading the codes of a binary string gives back its bytes |
| Base64Url.AtobRejectsOneMod4 | app.js:118-123 | URL-safe text of length 1 modulo 4 makes `atob` throw |
| Base64Url.AtobOfUrlSafe | app.js:118-123 | any other URL-safe text decodes to the binary string of its sextets |
| Base64Url.DecodeUrlSafe | app.js:118-127 | URL-safe text fails to decode exactly when its length is 1 modulo 4, and otherwise yields its sextets regrouped |
| Base64Url.DecodeUrlString | app.js:118-127 | decoding the URL-safe rendering of sextets regroups them |
| Base64Url.DecodeEncode | app.js:110-127 | decoding an encoding gives back every byte sequence |
| Base64Url.Base64UrlEncode | app.js:111-117 | `Base64Url.encode` as a value; specified by EncodeForm, EncodeUrlSafe and DecodeEncode |
| Base64Url.ToStdPadded | app.js:119-122 | the alphabet swap and padding ahead of `atob`; specified by UrlToStd, PadLength and PadThenStrip |
| Base64Url.Base64UrlDecode | app.js:118-127 | `Base64Url.decode` as a value; specified by DecodeUrlSafe and DecodeEncode |
| ShareLink.RunEnd | app.js:735 | the run after `s=` is the longest run of URL-safe characters |
| ShareLink.RunToEnd | app.js:735 | a hash that is URL-safe to its end is captured to its end |
| ShareLink.FindShare | app.js:735 | the regex search from a position; specified by FindShareLeftmost |
| ShareLink.FindShareLeftmost | app.js:735 | the search finds the leftmost `#`, `&` or `?` followed by `s=` and a URL-safe character, and captures the whole run; it fails exactly when there is none |
| ShareLink.ShareParamSpec | app.js:733-736 | the fragment parameter is the run after the leftmost match, or absent exactly when nothing matches |
| ShareLink.ShareParam | app.js:733-736 | the captured `s=` parameter; specified by ShareParamSpec and FragmentParam |
| ShareLink.FragmentParam | app.js:727-735 | the fragment `#s=` plus non-empty URL-safe text yields that text as the parameter |
| ShareLink.ShareFragment | app.js:722-730 | the `#s=` fragment of a created share URL; specified by ShareLinkRoundTrip |
| ShareLink.LoadFromHash | app.js:733-756 | without a parameter, loading fails |
| ShareLink.LoadFromHashSucceeds | app.js:733-746 | loading succeeds exactly when there is a parameter, it decodes, and the payload parses; the result is the applied payload |
| ShareLink.ShareLinkRoundTrip | app.js:722-756 | loading a created share fragment restores the mode and both states, given a JSON/gzip step that round-trips |
| Reorder.DropTargetUnique | app.js:1172-1205 | the drop rule has one answer for given rectangles and pointer |
| Reorder.Qualifies | app.js:1183-1197 | a card qualifies when the pointer is in its row left of its midpoint, or above it; used by IsDropTarget |
| Reorder.Score | app.js:1187-1197 | the distance score of a qualifying card; used by IsDropTarget |
| Reorder.IsDropTarget | app.js:1172-1205 | the drop rule as a relation; DropTargetUnique shows it has one answer and GetDragAfterElement meets it |
| Reorder.BestUnique | app.js:1172-1205 | at most one slot is the earliest of the least-scored qualifying slots |
| Reorder.BestFrom | app.js:1181-1203 | the card held after some slots is never the dragged card and is in the list |
| Reorder.DropTarget | app.js:1172-1205 | the picked card is never the dragged card and is in the list |
| Reorder.BestFromSpec | app.js:1181-1203 | after `n` slots the held card is null exactly when none of them qualified, and otherwise is the best of them |
| Reorder.BestIsNew | app.js:1181-1203 | a qualifying slot scoring strictly below the best so far becomes the best |
| Reorder.BestStays | app.js:1181-1203 | a slot that does not beat the best so far leaves it the best |
| Reorder.DropTargetIsDropTarget | app.js:1172-1205 | the function picks exactly what the drop rule answers |
| Reorder.GetDragAfterElement | app.js:1172-1205 | the loop over the list returns what the drop rule answers: null exactly when no card qualifies (same row left of its midpoint, or below the pointer); otherwise the qualifying card of least score, the earliest on ties, never the dragged card |
| Reorder.WithoutMultiset | app.js:1131-1132 | removing a slot from a list takes out all its copies and nothing else |
| Reorder.WithoutConcat | app.js:1131-1132 | removal distributes over concatenation |
| Reorder.WithoutAbsent | app.js:1131-1132 | removing an absent slot changes nothing |
| Reorder.IndexOf | app.js:1131-1132 | the index is the first position of the slot |
| Reorder.SettleMultiset | app.js:1149-1151 | replacing the placeholder puts the dragged card in its place and takes the card out of its old place |
| Reorder.Settle | app.js:1149-1151 | `replaceChild(draggingEl, placeholder)` on one list; specified by SettleMultiset, SettleConcat and SettleKeepsOthers |
| Reorder.SettledAdd | app.js:1149-1151 | the count after settling adds up part by part |
| Reorder.SettleSlotMultiset | app.js:1149-1151 | a single slot settles as the whole-list rule says |
| Reorder.SettleConcat | app.js:1149-1151 | replacing the placeholder distributes over concatenation |
| Reorder.SettleNoPlaceholder | app.js:1149-1151 | a list without the placeholder only loses the dragged card |
| Reorder.SettleKeepsOthers | app.js:1149-1151 | every other slot keeps its list and order |
| Reorder.CountInUpdate | app.js:1101-1102 | replacing one list changes the slots over all lists by exactly that list's difference |
| Reorder.CountInAtLeastAll | app.js:1101-1102 | the slots of each list are among the slots of all lists |
| Reorder.CountInAtLeast | app.js:1101-1102 | a slot is counted over all lists at least as often as in any one list |
| Reorder.CountInOne | app.js:1149-1151 | a slot counted once over all lists appears at one position of one list only |
| Reorder.CountInMapWithout | app.js:1131-1132 | removing a slot from every list removes all its copies and nothing else |
| Reorder.MapWithout | app.js:1131-1132 | each list loses the slot and nothing else, and no list is added or dropped |
| Reorder.SettleAll | app.js:1149-1151 | each list has its placeholder replaced by the dragged card, and loses the card elsewhere |
| Reorder.CountInSettleAll | app.js:1149-1151 | over all lists, the card is counted as often as the placeholder was, and the placeholder is gone |
| Reorder.DropPlacesCard | app.js:1149-1151 | after the drop the dragged card stands where the placeholder was, between the list's other slots in their old order, and has left every other list |
| Reorder.DropKeepsOthers | app.js:1146-1166 | after the drop every other card keeps its list and order, the card is counted once, and the placeholder is gone |
| Reorder.PlaceInCorrect | app.js:1131-1132 | the placeholder is appended when there is no target, and otherwise stands right before the target; the list is otherwise unchanged |
| Reorder.PlaceIn | app.js:1131-1132 | `appendChild` or `insertBefore` of the placeholder; specified by PlaceInCorrect |
| Reorder.MovePlaceholderCorrect | app.js:1129-1133 | moving the placeholder leaves exactly one placeholder, in the chosen list, and every list otherwise as it was |
| Reorder.MovePlaceholder | app.js:1129-1133 | the drag-over move of the placeholder across the lists; specified by MovePlaceholderCorrect and MovePlaceholderCount |
| Reorder.WithoutTwice | app.js:1131-1132 | removing the placeholder twice equals removing it once |
| Reorder.MovePlaceholderCount | app.js:1129-1133 | re-inserting the placeholder into one list leaves one placeholder in all |
| Reorder.WithoutInserted | app.js:1129-1133 | inserting the placeholder into a list without one adds just it, and removing it again gives the list back |
| Reorder.MoveKeepsCards | app.js:1116-1135 | a drag-over keeps every card unique and counted as before, with exactly one placeholder |
| Reorder.StartKeepsCards | app.js:1096-1114 | putting the placeholder after the dragged card keeps the cards unique, adds one placeholder, and the card is still counted once |
| Reorder.UniqueCardsKept | app.js:1129-1151 | a move that keeps every card's count keeps each card element in one place |
| Reorder.Card.constructor | app.js:1462 | a new card element carries the catalog id it is made for |
| Reorder.Board.constructor | app.js:1013-1020 | the drag starts idle: no dragged card, no placeholder, not dragging |
| Reorder.Board.OnDragStart | app.js:1096-1114 | the placeholder goes right after the dragged card, and the drag is under way |
| Reorder.Board.OnListDragOver | app.js:1116-1135 | with a placeholder, it moves into the list, before the card the drop rule picks or at the end; without one nothing changes |
| Reorder.Board.OnListDrop | app.js:1137-1144 | only the dragging flag is cleared |
| Reorder.Board.FinishDrag | app.js:1146-1157 | the dragged card replaces the placeholder, and the drag variables are cleared |
| Filters.ItemEnabledCases | app.js:513-523 | a hero-less entry is shown exactly when universal entries are on; another is shown unless its trimmed hero is set to false |
| Filters.HeroEnabled | app.js:513-518 | `isHeroEnabled`; specified by ItemEnabledCases and FilterIsPerHero |
| Filters.ItemEnabled | app.js:520-523 | `isItemEnabled`; specified by ItemEnabledCases |
| Filters.FilterIsPerHero | app.js:513-518 | setting one hero's switch changes no other hero's entries |
| Filters.AllFiltersOnShowsAll | app.js:525-529 | when all filters are on, every entry is shown |
| Filters.AllFiltersOn | app.js:525-529 | `areAllFiltersOn`; specified by AllFiltersOnShowsAll |
| Filters.TrimAll | app.js:540 | each hero name is trimmed, position by position |
| Filters.CountOn | app.js:549-550 | the count of enabled heroes is at most the number of heroes |
| Filters.CountOnBounds | app.js:549-553 | the count is 0 exactly when no hero is on, and the full length exactly when all are |
| Filters.GetRoleTriState | app.js:545-554 | the state is none exactly when no hero of the role is on (including an empty role), all exactly when a non-empty role has every hero on, and mixed otherwise |
| Filters.AllSet | app.js:533 | every existing key gets the value, and no key is added |
| Filters.SetHeroesSpec | app.js:541 | the role's heroes get the value and are added if missing; other keys keep their value |
| Filters.SetHeroes | app.js:541 | the role loop of `setRoleFilters`; specified by SetHeroesSpec |
| Filters.SetRoleDecidesTriState | app.js:538-554 | after setting a role, each of its heroes reads back the value |
| Filters.DefaultFilterSpec | app.js:495-505 | the default filter's keys are exactly the trimmed heroes of all roles, and all filters are on |
| Filters.DefaultFilter | app.js:495-505 | the default hero filter; specified by DefaultFilterSpec and BuildDefaultFilter |
| Filters.BuildDefaultFilter | app.js:498-503 | the nested loops build the default filter |
| Filters.HeroFilters.constructor | app.js:444-477 | with nothing saved, both modes start with every hero on and universal entries on |
| Filters.HeroFilters.SetAllFilters | app.js:531-536 | the current mode's heroes and its universal switch take the value; the other mode is unchanged |
| Filters.HeroFilters.SetRoleFilters | app.js:538-543 | the role's trimmed heroes take the value in the current mode; nothing else changes |
| Filters.HeroFilters.ResetToDefaults | app.js:495-511 | the current mode returns to the default filter with universal entries on; the other mode is unchanged |
| Bank.PlacedSpec | app.js:1425 | a value is placed exactly when some tier holds it |
| Bank.BankSpec | app.js:1424-1431 | the bank holds exactly the catalog ids that no tier holds, that have an entry and that are enabled, in catalog order, so each shown id is in a tier or in the bank but never both |
| Bank.BankIds | app.js:1424-1431 | the bank rule; specified by BankSpec |
| Bank.SubsequenceExtend | app.js:1426-1430 | filtering one more element keeps the result a subsequence |
| Bank.RenderedTierReadsBack | app.js:1414-1422 | a tier of catalog ids renders one card per value and reads back unchanged |
| Bank.RenderedTier | app.js:1416-1422 | the ids a tier list shows after rendering; specified by RenderedTierReadsBack |
| Store.SnapshotTier | app.js:1439-1447 | tier i of the snapshot is read from tier list i |
| Store.Snapshot | app.js:1439-1447 | the state read off the tier lists; specified by SnapshotTier, SnapshotIgnoresBankAndPlaceholder and DropSnapshot |
| Store.Ids | app.js:1442-1444 | the `data-id`s of a list's `.item` children; specified by IdsConcat and IdsWithoutPlaceholder |
| Store.IdsConcat | app.js:1442-1444 | reading ids distributes over concatenation |
| Store.IdsWithoutPlaceholder | app.js:1442 | the placeholder is not an `.item`, so it does not change the ids read |
| Store.SnapshotIgnoresBankAndPlaceholder | app.js:1439-1447 | the snapshot stores no bank order and does not depend on where the placeholder is |
| Store.IdsAround | app.js:1442-1444 | a list of slots reads as the ids before, the card's id, and the ids after |
| Store.DropSnapshot | app.js:1146-1166 | after a drop into a tier, that tier's snapshot holds the dragged id where the placeholder stood, between the other ids in their old order |
| Store.SanitizeTiers | app.js:682-687 | the tier-by-tier loop yields the sanitized state |
| Store.SanitizeStep | app.js:683-687 | filtering the next tier in place advances the loop by one tier |
| Assignment.TierIndex | app.js:15 | every tier has its position in `TIERS` |
| Store.ReadTiers | app.js:1439-1447 | the tier-by-tier loop yields the snapshot |
| Store.TierStore.constructor | app.js:26-48 | the store starts in items mode with both states empty |
| Store.TierStore.SanitizeStates | app.js:679-688 | each mode is sanitized against its own catalog only, and the mode is kept |
| Store.TierStore.Reset | app.js:1627 | only the current mode's state becomes empty |
| Store.TierStore.UpdateStateFromDom | app.js:1439-1447 | only the current mode's state is replaced, by the snapshot of the lists |
| Store.TierStore.SelectTab | app.js:1586-1604 | clicking the active tab does nothing; otherwise the old mode saves its snapshot, the mode switches, and the target mode's state is untouched |
| Store.TierStore.TryLoadFromHash | app.js:733-756 | it succeeds exactly when loading does; on failure mode and states are unchanged; on success both are committed and then sanitized |
| Store.ShareLinkRestoresStore | app.js:722-756 | sanitized states come back exactly from their own share link |
| Handlers.OnDragEnd | app.js:1146-1166 | the card settles where the placeholder was, the drag is cleared, and only the current mode's state is replaced by the snapshot |
| Handlers.OnResetClick | app.js:1626-1632 | the current mode's tiers are emptied and its hero filter returns to the defaults; the other mode is untouched |
| Handlers.RenderThenSnapshot | app.js:1410-1447 | rendering a sanitized state and reading it back from the lists gives the state |

## Left out

- DOM rendering is not modelled: card creation, tooltips, the hero filter UI, hover dimming, toasts and the bank header. Only the bank rule and the ids shown in each tier list are kept (`Bank`).
- Catalog loading (`fetchJson`, `loadData`, tooltip building, icon resolution) is network I/O. The catalog is an input: the sets of ids per mode, `byId` and the ordered ids.
- `localStorage` load and save are storage I/O. `loadLocalState` is kept only as the `fixStateShape` coercion. The saved-value part of `loadHeroFilter` is left out: `HeroFilters.constructor` models it with nothing saved.
- `JSON.stringify`/`JSON.parse` and gzip (`CompressionStream`) are foreign library calls. They are the parameters `encode` and `decode`, and a failure to decode or parse is `None`. JSON numbers are modelled as integers.
- `location`, `history.replaceState`, `updateUrlFragment`, the is.gd shortener and the clipboard are browser side effects. The share URL is modelled as its fragment.
- The auto-scroll loop, `getScrollableParent`, `computeScrollDelta` and `hexToRgba` use computed styles, float rounding and frame timing.
- `requestAnimationFrame` coalescing in `onListDragOver` is not modelled: the callback runs at once. The frame handle and the highlight classes are not kept.
- `localeCompare` is a parameter. The sort properties assume a consistent comparator; `Array.prototype.sort` is modelled as a stable insertion sort.
- Catalog.CompareItems: an entry's cost is an integer. A fractional cost that `Number(raw?.Cost || 0)` can give is not represented, and a `NaN` cost, which ties with every cost at that key and makes the comparator inconsistent, is not modelled.
- Reorder.GetDragAfterElement: rectangles, the pointer and the scores are exact reals, not IEEE doubles. Two different scores that double rounding makes equal are not modelled as a tie; the source keeps the earlier card there, the model the one with the smaller exact score.
- JsText.ToLower: models `toLowerCase` on ASCII letters only. Full Unicode case mapping needs tables this model does not carry.
- Reorder.Board.OnDragStart: requires that no placeholder is present. The browser does not start a second drag while one is under way.
- Store.TierStore.TryLoadFromHash: the render and save that follow the commit inside the same `try` are not modelled. If either threw after the commit, the source would return false with the new state kept.
- `renderFromState` on a state that has not been sanitized is not modelled: `BY_ID` lookups of non-string values are left out. `Bank.RenderedTier` drops every non-string value.
- The rank tables for roles, categories and rarities coerce a missing value with `String(x || "")`. The model takes strings, so an absent value is the empty string.
