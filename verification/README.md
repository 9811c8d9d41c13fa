# dm-is-list: the scoped list ordering engine, in Dafny

dm-is-list makes a DataMapper model act as a list. Each record carries an
integer `position`. Records that agree on the model's scope attributes
(`is :list, :scope => [...]`) form one list, numbered from the model's
`:first` option (1 by default). The engine keeps those numbers in order as
records move, enter or leave a list:

- `move_without_saving` resolves a move vector to a target slot. The
  vectors are `:highest`, `:lowest`, `:higher`/`:up`, `:lower`/`:down`,
  `:above => r`, `:below => r`, `:to => i` and a plain integer. It then
  refuses, short-circuits, or shifts the siblings in one bulk `adjust!`
  before taking the slot.
- `detach` closes the gap a record leaves.
- `left_sibling` and `right_sibling` find the nearest neighbours.
- `repair_list` and `reorder_list` renumber a list in order.
- The before-create, before-update and before-destroy hooks chain these
  together.

The model has these modules:

- `Scoping` (scoping.dfy): scope attributes, `list_scope`, `original_list_scope` and query filters.
- `Table` (table.dfy): the stored rows, the bulk `adjust!` update, list queries, the `last` and sibling queries, and the list invariant `Contiguous`.
- `Repair` (repair.dfy): the ordered query and the enumeration of `repair_list`.
- `Storage` (storage.dfy): the store, a class whose `rows` the bulk update and `ClassMethods#repair_list` change in place.
- `Engine` (engine.dfy): the specification functions of one call, such as `MoveEffect`, `CreateEffect` and `UpdateEffect`. It also holds the `Resource` class, whose methods perform those calls on a store and on the record's `position` and `moved` fields.
- `Invariant` (invariant.dfy): proofs that each accepted operation keeps every list contiguous, and where each lands the record.
- `Findings` (findings.dfy): four defects of the code as written, and corrected definitions with their proofs.
- `Scenarios` (scenarios.dfy): worked examples on the list A:1, B:2, C:3.

A list is *contiguous* (`Table.Contiguous`) when its n records hold exactly
the numbers first … first+n−1, each once. The model follows the code, and
the code breaks this invariant in four cases. Each is described under
Findings, with its corrected form proved to keep it.

The model's `:first` option (lib/dm-is-list/is/list.rb:22) is the top of
every list for `move`: `:highest` and the clamp of `:to` use it
(lib/dm-is-list/is/list.rb:171, 176, 182). `repair_list`, though, numbers a
list from 1 (lib/dm-is-list/is/list.rb:81). With any other `:first` the two
disagree. The model follows the code, and the discrepancy is Finding 4.

## Model

| member | source | states |
|---|---|---|
| Scoping.MatchesListScope | lib/dm-is-list/is/list.rb:89-91 | querying with a record's list scope selects exactly the records whose own list scope is the same |
| Scoping.OriginalScopeChanged | lib/dm-is-list/is/list.rb:93-95 | the original list scope differs from the current one exactly when some scope attribute holds a changed original value |
| Table.Shifted | lib/dm-is-list/is/list.rb:120 | the bulk `adjust!` keeps every row's identity and attributes, so it never moves a row to another list, and keeps the table's size |
| Table.Filter | lib/dm-is-list/is/list.rb:97-103 | a list query returns no more rows than the table holds, all of them in the scope |
| Table.FilterMembers | lib/dm-is-list/is/list.rb:101-103 | a list query returns exactly the rows of the scope |
| Table.EmptyList | lib/dm-is-list/is/list.rb:173 | a list counts no rows exactly when no row is in its scope (the case where `list.last` is nil) |
| Table.SetPosition | lib/dm-is-list/is/list.rb:81 | `item.update(:position => p)` sets the position of the row with that key and changes nothing else |
| Table.LastRow | lib/dm-is-list/is/list.rb:173 | `list.last` under the position order with NULL first: None exactly for an empty list; a placed result has the greatest position; an unplaced result means no row of the list is placed |
| Table.HighestBelow | lib/dm-is-list/is/list.rb:124-126 | of the placed rows of a scope below a bound, the result has the greatest position, and of rows tied on it the last; it is None exactly when there is no such row |
| Table.LowestAbove | lib/dm-is-list/is/list.rb:128-130 | of the placed rows of a scope above a bound, the result has the least position, and of rows tied on it the first; it is None exactly when there is none |
| Repair.Sort | lib/dm-is-list/is/list.rb:81 | the `:order` of the repair query yields a sorted permutation of the rows |
| Repair.Select | lib/dm-is-list/is/list.rb:81 | the repair query holds exactly the rows matching the filter, sorted by the order |
| Repair.Renumbered | lib/dm-is-list/is/list.rb:81 | after the enumeration, each listed row's position is the base plus its index in the query; other rows are unchanged |
| Repair.RepairMakesContiguous | lib/dm-is-list/is/list.rb:81 | renumbering from a base leaves the filtered list contiguous from that base, whatever state it was in |
| Repair.RepairKeepsOrder | lib/dm-is-list/is/list.rb:115-117 | records with strictly smaller order keys receive strictly smaller positions |
| Repair.RepairIsolated | lib/dm-is-list/is/list.rb:81 | rows outside the filter are not touched |
| Storage.Store.Adjust | lib/dm-is-list/is/list.rb:120 | one bulk update replaces the table by its shifted form |
| Storage.Store.RepairList | lib/dm-is-list/is/list.rb:79-83 | it is refused, with nothing written, exactly when the filter names a non-scope attribute; otherwise its loop gives the i-th matching row (in order) position i+1 |
| Engine.Prepos | lib/dm-is-list/is/list.rb:172 | `prepos` is the loaded position when there is one, else the current one, and nil only when both are |
| Engine.MaxPosBeyondList | lib/dm-is-list/is/list.rb:173 | `maxpos` is first for an empty list; it is the record's own `prepos` when the record's row is strictly the highest of the list; it is one past another record's row when that row is strictly the highest; it is one past the highest placed row when the record is not in the list; any other value than `prepos` or first is one past a placed row and above every placed row; when `last` is another, unplaced record it raises, and then no row of the list is placed |
| Engine.Resolve | lib/dm-is-list/is/list.rb:171-184 | the target of each vector: `:highest` is first and `:lowest` is maxpos; `:above` is r's position and `:below` one more; `:to` is clamped into [first, maxpos] (first when maxpos is below first); a raw integer is capped only by maxpos, landing at maxpos at or past it; `:higher`/`:lower` step one without passing the ends; the only nil and raising cases |
| Engine.MoveEffect | lib/dm-is-list/is/list.rb:164-202 | the move keeps the table's size (what each vector does is stated by the lemmas in `Invariant`) |
| Engine.Take | lib/dm-is-list/is/list.rb:190-201 | an accepted move returns true, sets `moved`, places the record, keeps the table's size, and changes only positions of rows of the record's own list |
| Engine.MoveShortCircuits | lib/dm-is-list/is/list.rb:188 | a move not refused whose target is the record's unchanged slot, or maxpos with the record just above it, returns true and changes nothing |
| Engine.MoveEffectFrame | lib/dm-is-list/is/list.rb:186-201 | a move that does not return true changes nothing; any change means it returned true and set `moved`; rows outside the record's list are never touched |
| Engine.PositionOrLowest | lib/dm-is-list/is/list.rb:36 | `position \|\| :lowest`: `:lowest` exactly when there is no position, else that integer |
| Engine.PositionVector | lib/dm-is-list/is/list.rb:46 | the update hook's vector is the plain integer position, 0 for nil |
| Engine.CreateEffectFrame | lib/dm-is-list/is/list.rb:33-37 | unless the create hook returns true it changes nothing; any change means it returned true, set `moved` and placed the record; rows of other lists are untouched |
| Engine.Detached | lib/dm-is-list/is/list.rb:119-122 | detaching keeps every row's identity and attributes and never touches another list |
| Engine.UpdateEffect | lib/dm-is-list/is/list.rb:39-55 | after the update hook `moved` is false unless the move raised |
| Engine.UpdateEffectFrame | lib/dm-is-list/is/list.rb:39-55 | the update hook never changes a row's identity or attributes, and leaves every row outside the record's old and new lists untouched |
| Engine.UpdateLeavesListAlone | lib/dm-is-list/is/list.rb:41-50 | with no scope attribute changed and no position to apply (not dirty, or already moved), the update hook changes no row and no position, answers nothing, and clears `moved` |
| Engine.Resource.MoveWithoutSaving | lib/dm-is-list/is/list.rb:164-202 | the method's reply, store and fields are those of `MoveEffect` |
| Engine.Resource.TakeSlot | lib/dm-is-list/is/list.rb:190-201 | the bulk shift and the new position and `moved` are exactly those of `Take` |
| Engine.Resource.Detach | lib/dm-is-list/is/list.rb:119-122 | the store becomes `Detached` and the position nil |
| Engine.Resource.LeftSibling | lib/dm-is-list/is/list.rb:124-126 | the result is a stored record of the same list with the greatest position below this one; None exactly when there is none or this record has no position |
| Engine.Resource.RightSibling | lib/dm-is-list/is/list.rb:128-130 | the result is a stored record of the same list with the least position above this one; None exactly when there is none or this record has no position |
| Engine.Resource.RepairList | lib/dm-is-list/is/list.rb:108-110 | repairing the record's own list is always accepted and renumbers it from 1 by position |
| Engine.Resource.ReorderList | lib/dm-is-list/is/list.rb:115-117 | the record's own list is renumbered from 1 in the given order |
| Engine.Resource.BeforeCreate | lib/dm-is-list/is/list.rb:33-37 | the create hook is the move to `position \|\| :lowest` with no original position |
| Engine.Resource.BeforeUpdate | lib/dm-is-list/is/list.rb:39-55 | the update hook performs exactly `UpdateEffect`: detach then move when the scope changed, move when only the position is dirty and not yet moved, and clear `moved` |
| Engine.Resource.BeforeDestroy | lib/dm-is-list/is/list.rb:57-59 | the destroy hook detaches the record from its current list |
| Invariant.ContiguousIsRun | lib/dm-is-list/is/list.rb:173 | the positions of a contiguous list are exactly the run first … first+n−1 |
| Invariant.LastOfContiguous | lib/dm-is-list/is/list.rb:173 | `list.last` of a non-empty contiguous list has position first+n−1 |
| Invariant.MaxPosOfStored | lib/dm-is-list/is/list.rb:173 | in a contiguous list, a stored record's maxpos is its own position when it is last, and first+n otherwise |
| Invariant.MaxPosOfAbsent | lib/dm-is-list/is/list.rb:173 | in a contiguous list, an absent record's maxpos is first+n |
| Invariant.MoveToRankKeeps | lib/dm-is-list/is/list.rb:175-201 | `:highest` lands at first, `:lowest` at first+n−1, and a raw integer inside the list at itself; the list stays contiguous |
| Invariant.MoveToIndexKeeps | lib/dm-is-list/is/list.rb:182-199 | `:to => i` is accepted, lands at the clamped slot less one when moving down, and keeps the list contiguous |
| Invariant.MoveUpKeeps | lib/dm-is-list/is/list.rb:178-199 | `:higher`/`:up` lands at max(first, p−1); `:higher` at the top is refused (`:up` is not); the list stays contiguous |
| Invariant.MoveDownKeeps | lib/dm-is-list/is/list.rb:179-199 | `:lower`/`:down` lands at min(p+1, first+n−1); `:lower` at the bottom is refused (`:down` is not); the list stays contiguous |
| Invariant.MoveAboveKeeps | lib/dm-is-list/is/list.rb:180-199 | `:above => r` in the same list is accepted, lands at r's slot (one less when moving down), and keeps the list contiguous |
| Invariant.MoveAboveLandsAbove | lib/dm-is-list/is/list.rb:180-199 | after `:above => r`, r sits directly below the record |
| Invariant.MoveBelowKeeps | lib/dm-is-list/is/list.rb:181-199 | `:below => r` in the same list is accepted, lands directly under r, and keeps the list contiguous |
| Invariant.MoveBelowLandsBelow | lib/dm-is-list/is/list.rb:181-199 | after `:below => r`, r sits directly above the record |
| Invariant.BesideOtherListRefused | lib/dm-is-list/is/list.rb:173-187 | `:above`/`:below` a record of another list returns false and changes nothing (raises, changing nothing, when its own list's `last` is another, unplaced record) |
| Invariant.ShiftDownKeeps | lib/dm-is-list/is/list.rb:192-194 | moving down by shifting [p, t] up one and taking t keeps the list contiguous |
| Invariant.ShiftUpKeeps | lib/dm-is-list/is/list.rb:195-196 | moving up by shifting [t, p] down one and taking t keeps the list contiguous |
| Invariant.AppendKeeps | lib/dm-is-list/is/list.rb:190-191 | a new record entering at t after the list opens the slot at t stays contiguous and grows the list by one |
| Invariant.InsertKeeps | lib/dm-is-list/is/list.rb:190-191 | a record arriving from another list at an opened slot t leaves the list contiguous, one longer |
| Invariant.DetachKeeps | lib/dm-is-list/is/list.rb:119-122 | detaching a record and moving it out of the list leaves the list contiguous, one shorter |
| Invariant.DestroyKeepsContiguous | lib/dm-is-list/is/list.rb:57-59 | destroying a detached record leaves its list contiguous, one shorter |
| Invariant.CreateAppendsAtBottom | lib/dm-is-list/is/list.rb:33-37 | a record created without a position lands at first+n, nothing else moves, and the list stays contiguous |
| Invariant.OldListClosed | lib/dm-is-list/is/list.rb:43 | a record leaving its list from its stored position leaves that list contiguous |
| Invariant.NewListOpened | lib/dm-is-list/is/list.rb:44 | a record entering another list at a slot within it leaves that list contiguous |
| Invariant.ScopeChangeKeepsBothLists | lib/dm-is-list/is/list.rb:41-50 | a record moved to another list with its position unchanged is accepted, enters at min(p, first+n'), and both lists stay contiguous |
| Invariant.UpdatePositionKeeps | lib/dm-is-list/is/list.rb:45-50 | assigning a position inside the list and saving lands the record there and keeps the list contiguous |
| Findings.CreateAtTakenSlotDuplicates | lib/dm-is-list/is/list.rb:36 | as written, a record created at a taken position returns true without opening a slot, and the saved list holds that number twice |
| Findings.RawOutsideListBreaksRun | lib/dm-is-list/is/list.rb:183 | as written, a raw integer below first, or past the end for a record that is not last, leaves the saved list non-contiguous |
| Findings.ScopeAndPositionChangeDuplicates | lib/dm-is-list/is/list.rb:41-44 | as written, changing scope and position together (to a position at least two smaller than the old one) leaves a duplicate in the old list |
| Findings.RepairIgnoresFirst | lib/dm-is-list/is/list.rb:81 | as written, repairing a non-empty list of a model whose first is not 1 leaves it non-contiguous |
| Findings.Clamped | lib/dm-is-list/is/list.rb:183 | a raw integer at or past maxpos becomes `:lowest`, any index below first becomes `:highest`, and any other vector is kept |
| Findings.MoveEffectCorrected | lib/dm-is-list/is/list.rb:164-202 | the corrected move equals the original for every vector but a raw integer |
| Findings.CorrectedRawKeeps | lib/dm-is-list/is/list.rb:183 | corrected: any raw integer lands at its value clamped into [first, first+n−1], and the list stays contiguous |
| Findings.CreateEffectCorrected | lib/dm-is-list/is/list.rb:33-37 | the corrected create hook keeps the table's size |
| Findings.InsertSlot | lib/dm-is-list/is/list.rb:36 | the slot an entering record takes is within first … first+n: the bottom when no position is given, the given position when it is in range |
| Findings.CorrectedCreateKeeps | lib/dm-is-list/is/list.rb:33-37 | corrected: a record created with any position, or none, enters at the clamped slot and the list stays contiguous |
| Findings.UpdateEffectCorrected | lib/dm-is-list/is/list.rb:39-55 | the corrected update hook still clears `moved` unless the move raised |
| Findings.CorrectedScopeChangeKeepsBothLists | lib/dm-is-list/is/list.rb:41-44 | corrected: with any new position or none, a record changing list leaves the old list closed up, enters the new one at the clamped slot, and both stay contiguous |
| Findings.RepairFromFirst | lib/dm-is-list/is/list.rb:81 | corrected: repair numbering from first leaves the list contiguous from first |
| Scenarios.MoveToTop | lib/dm-is-list/is/list.rb:182-199 | on A:1, B:2, C:3, `C.move(:to => 1)` gives A:2, B:3, C:1 |
| Scenarios.MoveAboveFirst | lib/dm-is-list/is/list.rb:180-199 | on A:1, B:2, C:3, `B.move(:above => A)` gives A:2, B:1, C:3 |
| Scenarios.EndsRefuse | lib/dm-is-list/is/list.rb:186 | `:higher` on A and `:lower` on C return false and change nothing |
| Scenarios.DestroyMiddle | lib/dm-is-list/is/list.rb:57-59 | destroying B leaves A:1, C:2 |
| Scenarios.CreateAtBottom | lib/dm-is-list/is/list.rb:33-37 | a new record without a position gets 4 and nothing else moves |

## Left out

- `move` (lib/dm-is-list/is/list.rb:154-156) is `move_without_saving` followed by `save`, and the ORM's save is not modelled. The saved state is written as the table with the record's row replaced (`Invariant.Saved`) or appended.
- The `position` property declaration (lib/dm-is-list/is/list.rb:27-29), the registration of the hooks and the STI inheritance of the options (lib/dm-is-list/is/list.rb:62-64) are DataMapper plumbing.
- `list_query` and `list` (lib/dm-is-list/is/list.rb:97-103) are folded into the queries of `Table`.
- The ORM's dirty tracking is passed in as inputs. `original_values[position]` is the `original`/`loaded` parameter. The original values of changed scope attributes are `originals`, and `attribute_dirty?(:position)` is `positionDirty`.
- A vector that is neither a known action nor an integer relies on Ruby's `Symbol#to_i`, which depends on the Ruby version; only integer fallbacks are modelled. A nil position passed to `move_without_saving` from the update hook is `Raw(0)`, since `nil.to_i` is 0.
- Ruby exceptions are modelled as the reply `Raised`: `last.position + 1` when `list.last` is another record with a NULL position, and arithmetic or comparison on a nil `position` or target position. No other error behaviour of the ORM is modelled.
- Table.LastRow: the database's placement of NULL positions in `ORDER BY position` varies; the model sorts them first (as the repair query does), so `list.last` is an unplaced row only when no row of the list is placed, and then it is the last such row in storage order.
- In `repair_list`, each `item.update` re-enters the before-update hook. What that does depends on the ORM's save semantics, so the enumeration is modelled directly.
- Orders: the repair query orders ascending by position or by one integer attribute. NULL sorts first, and ties keep storage order. Multi-key and descending orders are not modelled. Where SQL leaves the order of ties unspecified, `list.last` and the sibling queries choose by storage order as well: `Table.HighestBelow` and `Table.LastRow` take the last of tied rows, `Table.LowestAbove` the first.
- Transactions and concurrent writers are not modelled: the code has none of its own, and the atomicity of `adjust!` belongs to the storage engine.
- Engine.MoveEffect: its own contract states only that the table keeps its size. What each move does is stated by the lemmas in `Invariant` and by `Engine.MoveEffectFrame`.
- Engine.UpdateEffect: its own contract states only the `moved` reset and the table size. What each branch does is stated by `Engine.UpdateEffectFrame`, `Engine.UpdateLeavesListAlone`, `Invariant.ScopeChangeKeepsBothLists` and `Invariant.UpdatePositionKeeps`.
- Invariant.ScopeChangeKeepsBothLists: proved only for a record whose in-memory position equals its stored one. With a position changed as well, the code as written breaks the old list (Finding 3).

## Findings

| source | as written | input that shows it | evidently intended | confidence | as-written member | corrected member |
|---|---|---|---|---|---|---|
| lib/dm-is-list/is/list.rb:36 | a new record has no original position, so `prepos` is its own `position`; an in-range explicit position short-circuits at line 188 and no slot is opened | list [1, 2]; create a record with position 1: the list becomes 1, 2, 1 | open a slot at the given position (clamped into the list) and insert there | not executed | Findings.CreateAtTakenSlotDuplicates | Findings.CorrectedCreateKeeps |
| lib/dm-is-list/is/list.rb:183 | a plain integer is only capped at maxpos, with no lower bound, and does not take back the vacated slot when it lands at maxpos | list [A:1, B:2, C:3]; `A.move(4)` gives A:4, B:1, C:2; `C.move(0)` gives A:2, B:3, C:0 | clamp into the list as `:to` does: past the end means the bottom, below first means the top | not executed | Findings.RawOutsideListBreaksRun | Findings.CorrectedRawKeeps |
| lib/dm-is-list/is/list.rb:43 | `detach(original_list_scope)` closes the gap at the in-memory position, which is already the newly assigned one | list g=0 [A:1, B:2, C:3]; set C's g to 1 and its position to 1, then save: the old list becomes A:1, B:1 | close the gap at the stored (original) position | not executed | Findings.ScopeAndPositionChangeDuplicates | Findings.CorrectedScopeChangeKeepsBothLists |
| lib/dm-is-list/is/list.rb:81 | the i-th record gets position i + 1, whatever `:first` is | `:first => 0`, one record at 0: repair renumbers it 1 | number from `:first` | not executed | Findings.RepairIgnoresFirst | Findings.RepairFromFirst |
