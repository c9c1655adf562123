# Rolling data cache, modelled in Dafny

This project models `DataCacheRolling<T>` (`src/fxapp01/dao/DataCacheRolling.java`). The cache is a `List` view over an external row source, and it keeps a contiguous **window** of rows in memory:
- `range`: the row numbers held;
- `dataReadOnly`: the rows themselves;
- both lie inside the source's total range of rows, `outerLimits`.

Asking for a row (`get`) serves it from the window when it is there. Otherwise the requested row is aligned to a page of `defSize` rows, and its distance from the window decides what happens:
- a **near miss** (at most `maxSize` rows away) fetches the rows in between and extends the window;
- a **shift** (less than `2*maxSize` away) purges as many rows at the opposite edge and fetches the rows in between;
- a **far miss** clears the window and reloads a page starting at the requested row.

Pending edits sit in a ledger of `DataOldNewValues` (an old value, a new value and their kind: none, insert, update or delete). `flush` sends them to the source's writer. `size`, `isEmpty` and the iterator show the window rows first, then the pending entries.

Modules:
- `Wrappers`: `Option`, `Result` and `Outcome`.
- `Ranges`: the `NestedIntRange` operations the cache relies on. That class is not part of this model, so the contracts its callers need are stated on a small datatype.
- `Sources`: the row source as a value. It has the reported limits, the rows it actually holds (possibly fewer), and whether it can write. `Fetch` returns the longest prefix of the requested range that exists, because the cache re-derives its length from what comes back.
- `Changes`: the change kind, `DataOldNewValues` as both a value and a class, the writer calls a ledger owes, and the loop of `flush`.
- `Windowing`: the windowing arithmetic as pure functions, with its lemmas:
  - page alignment with Java's remainder;
  - the three-way classification (`Classify`) into a `Plan`;
  - eviction at an edge (`PurgeWindow`) and insertion (`InsertRows`);
  - the window a plan produces (`Apply`);
  - coherence: every row held is the source's row of that number.
- `Cache`: the class `RollingCache`, whose methods change `range`, `rows` and `ledger` step by step as the source does. Each method is proved against the matching function of `Windowing`. Also the class `TwinIterator` and the loop of `purge` (`RemoveRun`).
- `Findings`: `get` composed exactly as written, its agreement with the corrected windowing on the common paths, and concrete inputs where it differs.

Three behaviours of the code are easy to misread, and the model follows the code in all three:
- `flush` removes only unchanged entries (line 162). Entries it has written stay in the ledger and are written again by the next flush (`Cache.RollingCache.Flush`, `Changes.KeptOwesTheSame`).
- A near miss fetches only up to the end of the requested row's page, not a whole `maxSize` of rows. From rows 0-999 with pages of 100 and a maximum of 300, `get(0)` then `get(150)` gives the window 0-199 (`Findings.BrowsingSession`).
- The class comment (lines 38-39) calls the window "of limited size", but nothing in `get` bounds it. A near miss adds its page whatever the window already holds, so repeated near misses grow the window past `maxSize` until it covers the limits. From rows 0-999 with pages of 100 and a maximum of 300, the window 0-299 asked for row 350 becomes 0-399 (`Findings.NearMissGrowsPastMax`).

The file does not compile as written, and the model reads it as follows:
- `dataWritable` is used but never declared; it is read here as the ledger of pending changes, keyed by an abstract key type;
- `flush` calls `getChanged()` on a `T`; it is read here as the `DataOldNewValues` held in the ledger.

The model corrects four defects of `get` and `purge`, listed under "## Findings". The class follows the corrected windowing:
- A near miss on the left prepends.
- A slide evicts at most what the window holds.
- A back purge keeps the first row. The left slide of `get` instead re-anchors the first row itself before it prepends.
- A far miss moves the first row before it adds the fetched rows.

## Model

| member | source | states |
|---|---|---|
| Ranges.Range.Last | src/fxapp01/dao/DataCacheRolling.java:335 | `getLast` is the row just before `first + length`, so an empty range ends one before its first row |
| Ranges.Range.IsInbound | src/fxapp01/dao/DataCacheRolling.java:182 | `IsInbound` holds exactly for the rows from `first` up to `first + length`, and only for a non-empty range |
| Ranges.Range.MaxDistance | src/fxapp01/dao/DataCacheRolling.java:403 | signed distance to a row: zero exactly inside the range, negative exactly before it, positive exactly after it, and it reaches the row from the nearer edge |
| Ranges.Range.Complement | src/fxapp01/dao/DataCacheRolling.java:412 | the rows between the range and the target, on the target's side and adjacent to the range, disjoint from it, as many as the distance |
| Ranges.Range.IncLength | src/fxapp01/dao/DataCacheRolling.java:299 | `incLength` keeps the first row and stays inside the outer range; the length changes by exactly `delta` when that fits |
| Ranges.Range.SetFirst | src/fxapp01/dao/DataCacheRolling.java:453 | `setFirst` keeps the length and stays inside the outer range; it starts at the requested row when that fits |
| Ranges.Nested | src/fxapp01/dao/DataCacheRolling.java:448 | `new NestedIntRange(index, defSize, outer)` lies inside the outer range; from a row of the limits it starts there and is cut only at the outer end |
| Sources.Source.Fetch | src/fxapp01/dao/DataCacheRolling.java:146 | `fetch` returns at most the rows requested, each the source's row of its number, and stops short only where the source has no row |
| Sources.Source.FetchWithinLimits | src/fxapp01/dao/DataCacheRolling.java:84 | a source holding every row it reports returns the whole requested range inside its limits |
| Changes.CompareValues | src/fxapp01/dao/DataCacheRolling.java:588-599 | insert exactly when only the new value is present, delete exactly when only the old one is, update exactly when both are present and differ, no change exactly when they are equal |
| Changes.Change.WithNewValue | src/fxapp01/dao/DataCacheRolling.java:583-586 | `setNewValue` makes the new value `v`, keeps the old value, and the kind becomes that of (old, `v`) |
| Changes.LastEditWins | src/fxapp01/dao/DataCacheRolling.java:583-586 | two `setNewValue` calls have the effect of the second alone |
| Changes.RevertCancels | src/fxapp01/dao/DataCacheRolling.java:588-599 | setting the new value back to the old value gives no change |
| Changes.ChangeRecord.constructor | src/fxapp01/dao/DataCacheRolling.java:569-573 | the stored kind is derived from the pair at construction |
| Changes.ChangeRecord.SetNewValue | src/fxapp01/dao/DataCacheRolling.java:583-586 | the new value is replaced, the old value kept, and the stored kind stays the kind of the pair |
| Changes.ChangeRecord.Changed | src/fxapp01/dao/DataCacheRolling.java:601-603 | `getChanged` returns the kind of the current pair |
| Changes.WriteFor | src/fxapp01/dao/DataCacheRolling.java:158-162 | an insert owes `insertRow(new)`, an update `updateRow(new)`, a delete `deleteRow(old)`, and an unchanged entry nothing |
| Changes.OwedRemove | src/fxapp01/dao/DataCacheRolling.java:153-164 | what a ledger owes does not depend on the order its entries are visited in |
| Changes.Kept | src/fxapp01/dao/DataCacheRolling.java:162 | after visiting, an entry is kept exactly when it is still pending or changed, with its own value |
| Changes.KeptRemove | src/fxapp01/dao/DataCacheRolling.java:162 | taking an entry out of the ledger takes it out of what is kept, and an unchanged entry was not kept anyway |
| Changes.KeptAll | src/fxapp01/dao/DataCacheRolling.java:153-155 | before the loop every entry is kept |
| Changes.KeptVisit | src/fxapp01/dao/DataCacheRolling.java:158-162 | visiting an entry drops it when it is unchanged (`i.remove()`) and keeps the rest as it was |
| Changes.VisitEntry | src/fxapp01/dao/DataCacheRolling.java:155-157 | visiting an entry leaves a smaller part of the ledger, which owes the rest |
| Changes.VisitStep | src/fxapp01/dao/DataCacheRolling.java:155-163 | one turn of the loop of `flush` keeps its account: writes made plus writes still owed equal what the ledger owes |
| Changes.KeptOwesTheSame | src/fxapp01/dao/DataCacheRolling.java:162 | dropping the unchanged entries leaves a ledger owing the same writes, so written entries are owed again |
| Changes.VisitLedger | src/fxapp01/dao/DataCacheRolling.java:153-164 | the loop makes every write the ledger owes and no other, and leaves the ledger without its unchanged entries |
| Windowing.JavaRem | src/fxapp01/dao/DataCacheRolling.java:330 | Java's `%`: the remainder has the dividend's sign and lies less than one divisor from zero, and the dividend minus it is a multiple |
| Windowing.AlignToPage | src/fxapp01/dao/DataCacheRolling.java:327-347 | the aligned row always lies inside the outer limits |
| Windowing.AlignKeepsRowInWindow | src/fxapp01/dao/DataCacheRolling.java:332-338 | a row inside the window is returned unchanged |
| Windowing.AlignBeforeWindow | src/fxapp01/dao/DataCacheRolling.java:330-333 | a row before the window goes down to the first row of its page, pages counted from the left limit |
| Windowing.AlignAfterWindow | src/fxapp01/dao/DataCacheRolling.java:335-344 | a row after the window goes up to the first page end at or after it, or to the last row of the limits when that comes first: the result lies in the row's page, is a page end or the last row of the limits, and no page ends between the row and it |
| Windowing.Classify | src/fxapp01/dao/DataCacheRolling.java:399-453 | a hit exactly when the row is held; on a miss, with the aligned target `t` and `d` its distance from the window: an extension exactly when `d <= maxSize`, a slide exactly when `maxSize < d < 2*maxSize`, a reload exactly otherwise; an extension or slide fetches the complement towards `t`, on `t`'s side; a slide evicts as many rows as it fetches but never more than the window holds; a reload fetches `defSize` rows from the requested row |
| Windowing.ClassifySpan | src/fxapp01/dao/DataCacheRolling.java:399-448 | the span fetched lies inside the limits, adjacent to the window on the requested row's side, and holds the requested row less than a page from its outer end; a far miss starts at the requested row |
| Windowing.PurgeWindow | src/fxapp01/dao/DataCacheRolling.java:186-209 | `purge` fails when `from > to` or the run does not touch an edge, and fails when it runs outside the list; otherwise it removes exactly the run, stays well formed, advances the first row past a front run and keeps it for a back run |
| Windowing.PurgeLastRows | src/fxapp01/dao/DataCacheRolling.java:191-207 | purging the last `k` of at least `k` rows succeeds and keeps the first rows |
| Windowing.PurgeKeepsCoherence | src/fxapp01/dao/DataCacheRolling.java:195-207 | a purge at either edge leaves every remaining row at its own row number |
| Windowing.InsertRows | src/fxapp01/dao/DataCacheRolling.java:293-304 | `addAll(index, c)` fails exactly when `index` is outside the list; otherwise it keeps the first row and stays inside the limits, and it stays well formed when the rows fit |
| Windowing.InsertRowsPlacesRows | src/fxapp01/dao/DataCacheRolling.java:297 | the inserted rows sit at the requested row, the rows before it stay, and the rows after it move up by `|c|` |
| Windowing.Apply | src/fxapp01/dao/DataCacheRolling.java:405-454 | the number of rows after a miss: the old rows plus the fetched ones for an extension, less the evicted ones for a slide; a reload holds exactly the fetched rows |
| Windowing.ApplyPlacesRows | src/fxapp01/dao/DataCacheRolling.java:405-454 | after a miss the range counts the rows held. A right extension keeps the first row and the old rows and appends the fetched ones. A left extension starts at the span and puts the fetched rows before the old ones. A right slide moves the first row on by the evicted count and keeps the old rows after them, then the fetched ones. A left slide starts at the span and puts the fetched rows before the old rows less the last evicted ones. A reload starts at the span |
| Windowing.FetchedWindow | src/fxapp01/dao/DataCacheRolling.java:141-147 | rows fetched for a range of the limits make a well-formed coherent window, and the whole range when the source is complete |
| Windowing.FetchBeforeWindow | src/fxapp01/dao/DataCacheRolling.java:429-436 | the rows just before a non-empty coherent window all exist |
| Windowing.SlideRightKeepsCoherence | src/fxapp01/dao/DataCacheRolling.java:437-443 | a slide or extension to the right keeps the window well formed and each row at its own number |
| Windowing.SlideLeftKeepsCoherence | src/fxapp01/dao/DataCacheRolling.java:429-436 | a slide or extension to the left keeps the window well formed and each row at its own number |
| Windowing.ApplyKeepsCoherence | src/fxapp01/dao/DataCacheRolling.java:396-454 | serving any miss keeps the window inside the limits, its length equal to its rows, and every row the source's own |
| Windowing.PlanKeepsCoherence | src/fxapp01/dao/DataCacheRolling.java:405-454 | any plan adjacent on its own side that evicts no more than is held keeps the window well formed and coherent |
| Windowing.ApplyCovers | src/fxapp01/dao/DataCacheRolling.java:396-463 | from a complete source, after a miss on a row of the limits that row is in the window |
| Windowing.AppendAsWritten | src/fxapp01/dao/DataCacheRolling.java:420 | `addAll(range.getLast()+1, rows)` is exactly an extension on the right |
| Windowing.PurgeFrontThenAppend | src/fxapp01/dao/DataCacheRolling.java:440-443 | a front purge of `k` rows followed by an append is a slide to the right |
| Windowing.SlideRightInSteps | src/fxapp01/dao/DataCacheRolling.java:437-443 | the optional front purge and then the append make the slide to the right |
| Windowing.ClearAddThenMove | src/fxapp01/dao/DataCacheRolling.java:448-453 | clearing, adding at the old first row and then moving the first row is a reload when the rows fit after the old first row |
| Windowing.FillEmpty | src/fxapp01/dao/DataCacheRolling.java:450-452 | adding rows to an empty window at its first row fills it with exactly those rows, when they fit |
| Windowing.ReanchorThenPrepend | src/fxapp01/dao/DataCacheRolling.java:146 | moving the first row to the span and inserting at it prepends the fetched rows |
| Findings.ClassifyAsWritten | src/fxapp01/dao/DataCacheRolling.java:399-453 | the source's decision: a hit exactly when held; a near miss on non-negative rows always appends on the right; a slide evicts the span's length |
| Findings.ClassifyAsWrittenAgrees | src/fxapp01/dao/DataCacheRolling.java:414-421 | the source's decision equals the corrected one except for a near miss on the left and a slide evicting more than is held |
| Findings.PurgeWindowAsWritten | src/fxapp01/dao/DataCacheRolling.java:186-209 | the source's `purge` fails and keeps rows like the corrected one, equals it on a front purge, and moves the first row back by the rows dropped on a back purge |
| Findings.ServeAsWritten | src/fxapp01/dao/DataCacheRolling.java:396-454 | the source's windowing stays inside the limits and does nothing on a hit |
| Findings.ServePlanAsWritten | src/fxapp01/dao/DataCacheRolling.java:405-454 | each plan carried out with the source's own steps stays inside the limits |
| Findings.ServePlanAgrees | src/fxapp01/dao/DataCacheRolling.java:405-454 | the source's steps compute the corrected window for a right extension, a slide evicting fewer rows than held, and a far miss whose rows fit |
| Findings.SlideRightAgrees | src/fxapp01/dao/DataCacheRolling.java:437-443 | the source's right slide computes the corrected window when it evicts at most what is held |
| Findings.SlideLeftAgrees | src/fxapp01/dao/DataCacheRolling.java:429-436 | the source's left slide computes the corrected window when it evicts fewer rows than held |
| Findings.PurgeBackThenPrepend | src/fxapp01/dao/DataCacheRolling.java:433-436 | the source's back purge moves the first row back by exactly the rows the prepend then adds, so the pair is a slide to the left |
| Findings.ExtendRightAsWritten | src/fxapp01/dao/DataCacheRolling.java:416-421 | the source's near miss appends the fetched rows after the last row, whichever side they lie on |
| Findings.ReloadAsWritten | src/fxapp01/dao/DataCacheRolling.java:448-453 | the source's far miss grows the length from the old first row, clamped there, and only then moves the first row |
| Findings.AsWrittenAgreesOnCommonPaths | src/fxapp01/dao/DataCacheRolling.java:396-454 | on the common paths the source's `get` windowing equals the corrected one |
| Findings.BackPurgeMovesWindow | src/fxapp01/dao/DataCacheRolling.java:205-206 | purging rows 150-199 of the window 100-199 as written gives the range 50-99, which does not hold its own rows; the corrected purge gives 100-149, which does |
| Findings.NearMissPlans | src/fxapp01/dao/DataCacheRolling.java:414-421 | for row 50 and the window 100-199 the source appends page 0-99 on the right; the corrected decision prepends it |
| Findings.NearMissAppends | src/fxapp01/dao/DataCacheRolling.java:416-421 | as written, any well-formed window on rows 100-199 of a complete source over rows 0-999, asked for row 50, becomes 100-299 with rows 0-99 appended |
| Findings.NearMissServed | src/fxapp01/dao/DataCacheRolling.java:416-421 | as written, on rows 0-999 numbered by themselves, row 0 then sits where row 200 belongs |
| Findings.NearMissCorrected | src/fxapp01/dao/DataCacheRolling.java:429 | the corrected extension prepends rows 0-99 and the window becomes 0-199 |
| Findings.NearMissOnTheLeft | src/fxapp01/dao/DataCacheRolling.java:414-421 | as written, row 50 is not in the window and the rows are out of place; corrected, row 50 is in the window |
| Findings.SlideEvictsMoreThanHeld | src/fxapp01/dao/DataCacheRolling.java:437-440 | a fresh cache asked for row 450 purges 500 rows from an empty list and fails; the corrected slide evicts nothing and loads rows 0-499 |
| Findings.SlideLeftOfWholeWindow | src/fxapp01/dao/DataCacheRolling.java:429-436 | the window 400-799 asked for row 0 purges every row as a front purge and ends up starting at row 800; the corrected slide starts at row 0 |
| Findings.FarMissClampedBeforeMove | src/fxapp01/dao/DataCacheRolling.java:445-453 | the window 950-999 asked for row 0 ends with a range of 50 rows over a list of 100; the corrected reload covers all 100 rows |
| Findings.NearMissGrowsPastMax | src/fxapp01/dao/DataCacheRolling.java:414-421 | from rows 0-999 with pages of 100 and a maximum of 300, the window 0-299 asked for row 350 is a near miss that appends rows 300-399, giving 400 rows, both as written and corrected |
| Findings.BrowsingSession | src/fxapp01/dao/DataCacheRolling.java:396-454 | from rows 0-999 with pages of 100 and a maximum of 300, rows 0, 150 and 900 give the windows 0-99, 0-199 and 900-999 |
| Cache.RemoveRun | src/fxapp01/dao/DataCacheRolling.java:195-198 | removing at position `from` once for each position up to `to` removes exactly the run and keeps the rest in order |
| Cache.RollingCache.constructor | src/fxapp01/dao/DataCacheRolling.java:64-87 | pages of 100 rows, a maximum of 300, an empty window at the first row of the limits, an empty ledger |
| Cache.RollingCache.WithSizes | src/fxapp01/dao/DataCacheRolling.java:89-97 | the same as the constructor, with the given page size and maximum |
| Cache.RollingCache.ToCacheIndex | src/fxapp01/dao/DataCacheRolling.java:109-115 | `toDataRowNo` inverts `toCacheIndex`, and a row's position lies in the list exactly when the window holds the row |
| Cache.RollingCache.ContainedRowsAreInLimits | src/fxapp01/dao/DataCacheRolling.java:178-183 | a row the window contains is a row of the limits |
| Cache.RollingCache.HeldRowIsSourceRow | src/fxapp01/dao/DataCacheRolling.java:388-394 | in a coherent cache, the row at a held row's position is the source's row of that number |
| Cache.RollingCache.ContainsIndex | src/fxapp01/dao/DataCacheRolling.java:178-184 | `containsIndex` on the window: the row lies in the range, and so, while the range counts the rows held, its position lies in the list |
| Cache.RollingCache.Size | src/fxapp01/dao/DataCacheRolling.java:211-216 | `size` is the rows held plus the pending entries; while the range counts the rows, it is the window's length plus the pending entries |
| Cache.RollingCache.IsEmpty | src/fxapp01/dao/DataCacheRolling.java:226-229 | `isEmpty` exactly when `size` is 0 |
| Cache.RollingCache.Purge | src/fxapp01/dao/DataCacheRolling.java:186-209 | the new window is the corrected `PurgeWindow`, or an error with nothing changed; the ledger is untouched |
| Cache.RollingCache.Clear | src/fxapp01/dao/DataCacheRolling.java:218-224 | no rows, length 0, the same first row, the same ledger |
| Cache.RollingCache.Append | src/fxapp01/dao/DataCacheRolling.java:285-290 | `addAll(c)` is `addAll(index, c)` at the row after the last one held: the new window is `InsertRows` there, the result says whether the list grew, and the range still counts the rows when they fit in the limits; a null collection throws and changes nothing |
| Cache.RollingCache.AddAll | src/fxapp01/dao/DataCacheRolling.java:293-304 | a null collection returns false and changes nothing; otherwise the new window is `InsertRows`, the result says whether the list grew, and the ledger is untouched |
| Cache.RollingCache.Refresh | src/fxapp01/dao/DataCacheRolling.java:141-147 | keeps the first row, reloads the rows of the old range from the source, stays coherent, and keeps the whole range when the source is complete |
| Cache.RollingCache.ServeExtend | src/fxapp01/dao/DataCacheRolling.java:407-421 | the near-miss branch produces `Apply(Extend(..))` |
| Cache.RollingCache.ServeSlideRight | src/fxapp01/dao/DataCacheRolling.java:437-444 | the shift branch to the right produces `Apply(Slide(Right, ..))` |
| Cache.RollingCache.ServeSlideLeft | src/fxapp01/dao/DataCacheRolling.java:429-436 | the shift branch to the left produces `Apply(Slide(Left, ..))` |
| Cache.RollingCache.ServeReload | src/fxapp01/dao/DataCacheRolling.java:445-453 | the far-miss branch produces `Apply(Reload(..))` |
| Cache.RollingCache.ServeMiss | src/fxapp01/dao/DataCacheRolling.java:396-454 | a miss is served as `Classify` decides |
| Cache.RollingCache.Get | src/fxapp01/dao/DataCacheRolling.java:357-464 | a hit changes nothing; a miss yields the classified window; a row is returned exactly when it is then held, and it is the source's row; a complete source serves every row of the limits; the ledger is untouched |
| Cache.RollingCache.Flush | src/fxapp01/dao/DataCacheRolling.java:149-170 | on a read-only source it fails and changes nothing; otherwise it makes exactly the writes the ledger owes, drops the unchanged entries, and leaves the window alone |
| Cache.RollingCache.PendingEntries | src/fxapp01/dao/DataCacheRolling.java:616-619 | every ledger entry once, each key with its own change |
| Cache.RollingCache.Iterator | src/fxapp01/dao/DataCacheRolling.java:236-239 | a fresh iterator over the rows held and then the ledger's changes, yielding `size()` items |
| Cache.TwinIterator.Items | src/fxapp01/dao/DataCacheRolling.java:611-639 | the rows in order, then the pending entries; no pending entry comes before a row |
| Cache.TwinIterator.constructor | src/fxapp01/dao/DataCacheRolling.java:616-619 | both cursors at the start |
| Cache.TwinIterator.HasNext | src/fxapp01/dao/DataCacheRolling.java:621-628 | an item is left exactly when fewer than all have been yielded |
| Cache.TwinIterator.Next | src/fxapp01/dao/DataCacheRolling.java:630-637 | yields the next item in the merged order and advances by one |

## Left out

- Logging (`log.*`, `LogMgr`): side effects only.
- The key generator `CacheKeyIndex`: it is nondeterministic. Ledger keys are an abstract type.
- `ProductRefsMapper`: a persistence binding with no logic.
- The `List` methods that pass straight through to the list or map and bypass the window: `set`, `add(int, T)`, `add(T)`, `remove`, `removeAll`, `retainAll`, `contains`, `containsAll`, `indexOf`, `lastIndexOf`, `listIterator`, `subList` and `toArray`. Of these, only `add(T)` puts into the ledger map: it stores a bare row under the key null (line 263). No code creates a `DataOldNewValues`, so here the ledger is a field that only `flush` changes.
- `setDefSize`, `setMaxSize`, the getters, `debugPrintAll` and `setChanged` (which nothing calls).
- The row source and writer are I/O. They are modelled as the `Source` value: a fetch returns the rows the source holds, and the writer calls are returned as a sequence. Writer failures, a source changing during a session, and `getRowTotalRange` failing are not modelled.
- The implementation of `NestedIntRange` is not part of this model. The behaviour the cache relies on is written out in module `Ranges`, clamping into the outer range included.
- Row numbers are unbounded integers. Java's 32-bit overflow is not modelled.
- Java `assert` statements (lines 393, 414 and 462) are taken as disabled, as by default.
- The ledger holds `Change` values rather than shared `DataOldNewValues` objects. Aliasing between an entry and other references is not modelled.
- Cache.RollingCache.Get: a row outside the limits fails at once with nothing changed. The source first runs the windowing for it, and then fails at the final lookup.
- Cache.RollingCache.Get: modelled only while the range counts the rows held (`Tracks`). An `addAll` whose rows overflow the limits breaks that, because `incLength` clamps (`Cache.RollingCache.AddAll` reaches such a cache). The source's `get` still serves a hit on such a cache, and this model does not cover it. `Cache.RollingCache.ServeMiss` and the `Serve*` branches carry the same requirement.
- Cache.RollingCache.ContainsIndex: the ledger-key test of line 179 is left out, since ledger keys are not row numbers here.
- Cache.RollingCache.Purge: a run outside the list fails with nothing changed. The source removes rows one by one and throws part-way.
- Cache.RollingCache.WithSizes: requires a positive page size. The source accepts any value, and `get` then divides by it.
- Cache.TwinIterator.Next: returns nothing once every item has been yielded, where the source throws.
- Cache.RollingCache.Iterator: the pending entries come in no particular order (a hash map). Only their membership and number are stated.
- Cache.RollingCache.Flush: it does not model the source stopping at a writer failure.

## Findings

| source | as written | input that shows it | evidently intended | confidence | as-written member | corrected member |
|---|---|---|---|---|---|---|
| src/fxapp01/dao/DataCacheRolling.java:205-206 | a back purge moves the first row back by the rows dropped | window 100-199, `purge(50, 99)`: the range becomes 50-99 over rows 100-149 | the first row stays; the only caller (a left slide) relies on the shift to prepend, so the corrected `get` re-anchors explicitly | not executed | Findings.BackPurgeMovesWindow | Windowing.PurgeKeepsCoherence |
| src/fxapp01/dao/DataCacheRolling.java:414-421 | a near miss prepends only when the aligned target is negative, so it always appends | rows 0-999, pages of 100, maximum 300, window 100-199, `get(50)` | prepend when the target lies before the window, as the shift branch does at line 429 | not executed | Findings.NearMissOnTheLeft | Windowing.ApplyCovers |
| src/fxapp01/dao/DataCacheRolling.java:433-440 | a slide purges as many rows as it fetches, even when the window holds fewer | a fresh cache over rows 0-999, `get(450)`: `purge(0, 499)` on an empty list throws | evict at most what the window holds | not executed | Findings.SlideEvictsMoreThanHeld | Windowing.Classify |
| src/fxapp01/dao/DataCacheRolling.java:433 | a left slide evicting every row purges from position 0, which `purge` takes for a front purge | window 400-799, `get(0)`: the window ends up starting at row 800 | the window starts at the first fetched row | not executed | Findings.SlideLeftOfWholeWindow | Windowing.SlideLeftKeepsCoherence |
| src/fxapp01/dao/DataCacheRolling.java:450-453 | a far miss adds the rows before moving the first row, so the length is clamped from the old first row | window 950-999, `get(0)`: a range of 50 rows over a list of 100 | move the first row, then add | not executed | Findings.FarMissClampedBeforeMove | Windowing.ApplyKeepsCoherence |
