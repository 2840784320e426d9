# SpoolSense state reconciliation, in Dafny

This project models the local state store of the SpoolSense app, `MainViewModel`. The store holds a list of filaments and a list of spools, a completion flag for the initial load, and two progress flags. It has three operations:

- `refreshFilaments()` brings the local filaments in line with a full remote snapshot. It removes the filaments whose id the snapshot no longer lists. It updates the survivors in place and appends one new filament for each id seen for the first time.
- `refreshSpools()` does the same for spools, with two additions. A snapshot row is only applied when its filament id resolves to a local filament; otherwise it is skipped. An applied row first fetches that spool's remaining length.
- `loadInitialData()` appends one filament per snapshot row. It then appends one spool per spool row whose filament resolves, and raises the completion flag.

Layout:

- `Reconcile.dfy` (module `Reconcile`): pure, id-keyed sequence helpers and the facts about them.
  - The helpers are `first(where:)`, the removed-id filter, `removeAll`, the append-if-absent merge of the refresh loops and "last snapshot row wins".
  - The facts cover the key-level outcome of a refresh pass.
- `Entities.dfy` (module `Entities`): the snapshot records as datatypes, and `Filament` and `Spool` as classes. Identity and in-place updates are therefore reference identity and heap writes.
- `ViewModel.dfy` (module `ViewModel`): the class `MainViewModel` with its five fields. Each operation is a method, split into methods that follow the loops and branches of the source, and each is proved against the functions of `Reconcile`.

The remote service is replaced by inputs:

- each snapshot fetch is a sequence parameter;
- `fetchSpoolLengthRemaining(spoolId:)` is a function parameter `lengthRemaining`;
- `refreshSpools()` and `loadInitialData()` return, as `requested`, the spool ids they asked a remaining length for, in order.

## Model

| member | source | states |
|---|---|---|
| Reconcile.First | SpoolSense/MainViewModel.swift:44 | `first(where:)` on ids: none exactly when no element has the id; otherwise an index holding the id with no earlier element holding it |
| Reconcile.StaleMember | SpoolSense/MainViewModel.swift:34-39 | `Stale`, the removed-id computation: an id is removed exactly when a local element carries it and the snapshot does not list it |
| Reconcile.KeepMember | SpoolSense/MainViewModel.swift:34-41 | `Keep`, the survivors filter that lines 34-41 amount to: an element survives exactly when it is present and its key is listed |
| Reconcile.WithoutMember | SpoolSense/MainViewModel.swift:41 | `Without`, that is `removeAll`: an element stays exactly when it is present and its key is not dropped |
| Reconcile.RemoveStaleKeepsListed | SpoolSense/MainViewModel.swift:34-41 | computing the removed ids and then removing them leaves exactly the local elements the snapshot still lists, in their original order |
| Reconcile.KeepUnique | SpoolSense/MainViewModel.swift:41 | removing elements, whatever key decides the removal, keeps ids unique |
| Reconcile.KeysOfKeep | SpoolSense/MainViewModel.swift:34-41 | the ids left after the removal are the old ids filtered by the snapshot |
| Reconcile.MergeExtends | SpoolSense/MainViewModel.swift:43-51 | `Merge`, the refresh loop on ids, only appends: the ids held before stay in place as a prefix |
| Reconcile.MergeMember | SpoolSense/MainViewModel.swift:43-51 | after `Merge` an id is held exactly when it was held before or the snapshot lists it |
| Reconcile.MergeUnique | SpoolSense/MainViewModel.swift:44-50 | appending only when no element has the id keeps ids unique |
| Reconcile.MergeConcat | SpoolSense/MainViewModel.swift:43-51 | running the loop over two batches in turn is running it over their concatenation |
| Reconcile.MergeAbsorbs | SpoolSense/MainViewModel.swift:44-50 | when every incoming id is already held, the loop appends nothing |
| Reconcile.LastIndex | SpoolSense/MainViewModel.swift:43-51 | the index behind `Latest`: the snapshot row whose update sticks for an id carries that id, and no later row does |
| Reconcile.LatestAppend | SpoolSense/MainViewModel.swift:43-51 | one more row: it becomes the last row for its own id and changes no other id's last row |
| Reconcile.ReconciledMatchesSnapshot | SpoolSense/MainViewModel.swift:29-54 | after a filament refresh the ids are unique, and an id is held exactly when the snapshot lists it |
| Reconcile.ReconciledIdempotent | SpoolSense/MainViewModel.swift:29-54 | refreshing twice against one snapshot gives the ids of refreshing once |
| Reconcile.GatedReconcile | SpoolSense/MainViewModel.swift:56-86 | after a spool refresh an id is held exactly when it was held and is still listed, or its row resolved; all held ids are listed and unique |
| Entities.Filament.constructor | SpoolSense/MainViewModel.swift:49 | a new filament carries the row's id and descriptive fields |
| Entities.Filament.UpdateFromRefresh | SpoolSense/MainViewModel.swift:47 | the filament's fields take the row's values; its id is fixed |
| Entities.Spool.constructor | SpoolSense/MainViewModel.swift:80 | a new spool carries the row's id and fields, the given filament and the given remaining length |
| Entities.Spool.UpdateFromRefresh | SpoolSense/MainViewModel.swift:78 | the spool's fields, filament and remaining length take the new values; its id is fixed |
| ViewModel.LinkedFilament | SpoolSense/MainViewModel.swift:72 | `first(where:)`: the linked filament is a local filament carrying the row's filament id, and no earlier local filament carries it |
| ViewModel.ResolvableMember | SpoolSense/MainViewModel.swift:72-74 | `Resolvable`, the gate: a snapshot row passes exactly when it is in the snapshot and its filament id names a local filament |
| ViewModel.ResolvableInSnapshot | SpoolSense/MainViewModel.swift:70-75 | every row that resolves is a row of the snapshot |
| ViewModel.ResolvedIdInSnapshot | SpoolSense/MainViewModel.swift:72-75 | the id a row asks a length for is among the resolvable ids of the whole snapshot |
| ViewModel.LatestResolvableStep | SpoolSense/MainViewModel.swift:70-82 | after one more row the last resolvable row for an id is that row, or the one before it |
| ViewModel.FilamentsBuiltIds | SpoolSense/MainViewModel.swift:89-92 | filaments built from rows carry the rows' ids, in order |
| ViewModel.SpoolsBuiltIds | SpoolSense/MainViewModel.swift:96-106 | spools built from rows carry the rows' ids, in order |
| ViewModel.ResolvableUnique | SpoolSense/MainViewModel.swift:96-101 | distinct snapshot spool ids stay distinct among the rows that resolve |
| ViewModel.MainViewModel.constructor | SpoolSense/MainViewModel.swift:17-27 | the store starts empty, with all three flags false |
| ViewModel.MainViewModel.RefreshFilaments | SpoolSense/MainViewModel.swift:29-54 | ids stay unique and equal the snapshot's ids. Survivors are the same objects in their old order, followed by fresh objects. Each filament reflects the last row for its id. Only filaments whose id the snapshot lists may be written, so removed filaments keep their fields. Spools are untouched, and the progress flag is false on return |
| ViewModel.MainViewModel.ReconcileFilaments | SpoolSense/MainViewModel.swift:32-51 | the work done while the flag is raised: removal, then the merge loop, with the outcome and the write set above |
| ViewModel.MainViewModel.RemoveStaleFilaments | SpoolSense/MainViewModel.swift:34-41 | the filaments become exactly the old ones the snapshot lists, in order, with unique ids |
| ViewModel.MainViewModel.MergeFilamentRows | SpoolSense/MainViewModel.swift:43-51 | the loop keeps the old filaments as a prefix and appends fresh ones. Ids become the append-if-absent merge of the snapshot ids, and every listed filament reflects its last row. Only filaments whose id the snapshot lists may be written |
| ViewModel.MainViewModel.MergeFilamentRow | SpoolSense/MainViewModel.swift:43-51 | one turn: the pending merge is one row shorter, and filaments answer for one more row. The ids become the one-row merge, so at most one fresh filament is appended. Only the filament carrying this row's id may be written |
| ViewModel.MainViewModel.ApplyFilamentRow | SpoolSense/MainViewModel.swift:44-50 | the filament with the row's id is updated in place, or one fresh filament is appended when none exists. No other filament is written, and all others stay in the array |
| ViewModel.MainViewModel.RefreshSpools | SpoolSense/MainViewModel.swift:56-86 | lengths are requested exactly for the resolvable rows, in order. An id is held exactly when it survives or its row resolved. Survivors are the same objects in their old order, then fresh spools. A requested spool reflects its last resolvable row, links the first filament with that id and holds the length fetched for its id. Any other spool is an old object, unchanged. Only spools carrying a resolvable id may be written, so removed spools keep their fields. Filaments are untouched, and the flag is false on return |
| ViewModel.MainViewModel.ReconcileSpools | SpoolSense/MainViewModel.swift:59-83 | the work done while the flag is raised, with the outcome and the write set above |
| ViewModel.MainViewModel.RemoveStaleSpools | SpoolSense/MainViewModel.swift:61-68 | the spools become exactly the old ones the snapshot lists, in order, with unique ids |
| ViewModel.MainViewModel.MergeSpoolRows | SpoolSense/MainViewModel.swift:70-83 | the loop requests lengths for the resolvable rows only. Ids become the merge of those ids. Requested spools hold their last resolvable row, and only spools with a resolvable id are written |
| ViewModel.MainViewModel.MergeSpoolRow | SpoolSense/MainViewModel.swift:70-83 | one turn: the request log and the pending merge advance by the row when it resolves, and by nothing otherwise |
| ViewModel.MainViewModel.ApplySpoolRow | SpoolSense/MainViewModel.swift:71-82 | an unresolved row requests nothing and changes nothing. A resolved row requests its own id and leaves that spool reflecting the row, linked to the first filament with its id, with the fetched length |
| ViewModel.MainViewModel.UpsertSpool | SpoolSense/MainViewModel.swift:77-81 | the spool with the row's id is updated in place, or one fresh spool is appended when none exists. No other spool is written |
| ViewModel.MainViewModel.LoadInitialData | SpoolSense/MainViewModel.swift:88-109 | one fresh filament per row, in order, is appended to what is held. Then one fresh spool per resolving row, in order, each holding its fetched length. Ids are unique when loading into an empty store with unique snapshot ids. The completion flag is true and the progress flags are unchanged |
| ViewModel.MainViewModel.LoadEntities | SpoolSense/MainViewModel.swift:89-106 | the loading done before the flag is raised, with the outcome above |
| ViewModel.MainViewModel.AppendLoadedFilaments | SpoolSense/MainViewModel.swift:89-92 | one fresh filament per snapshot row is appended, in order, and the ids grow by the snapshot ids |
| ViewModel.MainViewModel.AppendLoadedSpools | SpoolSense/MainViewModel.swift:94-106 | one fresh spool per resolving row is appended, in order. Lengths are requested exactly for those rows |
| ViewModel.MainViewModel.LoadSpoolRow | SpoolSense/MainViewModel.swift:97-105 | an unresolved row is skipped without a request; a resolved row requests its id and appends one spool built from it |

## Left out

- The network client, the Supabase session and `session` are not modelled. Snapshots and remaining lengths are inputs.
- `async` suspension is not modelled, and neither are races between overlapping refreshes. Each operation is one sequential method.
- `@Observable` change notification is left out. So are the views, including `SpoolSheet`.
- Fetch failures are left out: the calls in the source cannot fail.
- The progress flags are modelled on entry and on return only. Their raised value during a pass is not observable in a sequential model.
- `Spool.remainingPct` is not modelled, and lengths are integers instead of `Double`.
- The filament material is a string rather than an enum. Fields the refresh code never reads are left out.
- The files that declare `Filament`, `Spool` and their snapshot records are not part of this model. Their initialisers and `updateFromRefresh` methods are modelled from how `MainViewModel` calls them: they set the record's fields and keep the id.
- ViewModel.MainViewModel.LoadInitialData: promises unique ids only when the store starts empty and the snapshot ids are distinct. The source appends without clearing, so a second load duplicates entries.
- ViewModel.MainViewModel.RefreshFilaments: says nothing about spools that still link a removed filament. The source removes no spools there, so such links can dangle until the next spool refresh.
- ViewModel.MainViewModel.RefreshSpools: an existing spool whose row does not resolve is kept unchanged while the snapshot still lists its id. The held spool ids are therefore not just the resolvable snapshot ids.
- ViewModel.MainViewModel.RefreshFilaments: requires the held filament ids to be distinct on entry. The source runs without that condition. Held duplicates arise only from repeated loads or from a snapshot that repeats an id, and the model does not cover a refresh over them.
- ViewModel.MainViewModel.RefreshSpools: requires the held spool ids to be distinct on entry, for the same reason. Neither refresh needs anything of the other collection.
- Duplicate ids inside one snapshot are not excluded. In `refreshFilaments()` the last row for an id wins; in `refreshSpools()` the last row for an id whose filament resolves wins. A refresh creates at most one entity per id, and only when the id was not held before and, for spools, some row for it resolves. `loadInitialData()` creates one entity per row, so a repeated id there gives two entities.
