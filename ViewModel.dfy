/**
  MainViewModel: the local state store and its reconciliation passes.

  The remote service is replaced by inputs: each snapshot fetch becomes a
  sequence parameter and `fetchSpoolLengthRemaining(spoolId:)` becomes the
  function `lengthRemaining`. `refreshSpools()` and `loadInitialData()`
  return, as `requested`, the spool ids for which they issued a
  remaining-length request, in order.
 */
module ViewModel {
  import opened Reconcile
  import opened Entities

  function FilamentIds(fs: seq<Filament>): (r: seq<FilamentId>) { Keys(fs, FilamentKey) }
  function SpoolIds(ss: seq<Spool>): (r: seq<SpoolId>) { Keys(ss, SpoolKey) }
  function SnapshotFilamentIds(api: seq<FilamentDto>): (r: seq<FilamentId>) { Keys(api, FilamentDtoKey) }
  function SnapshotSpoolIds(api: seq<SpoolDto>): (r: seq<SpoolId>) { Keys(api, SpoolDtoKey) }

  /**
    The gate of `refreshSpools()` and `loadInitialData()`: the snapshot spools
    whose filament id resolves against `fs`, in snapshot order.
   */
  function Resolvable(api: seq<SpoolDto>, fs: seq<Filament>): (r: seq<SpoolDto>)
  {
    Keep(api, SpoolDtoFilament, FilamentIds(fs))
  }

  /** A snapshot row passes the gate exactly when its filament id names a local filament. */
  lemma ResolvableMember(api: seq<SpoolDto>, fs: seq<Filament>, d: SpoolDto)
    ensures d in Resolvable(api, fs) <==> d in api && d.filamentId in FilamentIds(fs)
  {
    KeepMember(api, SpoolDtoFilament, FilamentIds(fs), d);
  }

  /** The local filament a spool row links to: the first one carrying its filament id. */
  function LinkedFilament(fs: seq<Filament>, id: FilamentId): (f: Filament)
    requires id in FilamentIds(fs)
    ensures f in fs && f.id == id
    ensures exists i :: 0 <= i < |fs| && fs[i] == f && forall j :: 0 <= j < i ==> fs[j].id != id
  {
    fs[First(fs, FilamentKey, id).value]
  }

  /** The id a spool row requests a remaining length for: its own when its filament resolves against `fs`. */
  function ResolvedId(d: SpoolDto, fs: seq<Filament>): (r: seq<SpoolId>)
  {
    if d.filamentId in FilamentIds(fs) then [d.id] else []
  }

  /** The local filaments carrying one of `ids`: all that a pass over those rows may write to. */
  function FilamentsWithIds(fs: seq<Filament>, ids: seq<FilamentId>): (r: set<Filament>)
  {
    set f | f in fs && f.id in ids
  }

  /** The local spools carrying one of `ids`: all that a pass over those rows may write to. */
  function SpoolsWithIds(ss: seq<Spool>, ids: seq<SpoolId>): (r: set<Spool>)
  {
    set s | s in ss && s.id in ids
  }

  /** The id a row requests is among the resolvable ids of the whole snapshot. */
  lemma ResolvedIdInSnapshot(api: seq<SpoolDto>, fs: seq<Filament>, i: nat)
    requires i < |api|
    ensures forall k :: k in ResolvedId(api[i], fs) ==> k in SnapshotSpoolIds(Resolvable(api, fs))
  {
    if api[i].filamentId in FilamentIds(fs) {
      KeepMember(api, SpoolDtoFilament, FilamentIds(fs), api[i]);
      InKeys(Resolvable(api, fs), SpoolDtoKey, api[i].id);
    }
  }

  /** Every resolvable row names a local filament and belongs to the snapshot. */
  lemma ResolvableInSnapshot(api: seq<SpoolDto>, fs: seq<Filament>)
    ensures forall k :: k in SnapshotSpoolIds(Resolvable(api, fs)) ==> k in SnapshotSpoolIds(api)
  {
    forall k | k in SnapshotSpoolIds(Resolvable(api, fs)) ensures k in SnapshotSpoolIds(api) {
      var r := Resolvable(api, fs);
      var i :| 0 <= i < |r| && SnapshotSpoolIds(r)[i] == k;
      KeepMember(api, SpoolDtoFilament, FilamentIds(fs), r[i]);
      var j :| 0 <= j < |api| && api[j] == r[i];
      assert SnapshotSpoolIds(api)[j] == k;
    }
  }

  /** The resolvable rows of a prefix grow by one row at a time. */
  lemma ResolvablePrefix(api: seq<SpoolDto>, fs: seq<Filament>, i: nat)
    requires i < |api|
    ensures Resolvable(api[..i + 1], fs) ==
            Resolvable(api[..i], fs) + (if api[i].filamentId in FilamentIds(fs) then [api[i]] else [])
  {
    assert api[..i + 1] == api[..i] + [api[i]];
    KeepAppend(api[..i], [api[i]], SpoolDtoFilament, FilamentIds(fs));
  }

  /** The resolvable ids of a suffix shrink by one row at a time. */
  lemma ResolvableSuffix(api: seq<SpoolDto>, fs: seq<Filament>, i: nat)
    requires i < |api|
    ensures SnapshotSpoolIds(Resolvable(api[i..], fs)) ==
            (if api[i].filamentId in FilamentIds(fs) then [api[i].id] else [])
            + SnapshotSpoolIds(Resolvable(api[i + 1..], fs))
  {
    assert api[i..][0] == api[i] && api[i..][1..] == api[i + 1..];
    var head := if api[i].filamentId in FilamentIds(fs) then [api[i]] else [];
    KeysAppend(head, Resolvable(api[i + 1..], fs), SpoolDtoKey);
  }

  /** Spools built from two runs of rows, one after the other, are built from the rows together. */
  lemma SpoolsBuiltConcat(built: seq<Spool>, gated: seq<SpoolDto>, more: seq<Spool>, rows: seq<SpoolDto>,
                          fs: seq<Filament>, lengthRemaining: SpoolId -> int)
    requires SpoolsBuiltFrom(built, gated, fs, lengthRemaining)
    requires SpoolsBuiltFrom(more, rows, fs, lengthRemaining)
    ensures SpoolsBuiltFrom(built + more, gated + rows, fs, lengthRemaining)
  {
    forall j | 0 <= j < |gated + rows|
      ensures SpoolRefreshedFrom((built + more)[j], (gated + rows)[j], fs, lengthRemaining)
    {
      if j >= |gated| {
        assert (built + more)[j] == more[j - |gated|] && (gated + rows)[j] == rows[j - |gated|];
      }
    }
  }

  /** Filaments built from snapshot rows carry the rows' ids, in order. */
  lemma {:induction false} FilamentsBuiltIds(built: seq<Filament>, api: seq<FilamentDto>)
    requires FilamentsBuiltFrom(built, api)
    ensures FilamentIds(built) == SnapshotFilamentIds(api)
    decreases |built|
  {
    if built != [] {
      FilamentsBuiltIds(built[1..], api[1..]);
    }
  }

  /** Spools built from snapshot rows carry the rows' ids, in order. */
  lemma {:induction false} SpoolsBuiltIds(built: seq<Spool>, gated: seq<SpoolDto>, fs: seq<Filament>, lengthRemaining: SpoolId -> int)
    requires SpoolsBuiltFrom(built, gated, fs, lengthRemaining)
    ensures SpoolIds(built) == SnapshotSpoolIds(gated)
    decreases |built|
  {
    if built != [] {
      SpoolsBuiltIds(built[1..], gated[1..], fs, lengthRemaining);
    }
  }

  /** Concatenation regroups; a lemma call keeps the loops from re-deriving it by extensionality, which is costly there. */
  lemma AppendAssoc<T>(a: seq<T>, b: seq<T>, c: seq<T>)
    ensures a + b + c == a + (b + c)
  {
  }

  /** Distinct snapshot spool ids stay distinct among the resolvable rows. */
  lemma ResolvableUnique(api: seq<SpoolDto>, fs: seq<Filament>)
    requires Unique(SnapshotSpoolIds(api))
    ensures Unique(SnapshotSpoolIds(Resolvable(api, fs)))
  {
    KeepUnique(api, SpoolDtoKey, SpoolDtoFilament, FilamentIds(fs));
  }

  /** The row a spool id last received among the resolvable rows, one row further on. */
  lemma LatestResolvableStep(api: seq<SpoolDto>, fs: seq<Filament>, i: nat, k: SpoolId)
    requires i < |api|
    requires k in SnapshotSpoolIds(Resolvable(api[..i + 1], fs))
    ensures if api[i].filamentId in FilamentIds(fs) && api[i].id == k
            then Latest(Resolvable(api[..i + 1], fs), SpoolDtoKey, k) == api[i]
            else k in SnapshotSpoolIds(Resolvable(api[..i], fs))
                 && Latest(Resolvable(api[..i + 1], fs), SpoolDtoKey, k) == Latest(Resolvable(api[..i], fs), SpoolDtoKey, k)
  {
    ResolvablePrefix(api, fs, i);
    var before := Resolvable(api[..i], fs);
    if api[i].filamentId in FilamentIds(fs) {
      LatestAppend(before, api[i], SpoolDtoKey, k);
    } else {
      assert Resolvable(api[..i + 1], fs) == before;
    }
  }

  /**
    `s` holds what a refresh or the initial load writes for snapshot row `d`:
    its fields, the linked local filament and the remaining length fetched
    for its own id.
   */
  predicate SpoolRefreshedFrom(s: Spool, d: SpoolDto, fs: seq<Filament>, lengthRemaining: SpoolId -> int)
    reads s
  {
    d.filamentId in FilamentIds(fs)
    && s.id == d.id && s.Reflects(d) && s.filament == LinkedFilament(fs, d.filamentId)
    && s.lengthRemaining == lengthRemaining(d.id)
  }

  /** `added` are filaments built from the rows of `api`, one per row and in order. */
  predicate FilamentsBuiltFrom(added: seq<Filament>, api: seq<FilamentDto>)
    reads added
  {
    |added| == |api| && forall j :: 0 <= j < |api| ==> added[j].id == api[j].id && added[j].Reflects(api[j])
  }

  /** `added` are spools built from the rows of `gated`, one per row and in order. */
  predicate SpoolsBuiltFrom(added: seq<Spool>, gated: seq<SpoolDto>, fs: seq<Filament>, lengthRemaining: SpoolId -> int)
    reads added
  {
    |added| == |gated| && forall j :: 0 <= j < |gated| ==> SpoolRefreshedFrom(added[j], gated[j], fs, lengthRemaining)
  }

  class MainViewModel {
    var filaments: seq<Filament>
    var spools: seq<Spool>
    var initialDataLoaded: bool
    var refreshingFilaments: bool
    var refreshingSpools: bool

    /** Within each collection ids are unique. */
    ghost predicate Valid()
      reads this
    {
      Unique(FilamentIds(filaments)) && Unique(SpoolIds(spools))
    }

    constructor ()
      ensures Valid() && filaments == [] && spools == []
      ensures !initialDataLoaded && !refreshingFilaments && !refreshingSpools
    {
      filaments := [];
      spools := [];
      initialDataLoaded := false;
      refreshingFilaments := false;
      refreshingSpools := false;
    }

    /**
      `refreshFilaments()`: drop the local filaments the snapshot no longer
      lists, update the survivors in place and append the new ones. The
      progress flag is raised for the whole pass and lowered at the end.
     */
    method RefreshFilaments(apiFilaments: seq<FilamentDto>)
      requires Unique(FilamentIds(filaments))
      modifies this, FilamentsWithIds(filaments, SnapshotFilamentIds(apiFilaments))
      ensures Unique(FilamentIds(filaments))
      // identity and order: the survivors, the same objects in their old order, then new objects
      ensures var kept := Keep(old(filaments), FilamentKey, SnapshotFilamentIds(apiFilaments));
              |kept| <= |filaments| && filaments[..|kept|] == kept
              && forall j :: |kept| <= j < |filaments| ==> fresh(filaments[j])
      ensures FilamentIds(filaments) == Reconciled(FilamentIds(old(filaments)), SnapshotFilamentIds(apiFilaments))
      ensures forall f :: f in filaments ==>
                f.id in SnapshotFilamentIds(apiFilaments)
                && f.Reflects(Latest(apiFilaments, FilamentDtoKey, f.id))
      ensures forall k :: k in SnapshotFilamentIds(apiFilaments) ==> k in FilamentIds(filaments)
      ensures spools == old(spools)
      ensures !refreshingFilaments
      ensures refreshingSpools == old(refreshingSpools) && initialDataLoaded == old(initialDataLoaded)
    {
      refreshingFilaments := true;
      ReconcileFilaments(apiFilaments);
      refreshingFilaments := false;
    }

    /** The work `refreshFilaments()` does while its progress flag is raised. */
    method ReconcileFilaments(apiFilaments: seq<FilamentDto>)
      requires Unique(FilamentIds(filaments))
      modifies this`filaments, FilamentsWithIds(filaments, SnapshotFilamentIds(apiFilaments))
      ensures Unique(FilamentIds(filaments))
      // identity and order: the survivors, the same objects in their old order, then new objects
      ensures var kept := Keep(old(filaments), FilamentKey, SnapshotFilamentIds(apiFilaments));
              |kept| <= |filaments| && filaments[..|kept|] == kept
              && forall j :: |kept| <= j < |filaments| ==> fresh(filaments[j])
      ensures FilamentIds(filaments) == Reconciled(FilamentIds(old(filaments)), SnapshotFilamentIds(apiFilaments))
      ensures forall f :: f in filaments ==>
                f.id in SnapshotFilamentIds(apiFilaments)
                && f.Reflects(Latest(apiFilaments, FilamentDtoKey, f.id))
      ensures forall k :: k in SnapshotFilamentIds(apiFilaments) ==> k in FilamentIds(filaments)
    {
      var snapshotIds := SnapshotFilamentIds(apiFilaments);
      RemoveStaleFilaments(snapshotIds);
      ghost var kept := filaments;
      assert forall j :: 0 <= j < |kept| ==> kept[j] in old(filaments);
      MergeFilamentRows(apiFilaments);

      ReconciledMatchesSnapshot(FilamentIds(old(filaments)), snapshotIds);
      forall f | f in filaments ensures f.id in snapshotIds {
        var j :| 0 <= j < |filaments| && filaments[j] == f;
        assert FilamentIds(filaments)[j] == f.id;
      }
    }

    /**
      The removed-id computation and `removeAll` of `refreshFilaments()`:
      keep exactly the filaments whose id the snapshot lists, in order.
     */
    method RemoveStaleFilaments(snapshotIds: seq<FilamentId>)
      requires Unique(FilamentIds(filaments))
      modifies this`filaments
      ensures filaments == Keep(old(filaments), FilamentKey, snapshotIds)
      ensures FilamentIds(filaments) == Keep(FilamentIds(old(filaments)), Self, snapshotIds)
      ensures Unique(FilamentIds(filaments))
      ensures forall f :: f in filaments ==> f in old(filaments)
    {
      var removedFilamentIds := Stale(filaments, FilamentKey, snapshotIds);
      filaments := Without(filaments, FilamentKey, removedFilamentIds);
      RemoveStaleKeepsListed(old(filaments), FilamentKey, snapshotIds);
      KeysOfKeep(old(filaments), FilamentKey, snapshotIds);
      KeepUnique(old(filaments), FilamentKey, FilamentKey, snapshotIds);
      forall f | f in filaments ensures f in old(filaments) {
        KeepMember(old(filaments), FilamentKey, snapshotIds, f);
      }
    }

    /**
      The `forEach` loop of `refreshFilaments()`: for each snapshot row in
      order, update the filament with its id in place or append a new one.
     */
    method MergeFilamentRows(apiFilaments: seq<FilamentDto>)
      requires Unique(FilamentIds(filaments))
      modifies this`filaments, FilamentsWithIds(filaments, SnapshotFilamentIds(apiFilaments))
      ensures Unique(FilamentIds(filaments))
      ensures |old(filaments)| <= |filaments| && filaments[..|old(filaments)|] == old(filaments)
      ensures forall j :: |old(filaments)| <= j < |filaments| ==> fresh(filaments[j])
      ensures FilamentIds(filaments) == Merge(FilamentIds(old(filaments)), SnapshotFilamentIds(apiFilaments))
      ensures forall f :: f in filaments && f.id in SnapshotFilamentIds(apiFilaments) ==>
                f.Reflects(Latest(apiFilaments, FilamentDtoKey, f.id))
    {
      var snapshotIds := SnapshotFilamentIds(apiFilaments);
      ghost var target := Merge(FilamentIds(filaments), snapshotIds);
      ghost var built: seq<Filament> := [];
      var i := 0;
      while i < |apiFilaments|
        invariant 0 <= i <= |apiFilaments|
        invariant Unique(FilamentIds(filaments))
        invariant filaments == old(filaments) + built
        invariant forall f :: f in built ==> fresh(f)
        invariant Merge(FilamentIds(filaments), snapshotIds[i..]) == target
        invariant forall f :: f in filaments && f.id in Keys(apiFilaments[..i], FilamentDtoKey) ==>
                    f.Reflects(Latest(apiFilaments[..i], FilamentDtoKey, f.id))
      {
        assert snapshotIds[i] == apiFilaments[i].id;
        var added := MergeFilamentRow(apiFilaments, i);
        AppendAssoc(old(filaments), built, added);
        built := built + added;
        i := i + 1;
      }
      assert apiFilaments[..i] == apiFilaments;
      assert filaments[..|old(filaments)|] == old(filaments);
      forall j | |old(filaments)| <= j < |filaments| ensures fresh(filaments[j]) {
        assert filaments[j] == built[j - |old(filaments)|] && built[j - |old(filaments)|] in built;
      }
    }

    /**
      One turn of the loop of `refreshFilaments()`, with what the turn adds
      to the rows already handled: the filaments answer for the snapshot
      rows seen so far, and the pending merge is one row shorter.
     */
    method MergeFilamentRow(apiFilaments: seq<FilamentDto>, i: nat)
      returns (ghost added: seq<Filament>)
      requires i < |apiFilaments|
      requires Unique(FilamentIds(filaments))
      requires forall f :: f in filaments && f.id in Keys(apiFilaments[..i], FilamentDtoKey) ==>
                 f.Reflects(Latest(apiFilaments[..i], FilamentDtoKey, f.id))
      modifies this`filaments, FilamentsWithIds(filaments, [apiFilaments[i].id])
      ensures Unique(FilamentIds(filaments))
      ensures filaments == old(filaments) + added
      ensures forall f :: f in added ==> fresh(f)
      ensures |added| <= 1
      ensures FilamentIds(filaments) == Merge(FilamentIds(old(filaments)), [apiFilaments[i].id])
      ensures Merge(FilamentIds(filaments), SnapshotFilamentIds(apiFilaments)[i + 1..])
              == Merge(FilamentIds(old(filaments)), SnapshotFilamentIds(apiFilaments)[i..])
      ensures forall f :: f in filaments && f.id in Keys(apiFilaments[..i + 1], FilamentDtoKey) ==>
                f.Reflects(Latest(apiFilaments[..i + 1], FilamentDtoKey, f.id))
    {
      var apiFilament := apiFilaments[i];
      ghost var snapshotIds := SnapshotFilamentIds(apiFilaments);
      assert snapshotIds[i] == apiFilament.id;
      MergeStep(FilamentIds(filaments), snapshotIds, i);
      assert apiFilaments[..i + 1] == apiFilaments[..i] + [apiFilament];
      label Row:
      added := ApplyFilamentRow(apiFilament);
      assert [apiFilament.id][1..] == [];
      assert |FilamentIds(filaments)| == |filaments|;
      forall f | f in filaments && f.id in Keys(apiFilaments[..i + 1], FilamentDtoKey)
        ensures f.Reflects(Latest(apiFilaments[..i + 1], FilamentDtoKey, f.id))
      {
        LatestAppend(apiFilaments[..i], apiFilament, FilamentDtoKey, f.id);
        if f.id != apiFilament.id {
          assert old@Row(f.Reflects(Latest(apiFilaments[..i], FilamentDtoKey, f.id)));
        }
      }
    }

    /**
      The body of that loop: update the local filament with the row's id in
      place, or append a new one when there is none.
     */
    method ApplyFilamentRow(apiFilament: FilamentDto)
      returns (ghost added: seq<Filament>)
      requires Unique(FilamentIds(filaments))
      modifies this`filaments, FilamentsWithIds(filaments, [apiFilament.id])
      ensures Unique(FilamentIds(filaments))
      ensures filaments == old(filaments) + added
      ensures forall f :: f in added ==> fresh(f)
      ensures FilamentIds(filaments) ==
                if apiFilament.id in FilamentIds(old(filaments)) then FilamentIds(old(filaments))
                else FilamentIds(old(filaments)) + [apiFilament.id]
      ensures forall f :: f in filaments && f.id == apiFilament.id ==> f.Reflects(apiFilament)
      ensures forall f :: f in filaments && f.id != apiFilament.id ==> f in old(filaments)
    {
      var existing := First(filaments, FilamentKey, apiFilament.id);
      added := [];
      if existing.Some? {
        var filament := filaments[existing.value];
        filament.UpdateFromRefresh(apiFilament);
        forall f | f in filaments && f.id == apiFilament.id ensures f == filament {
          UniqueKeyed(filaments, FilamentKey, existing.value, f);
        }
      } else {
        InKeys(filaments, FilamentKey, apiFilament.id);
        var filament := new Filament(apiFilament);
        KeysAppend(filaments, [filament], FilamentKey);
        filaments := filaments + [filament];
        added := [filament];
      }
    }

    /**
      `refreshSpools()`: drop the local spools the snapshot no longer lists;
      then, for each snapshot row whose filament resolves locally, fetch the
      remaining length and update the spool with that id in place or append
      a new one. Rows whose filament does not resolve are skipped: no fetch,
      no creation, no update, and an existing spool with that id stays as it
      was. Returns the ids whose remaining length was requested, in order.
     */
    method RefreshSpools(apiSpools: seq<SpoolDto>, lengthRemaining: SpoolId -> int)
      returns (requested: seq<SpoolId>)
      requires Unique(SpoolIds(spools))
      modifies this, SpoolsWithIds(spools, SnapshotSpoolIds(Resolvable(apiSpools, filaments)))
      ensures Unique(SpoolIds(spools))
      ensures requested == SnapshotSpoolIds(Resolvable(apiSpools, filaments))
      // identity and order: the survivors, the same objects in their old order, then new objects
      ensures var kept := Keep(old(spools), SpoolKey, SnapshotSpoolIds(apiSpools));
              |kept| <= |spools| && spools[..|kept|] == kept
              && forall j :: |kept| <= j < |spools| ==> fresh(spools[j])
      ensures SpoolIds(spools) == Merge(Keep(SpoolIds(old(spools)), Self, SnapshotSpoolIds(apiSpools)), requested)
      ensures forall s :: s in spools ==> s.id in SnapshotSpoolIds(apiSpools)
      ensures forall k :: k in SpoolIds(spools) <==>
                (k in SpoolIds(old(spools)) && k in SnapshotSpoolIds(apiSpools)) || k in requested
      ensures forall s :: s in spools && s.id in requested ==>
                SpoolRefreshedFrom(s, Latest(Resolvable(apiSpools, filaments), SpoolDtoKey, s.id), filaments, lengthRemaining)
      ensures forall s :: s in spools && s.id !in requested ==> s in old(spools) && unchanged(s)
      ensures filaments == old(filaments)
      ensures !refreshingSpools
      ensures refreshingFilaments == old(refreshingFilaments) && initialDataLoaded == old(initialDataLoaded)
    {
      refreshingSpools := true;
      requested := ReconcileSpools(apiSpools, lengthRemaining);
      refreshingSpools := false;
    }

    /** The work `refreshSpools()` does while its progress flag is raised. */
    method ReconcileSpools(apiSpools: seq<SpoolDto>, lengthRemaining: SpoolId -> int)
      returns (requested: seq<SpoolId>)
      requires Unique(SpoolIds(spools))
      modifies this`spools, SpoolsWithIds(spools, SnapshotSpoolIds(Resolvable(apiSpools, filaments)))
      ensures Unique(SpoolIds(spools))
      ensures requested == SnapshotSpoolIds(Resolvable(apiSpools, filaments))
      // identity and order: the survivors, the same objects in their old order, then new objects
      ensures var kept := Keep(old(spools), SpoolKey, SnapshotSpoolIds(apiSpools));
              |kept| <= |spools| && spools[..|kept|] == kept
              && forall j :: |kept| <= j < |spools| ==> fresh(spools[j])
      ensures SpoolIds(spools) == Merge(Keep(SpoolIds(old(spools)), Self, SnapshotSpoolIds(apiSpools)), requested)
      ensures forall s :: s in spools ==> s.id in SnapshotSpoolIds(apiSpools)
      ensures forall k :: k in SpoolIds(spools) <==>
                (k in SpoolIds(old(spools)) && k in SnapshotSpoolIds(apiSpools)) || k in requested
      ensures forall s :: s in spools && s.id in requested ==>
                SpoolRefreshedFrom(s, Latest(Resolvable(apiSpools, filaments), SpoolDtoKey, s.id), filaments, lengthRemaining)
      ensures forall s :: s in spools && s.id !in requested ==> s in old(spools) && unchanged(s)
    {
      var snapshotIds := SnapshotSpoolIds(apiSpools);
      RemoveStaleSpools(snapshotIds);
      ghost var kept := spools;
      assert forall j :: 0 <= j < |kept| ==> kept[j] in old(spools);
      requested := MergeSpoolRows(apiSpools, lengthRemaining);

      ResolvableInSnapshot(apiSpools, filaments);
      GatedReconcile(SpoolIds(old(spools)), snapshotIds, requested);
      forall s | s in spools ensures s.id in snapshotIds {
        var j :| 0 <= j < |spools| && spools[j] == s;
        assert SpoolIds(spools)[j] == s.id;
      }
    }

    /**
      The removed-id computation and `removeAll` of `refreshSpools()`: keep
      exactly the spools whose id the snapshot lists, in order.
     */
    method RemoveStaleSpools(snapshotIds: seq<SpoolId>)
      requires Unique(SpoolIds(spools))
      modifies this`spools
      ensures spools == Keep(old(spools), SpoolKey, snapshotIds)
      ensures SpoolIds(spools) == Keep(SpoolIds(old(spools)), Self, snapshotIds)
      ensures Unique(SpoolIds(spools))
      ensures forall s :: s in spools ==> s in old(spools)
    {
      var removedSpoolIds := Stale(spools, SpoolKey, snapshotIds);
      spools := Without(spools, SpoolKey, removedSpoolIds);
      RemoveStaleKeepsListed(old(spools), SpoolKey, snapshotIds);
      KeysOfKeep(old(spools), SpoolKey, snapshotIds);
      KeepUnique(old(spools), SpoolKey, SpoolKey, snapshotIds);
      forall s | s in spools ensures s in old(spools) {
        KeepMember(old(spools), SpoolKey, snapshotIds, s);
      }
    }

    /**
      The `for` loop of `refreshSpools()`: each snapshot row in order goes
      through ApplySpoolRow.
     */
    method MergeSpoolRows(apiSpools: seq<SpoolDto>, lengthRemaining: SpoolId -> int)
      returns (requested: seq<SpoolId>)
      requires Unique(SpoolIds(spools))
      modifies this`spools, SpoolsWithIds(spools, SnapshotSpoolIds(Resolvable(apiSpools, filaments)))
      ensures Unique(SpoolIds(spools))
      ensures requested == SnapshotSpoolIds(Resolvable(apiSpools, filaments))
      ensures |old(spools)| <= |spools| && spools[..|old(spools)|] == old(spools)
      ensures forall j :: |old(spools)| <= j < |spools| ==> fresh(spools[j])
      ensures SpoolIds(spools) == Merge(SpoolIds(old(spools)), requested)
      ensures forall s :: s in spools && s.id in requested ==>
                SpoolRefreshedFrom(s, Latest(Resolvable(apiSpools, filaments), SpoolDtoKey, s.id), filaments, lengthRemaining)
      ensures forall s :: s in spools && s.id !in requested ==> s in old(spools)
    {
      ghost var target := Merge(SpoolIds(spools), SnapshotSpoolIds(Resolvable(apiSpools, filaments)));
      ghost var built: seq<Spool> := [];
      requested := [];
      var i := 0;
      while i < |apiSpools|
        invariant 0 <= i <= |apiSpools|
        invariant Unique(SpoolIds(spools))
        invariant requested == SnapshotSpoolIds(Resolvable(apiSpools[..i], filaments))
        invariant spools == old(spools) + built
        invariant forall s :: s in built ==> fresh(s)
        invariant Merge(SpoolIds(spools), SnapshotSpoolIds(Resolvable(apiSpools[i..], filaments))) == target
        invariant forall s :: s in spools && s.id in requested ==>
                    SpoolRefreshedFrom(s, Latest(Resolvable(apiSpools[..i], filaments), SpoolDtoKey, s.id), filaments, lengthRemaining)
        invariant forall s :: s in spools && s.id !in requested ==> s in old(spools)
      {
        ghost var before := spools;
        ResolvedIdInSnapshot(apiSpools, filaments, i);
        var fetched, added := MergeSpoolRow(apiSpools, i, lengthRemaining, requested);
        MergeConcat(SpoolIds(before), fetched, SnapshotSpoolIds(Resolvable(apiSpools[i + 1..], filaments)));
        requested := requested + fetched;
        AppendAssoc(old(spools), built, added);
        built := built + added;
        i := i + 1;
      }
      assert apiSpools[..i] == apiSpools;
      assert spools[..|old(spools)|] == old(spools);
      forall j | |old(spools)| <= j < |spools| ensures fresh(spools[j]) {
        assert spools[j] == built[j - |old(spools)|] && built[j - |old(spools)|] in built;
      }
    }

    /**
      One turn of the loop of `refreshSpools()`, with what the turn adds to
      the rows already handled: the fetch log grows by the row's id when its
      filament resolves, and the spools answer for the resolvable rows seen
      so far.
     */
    method MergeSpoolRow(apiSpools: seq<SpoolDto>, i: nat, lengthRemaining: SpoolId -> int, ghost requested: seq<SpoolId>)
      returns (fetched: seq<SpoolId>, ghost added: seq<Spool>)
      requires i < |apiSpools|
      requires Unique(SpoolIds(spools))
      requires requested == SnapshotSpoolIds(Resolvable(apiSpools[..i], filaments))
      requires forall s :: s in spools && s.id in requested ==>
                 SpoolRefreshedFrom(s, Latest(Resolvable(apiSpools[..i], filaments), SpoolDtoKey, s.id), filaments, lengthRemaining)
      modifies this`spools, SpoolsWithIds(spools, ResolvedId(apiSpools[i], filaments))
      ensures Unique(SpoolIds(spools))
      ensures requested + fetched == SnapshotSpoolIds(Resolvable(apiSpools[..i + 1], filaments))
      ensures SnapshotSpoolIds(Resolvable(apiSpools[i..], filaments))
              == fetched + SnapshotSpoolIds(Resolvable(apiSpools[i + 1..], filaments))
      ensures spools == old(spools) + added
      ensures forall s :: s in added ==> fresh(s)
      ensures SpoolIds(spools) == Merge(SpoolIds(old(spools)), fetched)
      ensures forall s :: s in spools && s.id in requested + fetched ==>
                SpoolRefreshedFrom(s, Latest(Resolvable(apiSpools[..i + 1], filaments), SpoolDtoKey, s.id), filaments, lengthRemaining)
      ensures forall s :: s in spools && s.id !in fetched ==> s in old(spools)
    {
      var apiSpool := apiSpools[i];
      ghost var gatedBefore := Resolvable(apiSpools[..i], filaments);
      ResolvablePrefix(apiSpools, filaments, i);
      ResolvableSuffix(apiSpools, filaments, i);
      label Row:
      fetched, added := ApplySpoolRow(apiSpool, lengthRemaining);
      KeysAppend(gatedBefore, if fetched == [] then [] else [apiSpool], SpoolDtoKey);
      assert requested + fetched == SnapshotSpoolIds(Resolvable(apiSpools[..i + 1], filaments));
      forall s | s in spools && s.id in requested + fetched
        ensures SpoolRefreshedFrom(s, Latest(Resolvable(apiSpools[..i + 1], filaments), SpoolDtoKey, s.id), filaments, lengthRemaining)
      {
        LatestResolvableStep(apiSpools, filaments, i, s.id);
        if s.id !in fetched {
          assert old@Row(SpoolRefreshedFrom(s, Latest(gatedBefore, SpoolDtoKey, s.id), filaments, lengthRemaining));
        }
      }
    }

    /**
      The body of that loop for one snapshot row: when its filament id
      resolves, fetch the spool's remaining length and update the spool with
      that id in place or append a new one. Returns the id whose remaining
      length was requested, or nothing when the row was skipped.
     */
    method ApplySpoolRow(apiSpool: SpoolDto, lengthRemaining: SpoolId -> int)
      returns (requested: seq<SpoolId>, ghost added: seq<Spool>)
      requires Unique(SpoolIds(spools))
      modifies this`spools, SpoolsWithIds(spools, ResolvedId(apiSpool, filaments))
      ensures requested == ResolvedId(apiSpool, filaments)
      ensures Unique(SpoolIds(spools))
      ensures spools == old(spools) + added
      ensures forall s :: s in added ==> fresh(s)
      ensures SpoolIds(spools) == Merge(SpoolIds(old(spools)), requested)
      ensures forall s :: s in spools && s.id in requested ==>
                SpoolRefreshedFrom(s, apiSpool, filaments, lengthRemaining)
      ensures forall s :: s in spools && s.id !in requested ==> s in old(spools)
    {
      var linked := First(filaments, FilamentKey, apiSpool.filamentId);
      requested := [];
      added := [];
      if linked.Some? {
        var fetched := lengthRemaining(apiSpool.id);
        requested := [apiSpool.id];
        ghost var ids := SpoolIds(spools);
        assert Merge(ids, requested) == Merge(if apiSpool.id in ids then ids else ids + [apiSpool.id], []);
        added := UpsertSpool(apiSpool, filaments[linked.value], fetched);
      } else {
        assert Merge(SpoolIds(spools), requested) == SpoolIds(spools);
        assert spools == old(spools) + added;
      }
    }

    /**
      The resolved branch of that loop body: update the spool with the row's
      id in place, or append a new one when there is none. No other spool is
      written to.
     */
    method UpsertSpool(apiSpool: SpoolDto, filament: Filament, lengthRemaining: int)
      returns (ghost added: seq<Spool>)
      requires filament.id == apiSpool.filamentId
      requires Unique(SpoolIds(spools))
      modifies this`spools, SpoolsWithIds(spools, [apiSpool.id])
      ensures Unique(SpoolIds(spools))
      ensures spools == old(spools) + added
      ensures forall s :: s in added ==> fresh(s)
      ensures SpoolIds(spools) ==
                if apiSpool.id in SpoolIds(old(spools)) then SpoolIds(old(spools))
                else SpoolIds(old(spools)) + [apiSpool.id]
      ensures forall s :: s in spools && s.id == apiSpool.id ==>
                s.Reflects(apiSpool) && s.filament == filament && s.lengthRemaining == lengthRemaining
      ensures forall s :: s in spools && s.id != apiSpool.id ==> s in old(spools)
    {
      var existing := First(spools, SpoolKey, apiSpool.id);
      added := [];
      if existing.Some? {
        var spool := spools[existing.value];
        spool.UpdateFromRefresh(apiSpool, filament, lengthRemaining);
        forall s | s in spools && s.id == apiSpool.id ensures s == spool {
          UniqueKeyed(spools, SpoolKey, existing.value, s);
        }
      } else {
        InKeys(spools, SpoolKey, apiSpool.id);
        var spool := new Spool(apiSpool, filament, lengthRemaining);
        KeysAppend(spools, [spool], SpoolKey);
        spools := spools + [spool];
        added := [spool];
      }
    }

    /**
      `loadInitialData()`: append a new filament for every snapshot row, then
      a new spool for every spool row whose filament resolves against the
      filaments now held, fetching its remaining length first. Nothing is
      cleared or merged beforehand: the rows are appended to whatever the
      view model already holds. Returns the ids whose remaining length was
      requested, in order.
     */
    method LoadInitialData(apiFilaments: seq<FilamentDto>, apiSpools: seq<SpoolDto>, lengthRemaining: SpoolId -> int)
      returns (requested: seq<SpoolId>)
      modifies this
      ensures |old(filaments)| <= |filaments| && filaments[..|old(filaments)|] == old(filaments)
      ensures forall f :: f in filaments[|old(filaments)|..] ==> fresh(f)
      ensures FilamentsBuiltFrom(filaments[|old(filaments)|..], apiFilaments)
      ensures FilamentIds(filaments) == FilamentIds(old(filaments)) + SnapshotFilamentIds(apiFilaments)
      ensures requested == SnapshotSpoolIds(Resolvable(apiSpools, filaments))
      ensures |old(spools)| <= |spools| && spools[..|old(spools)|] == old(spools)
      ensures forall s :: s in spools[|old(spools)|..] ==> fresh(s)
      ensures SpoolsBuiltFrom(spools[|old(spools)|..], Resolvable(apiSpools, filaments), filaments, lengthRemaining)
      ensures SpoolIds(spools) == SpoolIds(old(spools)) + requested
      // loaded into an empty view model, distinct snapshot ids stay distinct
      ensures old(filaments) == [] && Unique(SnapshotFilamentIds(apiFilaments)) ==> Unique(FilamentIds(filaments))
      ensures old(spools) == [] && Unique(SnapshotSpoolIds(apiSpools)) ==> Unique(SpoolIds(spools))
      ensures initialDataLoaded
      ensures refreshingFilaments == old(refreshingFilaments) && refreshingSpools == old(refreshingSpools)
    {
      requested := LoadEntities(apiFilaments, apiSpools, lengthRemaining);
      initialDataLoaded := true;
    }

    /** The loading `loadInitialData()` does before it records that the data is loaded. */
    method LoadEntities(apiFilaments: seq<FilamentDto>, apiSpools: seq<SpoolDto>, lengthRemaining: SpoolId -> int)
      returns (requested: seq<SpoolId>)
      modifies this`filaments, this`spools
      ensures |old(filaments)| <= |filaments| && filaments[..|old(filaments)|] == old(filaments)
      ensures forall f :: f in filaments[|old(filaments)|..] ==> fresh(f)
      ensures FilamentsBuiltFrom(filaments[|old(filaments)|..], apiFilaments)
      ensures FilamentIds(filaments) == FilamentIds(old(filaments)) + SnapshotFilamentIds(apiFilaments)
      ensures requested == SnapshotSpoolIds(Resolvable(apiSpools, filaments))
      ensures |old(spools)| <= |spools| && spools[..|old(spools)|] == old(spools)
      ensures forall s :: s in spools[|old(spools)|..] ==> fresh(s)
      ensures SpoolsBuiltFrom(spools[|old(spools)|..], Resolvable(apiSpools, filaments), filaments, lengthRemaining)
      ensures SpoolIds(spools) == SpoolIds(old(spools)) + requested
      // loaded into an empty view model, distinct snapshot ids stay distinct
      ensures old(filaments) == [] && Unique(SnapshotFilamentIds(apiFilaments)) ==> Unique(FilamentIds(filaments))
      ensures old(spools) == [] && Unique(SnapshotSpoolIds(apiSpools)) ==> Unique(SpoolIds(spools))
    {
      AppendLoadedFilaments(apiFilaments);
      requested := AppendLoadedSpools(apiSpools, lengthRemaining);
      if old(spools) == [] && Unique(SnapshotSpoolIds(apiSpools)) {
        ResolvableUnique(apiSpools, filaments);
        assert SpoolIds(old(spools)) + requested == requested;
      }
    }

    /** The filament half of `loadInitialData()`: one new filament per row, in order. */
    method AppendLoadedFilaments(apiFilaments: seq<FilamentDto>)
      modifies this`filaments
      ensures |old(filaments)| <= |filaments| && filaments[..|old(filaments)|] == old(filaments)
      ensures forall f :: f in filaments[|old(filaments)|..] ==> fresh(f)
      ensures FilamentsBuiltFrom(filaments[|old(filaments)|..], apiFilaments)
      ensures FilamentIds(filaments) == FilamentIds(old(filaments)) + SnapshotFilamentIds(apiFilaments)
    {
      ghost var built: seq<Filament> := [];
      var i := 0;
      while i < |apiFilaments|
        invariant 0 <= i <= |apiFilaments|
        invariant filaments == old(filaments) + built
        invariant forall f :: f in built ==> fresh(f)
        invariant FilamentsBuiltFrom(built, apiFilaments[..i])
      {
        var added := new Filament(apiFilaments[i]);
        assert apiFilaments[..i + 1] == apiFilaments[..i] + [apiFilaments[i]];
        AppendAssoc(old(filaments), built, [added]);
        filaments := filaments + [added];
        built := built + [added];
        i := i + 1;
      }
      assert apiFilaments[..i] == apiFilaments;
      assert filaments[|old(filaments)|..] == built;
      FilamentsBuiltIds(built, apiFilaments);
      KeysAppend(old(filaments), built, FilamentKey);
    }

    /**
      The spool half of `loadInitialData()`: for each row whose filament
      resolves, fetch the remaining length and append a new spool; skip
      the others.
     */
    method AppendLoadedSpools(apiSpools: seq<SpoolDto>, lengthRemaining: SpoolId -> int)
      returns (requested: seq<SpoolId>)
      modifies this`spools
      ensures requested == SnapshotSpoolIds(Resolvable(apiSpools, filaments))
      ensures |old(spools)| <= |spools| && spools[..|old(spools)|] == old(spools)
      ensures forall s :: s in spools[|old(spools)|..] ==> fresh(s)
      ensures SpoolsBuiltFrom(spools[|old(spools)|..], Resolvable(apiSpools, filaments), filaments, lengthRemaining)
      ensures SpoolIds(spools) == SpoolIds(old(spools)) + requested
    {
      ghost var fs := filaments;
      ghost var gated: seq<SpoolDto> := [];
      ghost var built: seq<Spool> := [];
      requested := [];
      var i := 0;
      while i < |apiSpools|
        invariant 0 <= i <= |apiSpools| && filaments == fs
        invariant gated == Resolvable(apiSpools[..i], fs)
        invariant requested == SnapshotSpoolIds(gated)
        invariant spools == old(spools) + built
        invariant forall s :: s in built ==> fresh(s)
        invariant SpoolsBuiltFrom(built, gated, fs, lengthRemaining)
      {
        ResolvablePrefix(apiSpools, fs, i);
        var fetched, added := LoadSpoolRow(apiSpools[i], lengthRemaining, gated, built);
        requested := requested + fetched;
        gated := gated + if fetched == [] then [] else [apiSpools[i]];
        AppendAssoc(old(spools), built, added);
        built := built + added;
        i := i + 1;
      }
      assert apiSpools[..i] == apiSpools;
      assert spools[|old(spools)|..] == built;
      SpoolsBuiltIds(built, gated, fs, lengthRemaining);
      KeysAppend(old(spools), built, SpoolKey);
    }

    /**
      The body of that loop for one spool row: when its filament resolves,
      fetch the remaining length and append a new spool; otherwise skip it.
     */
    method LoadSpoolRow(apiSpool: SpoolDto, lengthRemaining: SpoolId -> int,
                        ghost gated: seq<SpoolDto>, ghost built: seq<Spool>)
      returns (requested: seq<SpoolId>, ghost added: seq<Spool>)
      requires SpoolsBuiltFrom(built, gated, filaments, lengthRemaining)
      modifies this`spools
      ensures requested == if apiSpool.filamentId in FilamentIds(filaments) then [apiSpool.id] else []
      ensures spools == old(spools) + added
      ensures forall s :: s in added ==> fresh(s)
      ensures SpoolsBuiltFrom(built + added, gated + if requested == [] then [] else [apiSpool], filaments, lengthRemaining)
      ensures SnapshotSpoolIds(gated + if requested == [] then [] else [apiSpool]) == SnapshotSpoolIds(gated) + requested
    {
      var linked := First(filaments, FilamentKey, apiSpool.filamentId);
      requested := [];
      added := [];
      if linked.Some? {
        var fetched := lengthRemaining(apiSpool.id);
        var spool := new Spool(apiSpool, filaments[linked.value], fetched);
        KeysAppend(spools, [spool], SpoolKey);
        spools := spools + [spool];
        requested := [apiSpool.id];
        added := [spool];
      }
      ghost var row := if requested == [] then [] else [apiSpool];
      KeysAppend(gated, row, SpoolDtoKey);
      SpoolsBuiltConcat(built, gated, added, row, filaments, lengthRemaining);
    }
  }
}
