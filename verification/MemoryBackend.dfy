/** The in-memory backend as it runs: transactions over one shared state, updated in place. */
module MemoryBackend {
  import opened Options
  import opened Json
  import opened MemoryStore

  datatype Result<+T> = Ok(value: T) | Closed | VersionConflict

  class InMemoryState {
    var records: map<RecordKey, VersionedRecord>
    var versions: map<RecordKey, nat>

    constructor ()
      ensures Contents() == EMPTY_STORE
    {
      records, versions := map[], map[];
    }

    function Contents(): Store
      reads this
    {
      Store(records, versions)
    }

    method EraseAt(k: RecordKey)
      modifies this
      ensures Contents() == EraseRecord(old(Contents()), k)
    {
      records := records - {k};
      versions := versions[k := (if k in versions then versions[k] else 0) + 1];
    }

    method PutAt(r: VersionedRecord)
      modifies this
      ensures Contents() == PutRecord(old(Contents()), r)
    {
      var version := (if r.key in versions then versions[r.key] else 0) + 1;
      versions := versions[r.key := version];
      records := records[r.key := r.(version := version)];
    }
  }

  class InMemoryTransaction {
    const state: InMemoryState
    const rule: ReadRule
    var open: bool
    var seen: map<RecordKey, nat>
    var puts: map<RecordKey, VersionedRecord>
    var erases: set<RecordKey>

    constructor (state: InMemoryState, rule: ReadRule)
      ensures this.state == state && this.rule == rule && open && Staged() == FRESH_TX
    {
      this.state, this.rule := state, rule;
      open, seen, puts, erases := true, map[], map[], {};
    }

    function Staged(): Tx
      reads this
    {
      Tx(seen, puts, erases)
    }

    method Abort()
      modifies this
      ensures !open && Staged() == FRESH_TX
    {
      open, seen, puts, erases := false, map[], map[], {};
    }

    method RecordVersion(k: RecordKey, version: nat)
      modifies this`seen
      ensures Staged() == RecordReadBy(rule, old(Staged()), k, version)
    {
      if rule.TakeLast? || k !in seen {
        seen := seen[k := version];
      }
    }

    method GetRecord(k: RecordKey) returns (r: Result<Option<VersionedRecord>>)
      modifies this
      ensures open == old(open)
      ensures !open ==> r == Closed && Staged() == old(Staged())
      ensures open ==>
        var (after, found) := GetBy(rule, state.Contents(), old(Staged()), k);
        Staged() == after && r == Ok(found)
    {
      if !open { return Closed; }
      if k in erases { return Ok(None); }
      if k in puts { return Ok(Some(puts[k])); }
      if k !in state.records {
        RecordVersion(k, 0);
        return Ok(None);
      }
      RecordVersion(k, state.records[k].version);
      return Ok(Some(state.records[k]));
    }

    method PutRecord(k: RecordKey, document: Json) returns (r: Result<()>)
      modifies this
      ensures open == old(open)
      ensures !open ==> r == Closed && Staged() == old(Staged())
      ensures open ==> r == Ok(()) && Staged() == PutBy(rule, state.Contents(), old(Staged()), k, document)
    {
      if !open { return Closed; }
      var _ := GetRecord(k);
      puts := puts[k := VersionedRecord(k, 0, document)];
      erases := erases - {k};
      return Ok(());
    }

    method EraseRecord(k: RecordKey) returns (r: Result<()>)
      modifies this
      ensures open == old(open)
      ensures !open ==> r == Closed && Staged() == old(Staged())
      ensures open ==> r == Ok(()) && Staged() == EraseBy(rule, state.Contents(), old(Staged()), k)
    {
      if !open { return Closed; }
      var _ := GetRecord(k);
      puts := puts - {k};
      erases := erases + {k};
      return Ok(());
    }

    /** Publishes the staged writes, or changes nothing if a version read is no longer current. */
    method Commit() returns (r: Result<()>)
      requires StagedWell(Staged())
      modifies this, state
      ensures !old(open) ==> r == Closed && state.Contents() == old(state.Contents()) && Staged() == old(Staged())
      ensures old(open) && !MemoryStore.Current(old(state.Contents()), old(Staged())) ==>
        r == VersionConflict && open && state.Contents() == old(state.Contents()) && Staged() == old(Staged())
      ensures old(open) && MemoryStore.Current(old(state.Contents()), old(Staged())) ==>
        r == Ok(()) && !open && state.Contents() == Applied(old(state.Contents()), old(Staged()))
    {
      if !open { return Closed; }
      var unchecked := seen.Keys;
      while unchecked != {}
        invariant unchecked <= seen.Keys && open
        invariant state.Contents() == old(state.Contents()) && Staged() == old(Staged())
        invariant forall k :: k in seen.Keys - unchecked ==> VersionOf(state.Contents(), k) == seen[k]
        decreases unchecked
      {
        var k :| k in unchecked;
        var version := if k in state.versions then state.versions[k] else 0;
        if version != seen[k] { return VersionConflict; }
        unchecked := unchecked - {k};
      }
      Publish();
      Abort();
      return Ok(());
    }

    /** Applies the staged writes, erasures first. */
    method Publish()
      requires StagedWell(Staged())
      modifies state
      ensures state.Contents() == Applied(old(state.Contents()), Staged())
    {
      PublishErases();
      assert forall k :: k in puts ==> puts[k].key == k && k !in erases;
      hide Applied, StagedWell, MemoryStore.PutRecord;
      ghost var before := old(state.Contents());
      var waiting := puts.Keys;
      ghost var done: map<RecordKey, VersionedRecord> := map[];
      while waiting != {}
        invariant waiting <= puts.Keys && done.Keys == puts.Keys - waiting
        invariant forall k :: k in done ==> done[k] == puts[k]
        invariant state.Contents() == Applied(before, Tx(seen, done, erases))
        decreases waiting
      {
        var k :| k in waiting;
        AppliedPut(before, Tx(seen, done, erases), puts[k]);
        waiting, done := waiting - {k}, done[k := puts[k]];
        state.PutAt(puts[k]);
      }
      assert done == puts;
    }

    method PublishErases()
      modifies state
      ensures state.Contents() == Applied(old(state.Contents()), Tx(seen, map[], erases))
    {
      hide Applied, MemoryStore.EraseRecord;
      ghost var before := state.Contents();
      AppliedNothing(before, Tx(seen, map[], {}));
      var left := erases;
      ghost var done: set<RecordKey> := {};
      while left != {}
        invariant left <= erases && done == erases - left
        invariant state.Contents() == Applied(before, Tx(seen, map[], done))
        decreases left
      {
        var k :| k in left;
        AppliedErase(before, Tx(seen, map[], done), k);
        left, done := left - {k}, done + {k};
        state.EraseAt(k);
      }
      assert done == erases;
    }
  }
}
