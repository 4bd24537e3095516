/** Runs whose transactions keep the latest version read of a key, as the Java binding's do. */
module LatestReads {
  import opened Options
  import opened Json
  import opened MemoryStore
  import opened Interleavings

  /** The log writes or removes the key, after which it is read from what is staged. */
  predicate Touched(log: Log, k: RecordKey) {
    exists i :: 0 <= i < |log| && !log[i].op.Read? && log[i].op.key == k
  }

  /** The operation at `i` read the store: its key was not staged by then. */
  predicate ReadsStore(log: Log, i: nat)
    requires i < |log|
  {
    log[i].op.Read? && !Touched(log[..i], log[i].op.key)
  }

  /** Every read of the store returned the version that the last one of its key returned. */
  ghost predicate Steady(c: Client) {
    forall i :: 0 <= i < |c.log| && ReadsStore(c.log, i) ==>
      var k := c.log[i].op.key;
      k in c.tx.seen && VersionRead(c.log[i].result) == c.tx.seen[k]
  }

  // --------------------------------------------------------------------------------- invariants

  /** The store still has the version that a read returned. */
  predicate StillThere(s: Store, d: Done) {
    VersionOf(s, d.op.key) == VersionRead(d.result)
  }

  ghost predicate AllCurrent(s: Store, c: Client) {
    Current(s, c.tx) && forall i :: 0 <= i < |c.log| && ReadsStore(c.log, i) ==> StillThere(s, c.log[i])
  }

  /** The operation at `i` read the store at the key, and returned the version last read. */
  ghost predicate ShowsVersion(c: Client, i: nat, k: RecordKey) {
    && i < |c.log| && ReadsStore(c.log, i) && c.log[i].op.key == k
    && k in c.tx.seen && VersionRead(c.log[i].result) == c.tx.seen[k]
  }

  /** What is staged and what was read, by the log. */
  ghost predicate Accounted(c: Client) {
    && StagedWell(c.tx)
    && (forall k :: k in c.tx.puts || k in c.tx.erases <==> Touched(c.log, k))
    && (forall i :: 0 <= i < |c.log| && ReadsStore(c.log, i) ==> c.log[i].op.key in c.tx.seen)
    && (forall k :: k in c.tx.seen && !Touched(c.log, k) ==> exists i :: 0 <= i < |c.log| && ShowsVersion(c, i, k))
  }

  /** No version read is ahead of the store, and one that is current is that of the record there. */
  ghost predicate VersionsKnown(s: Store, c: Client) {
    && (forall k :: k in c.tx.seen ==>
          c.tx.seen[k] <= VersionOf(s, k) &&
          (c.tx.seen[k] == VersionOf(s, k) ==> VersionRead(Lookup(s, k)) == c.tx.seen[k]))
    && (forall i :: 0 <= i < |c.log| && ReadsStore(c.log, i) ==>
          VersionRead(c.log[i].result) <= VersionOf(s, c.log[i].op.key))
  }

  ghost predicate Replays(s: Store, c: Client) {
    AllCurrent(s, c) ==> Repeats(s, c.log) && RunAlone(s, c.log) == c.tx
  }

  ghost predicate ReaderSound(s: Store, c: Client) { Accounted(c) && VersionsKnown(s, c) && Replays(s, c) }

  ghost predicate ReadersSound(a: System) {
    StoredWell(a.store) && forall t :: t in a.clients ==> ReaderSound(a.store, a.clients[t])
  }

  // ----------------------------------------------------------------------------------- one step

  lemma TouchedMore(log: Log, d: Done)
    ensures forall k :: Touched(log + [d], k) <==> Touched(log, k) || (!d.op.Read? && d.op.key == k)
    ensures forall i :: 0 <= i < |log| ==> (ReadsStore(log + [d], i) <==> ReadsStore(log, i))
    ensures ReadsStore(log + [d], |log|) <==> d.op.Read? && !Touched(log, d.op.key)
  {
    var more := log + [d];
    forall k ensures Touched(more, k) <==> Touched(log, k) || (!d.op.Read? && d.op.key == k) {
      if Touched(log, k) {
        var i :| 0 <= i < |log| && !log[i].op.Read? && log[i].op.key == k;
        assert more[i] == log[i];
      }
      if !d.op.Read? && d.op.key == k { assert more[|log|] == d; }
    }
    assert forall i :: 0 <= i <= |log| ==> more[..i] == log[..i];
    assert log[..|log|] == log;
  }

  /** The client after an operation under the rule of taking the latest version. */
  function After(s: Store, c: Client, op: Op): Client {
    var (tx, result) := PerformBy(TakeLast, s, c.tx, op);
    Client(tx, c.log + [Done(op, result)])
  }

  lemma AfterIs(s: Store, c: Client, op: Op)
    requires Accounted(c)
    ensures var (k, next) := (op.key, After(s, c, op));
      && next.log == c.log + [Done(op, next.log[|c.log|].result)]
      && next.tx.seen == (if Touched(c.log, k) then c.tx.seen else c.tx.seen[k := VersionRead(Lookup(s, k))])
      && (op.Read? && !Touched(c.log, k) ==> next.log[|c.log|].result == Lookup(s, k))
      && (forall x :: x in next.tx.puts || x in next.tx.erases <==>
            x in c.tx.puts || x in c.tx.erases || (!op.Read? && x == k))
      && StagedWell(next.tx)
  {
    OperationsStageWell(TakeLast, s, c.tx, op.key, if op.Write? then op.document else Null);
    hide StagedWell, Touched, ReadsStore;
    assert Touched(c.log, op.key) <==> op.key in c.tx.puts || op.key in c.tx.erases;
  }

  lemma AfterAccounted(s: Store, c: Client, op: Op)
    requires Accounted(c)
    ensures Accounted(After(s, c, op))
  {
    var next := After(s, c, op);
    AfterIs(s, c, op);
    TouchedMore(c.log, next.log[|c.log|]);
    hide StagedWell, Touched, ReadsStore, After;
    forall k | k in next.tx.seen && !Touched(next.log, k)
      ensures exists i :: 0 <= i < |next.log| && ShowsVersion(next, i, k)
    {
      if k == op.key {
        assert ShowsVersion(next, |c.log|, k);
      } else {
        var i :| 0 <= i < |c.log| && ShowsVersion(c, i, k);
        assert ShowsVersion(next, i, k);
      }
    }
    forall i | 0 <= i < |next.log| && ReadsStore(next.log, i) ensures next.log[i].op.key in next.tx.seen {
      if i < |c.log| { assert ReadsStore(c.log, i); }
    }
  }

  lemma AfterKnown(s: Store, c: Client, op: Op)
    requires StoredWell(s) && Accounted(c) && VersionsKnown(s, c)
    ensures VersionsKnown(s, After(s, c, op))
  {
    var next := After(s, c, op);
    AfterIs(s, c, op);
    TouchedMore(c.log, next.log[|c.log|]);
    assert VersionRead(Lookup(s, op.key)) <= VersionOf(s, op.key);
    hide Touched, ReadsStore, After, Accounted, StoredWell, Lookup, VersionOf, VersionRead;
    forall i | 0 <= i < |next.log| && ReadsStore(next.log, i)
      ensures VersionRead(next.log[i].result) <= VersionOf(s, next.log[i].op.key)
    {
      if i < |c.log| { assert ReadsStore(c.log, i) && next.log[i] == c.log[i]; }
    }
  }

  /** If all that was read is current after an operation, it was so before. */
  lemma CurrentBefore(s: Store, c: Client, op: Op)
    requires Accounted(c) && AllCurrent(s, After(s, c, op))
    ensures AllCurrent(s, c)
  {
    var next := After(s, c, op);
    AfterIs(s, c, op);
    TouchedMore(c.log, next.log[|c.log|]);
    hide Touched, ReadsStore, StagedWell, After, VersionRead, VersionOf, Lookup;
    forall i | 0 <= i < |c.log| && ReadsStore(c.log, i) ensures StillThere(s, c.log[i]) {
      assert ReadsStore(next.log, i) && next.log[i] == c.log[i];
    }
    forall k | k in c.tx.seen ensures VersionOf(s, k) == c.tx.seen[k] {
      if !Touched(c.log, k) {
        var i :| 0 <= i < |c.log| && ShowsVersion(c, i, k);
        assert StillThere(s, c.log[i]);
      } else {
        assert next.tx.seen[k] == c.tx.seen[k];
      }
    }
  }

  /** On versions that are all the store's, the two rules do the same. */
  lemma RulesAgree(s: Store, tx: Tx, op: Op)
    requires forall k :: k in tx.seen ==> tx.seen[k] == VersionRead(Lookup(s, k))
    ensures PerformBy(TakeLast, s, tx, op) == Perform(s, tx, op)
  {
    assert forall k :: k in tx.seen ==> tx.seen[k := tx.seen[k]] == tx.seen;
  }

  lemma AfterSound(s: Store, c: Client, op: Op)
    requires StoredWell(s) && ReaderSound(s, c)
    ensures ReaderSound(s, After(s, c, op))
  {
    var next := After(s, c, op);
    AfterAccounted(s, c, op);
    AfterKnown(s, c, op);
    if AllCurrent(s, next) {
      CurrentBefore(s, c, op);
      assert next.log[..|next.log| - 1] == c.log;
      RulesAgree(s, c.tx, op);
    }
  }

  /** Someone else's commit leaves the client's invariant, and what it read of keys not written. */
  lemma CommitKeepsReader(s: Store, tx: Tx, c: Client)
    requires StoredWell(s) && StagedWell(tx) && ReaderSound(s, c)
    ensures ReaderSound(Applied(s, tx), c)
  {
    var z := Applied(s, tx);
    hide ReadsStore, Touched, Accounted, Repeats, RunAlone;
    assert forall k :: VersionOf(z, k) == VersionOf(s, k) + if k in tx.puts || k in tx.erases then 1 else 0;
    assert forall k :: k !in tx.puts && k !in tx.erases ==> Lookup(z, k) == Lookup(s, k);
    hide Applied;
    assert VersionsKnown(z, c);
    if AllCurrent(z, c) {
      forall i | 0 <= i < |c.log| && ReadsStore(c.log, i) ensures StillThere(s, c.log[i]) {
        assert StillThere(z, c.log[i]);
      }
      assert AllCurrent(s, c);
      forall k | k in c.tx.seen ensures Lookup(s, k) == Lookup(z, k) {
        assert c.tx.seen[k] == VersionOf(z, k) && c.tx.seen[k] <= VersionOf(s, k);
      }
      RunAloneAgrees(s, z, c.log);
    }
  }

  // ------------------------------------------------------------------------------- the condition

  lemma {:induction false} StagedIffTouched(s: Store, log: Log)
    requires StoredWell(s)
    ensures forall k :: k in RunAlone(s, log).puts || k in RunAlone(s, log).erases <==> Touched(log, k)
  {
    if log != [] {
      var before := log[..|log| - 1];
      StagedIffTouched(s, before);
      RunAloneStaged(s, before);
      assert log == before + [log[|log| - 1]];
      TouchedMore(before, log[|log| - 1]);
      hide Touched;
    }
  }

  /** Run alone, a read of the store returns what the store has. */
  lemma {:induction false} RepeatsLookup(s: Store, log: Log, i: nat)
    requires StoredWell(s) && Repeats(s, log) && i < |log| && ReadsStore(log, i)
    ensures log[i].result == Lookup(s, log[i].op.key)
    decreases |log|
  {
    var before := log[..|log| - 1];
    if i < |before| {
      assert before[..i] == log[..i];
      RepeatsLookup(s, before, i);
    } else {
      StagedIffTouched(s, before);
    }
  }

  /**
   A transaction that keeps the latest versions and may commit returns the same when run alone on
   the store it commits to exactly if it is steady; and then it has the same effect there.
   */
  lemma CommitRepeatsIff(s: Store, c: Client)
    requires StoredWell(s) && ReaderSound(s, c) && Current(s, c.tx)
    ensures Repeats(s, c.log) <==> Steady(c)
    ensures Steady(c) ==> RunAlone(s, c.log) == c.tx
  {
    hide ReadsStore, Touched, Repeats, RunAlone;
    if Steady(c) {
      assert AllCurrent(s, c);
    }
    if Repeats(s, c.log) {
      forall i | 0 <= i < |c.log| && ReadsStore(c.log, i)
        ensures c.log[i].op.key in c.tx.seen && VersionRead(c.log[i].result) == c.tx.seen[c.log[i].op.key]
      {
        RepeatsLookup(s, c.log, i);
      }
    }
  }

  // ---------------------------------------------------------------------------------- whole runs

  lemma StepReaders(a: System, b: System)
    requires ReadersSound(a) && Step(TakeLast, a, b)
    ensures ReadersSound(b)
  {
    assert ReaderSound(a.store, Client(FRESH_TX, []));
    hide ReaderSound, PerformBy;
    var t :| StepOf(TakeLast, a, b, t);
    if exists op :: Performs(TakeLast, a, b, t, op) {
      var op :| Performs(TakeLast, a, b, t, op);
      AfterSound(a.store, a.clients[t], op);
    } else if Commits(a, b, t) {
      var tx := a.clients[t].tx;
      assert StagedWell(tx) by { assert ReaderSound(a.store, a.clients[t]); }
      AppliedStoredWell(a.store, tx);
      forall u | u in b.clients ensures ReaderSound(b.store, b.clients[u]) {
        CommitKeepsReader(a.store, tx, a.clients[u]);
      }
    }
  }

  ghost predicate SteadyStep(a: System, b: System) {
    forall t :: Commits(a, b, t) ==> Steady(a.clients[t])
  }

  /** Every transaction that commits in the run is steady when it does. */
  ghost predicate SteadyCommits(states: seq<System>) {
    forall i :: 0 <= i < |states| - 1 ==> SteadyStep(states[i], states[i + 1])
  }

  /** What a step adds to the history is serial exactly if the history was and the commit is steady. */
  lemma StepSerial(a: System, b: System)
    requires ReadersSound(a) && Step(TakeLast, a, b)
    requires Serial(a.committed) ==> SerialStore(a.committed) == a.store
    ensures Serial(b.committed) <==> Serial(a.committed) && SteadyStep(a, b)
    ensures Serial(b.committed) ==> SerialStore(b.committed) == b.store
  {
    hide ReaderSound, PerformBy, Steady, Repeats, RunAlone;
    var t :| StepOf(TakeLast, a, b, t);
    if Commits(a, b, t) {
      CommitRepeatsIff(a.store, a.clients[t]);
      assert b.committed[..|b.committed| - 1] == a.committed;
      forall u | Commits(a, b, u) ensures u == t {
        assert t !in b.clients && u !in b.clients;
      }
    } else {
      assert b.committed == a.committed && b.store == a.store;
      forall u ensures !Commits(a, b, u) {
        assert |b.committed| == |a.committed|;
      }
    }
  }

  lemma {:induction false} ReadersRun(states: seq<System>)
    requires IsRun(TakeLast, states)
    ensures ReadersSound(states[|states| - 1])
    ensures var last := states[|states| - 1];
      (Serial(last.committed) <==> SteadyCommits(states)) &&
      (Serial(last.committed) ==> SerialStore(last.committed) == last.store)
  {
    hide ReaderSound, SteadyStep, Step;
    if |states| == 1 {
      assert ReadersSound(INITIAL);
    } else {
      var n := |states| - 1;
      var before := states[..n];
      forall i | 0 <= i < |before| - 1 ensures Step(TakeLast, before[i], before[i + 1]) {
        assert Step(TakeLast, states[i], states[i + 1]);
      }
      ReadersRun(before);
      assert Step(TakeLast, states[n - 1], states[n - 1 + 1]);
      StepReaders(states[n - 1], states[n]);
      StepSerial(states[n - 1], states[n]);
      SteadyCommitsSplit(states);
    }
  }

  lemma SteadyCommitsSplit(states: seq<System>)
    requires |states| > 1
    ensures var n := |states| - 1;
      SteadyCommits(states) <==> SteadyCommits(states[..n]) && SteadyStep(states[n - 1], states[n])
  {
    hide SteadyStep;
    var n := |states| - 1;
    var before := states[..n];
    assert forall i :: 0 <= i < n ==> before[i] == states[i];
    if SteadyCommits(states) {
      assert SteadyStep(states[n - 1], states[n - 1 + 1]);
      forall i | 0 <= i < n - 1 ensures SteadyStep(before[i], before[i + 1]) {
        assert SteadyStep(states[i], states[i + 1]);
      }
    }
    if SteadyCommits(before) && SteadyStep(states[n - 1], states[n]) {
      forall i | 0 <= i < n ensures SteadyStep(states[i], states[i + 1]) {
        if i < n - 1 { assert SteadyStep(before[i], before[i + 1]); }
      }
    }
  }

  /**
   Under the rule of taking the latest version, a run is equivalent to running its committed
   transactions one after another in commit order exactly if each of them was steady.
   */
  lemma SerializableIffSteady(states: seq<System>)
    requires IsRun(TakeLast, states)
    ensures var last := states[|states| - 1];
      Serial(last.committed) && SerialStore(last.committed) == last.store <==> SteadyCommits(states)
  {
    ReadersRun(states);
  }

  // ----------------------------------------------------------------------------- an unsteady run

  /** A transaction reads a key before and after another one writes it, and commits. */
  function UnsteadyRun(k: RecordKey, document: Json): seq<System> {
    var made := VersionedRecord(k, 1, document);
    var store := Store(map[k := made], map[k := 1]);
    var writer := Client(Tx(map[k := 0], map[k := made.(version := 0)], {}), [Done(Write(k, document), None)]);
    var first := Client(Tx(map[k := 0], map[], {}), [Done(Read(k), None)]);
    var second := Client(Tx(map[k := 1], map[], {}), [Done(Read(k), None), Done(Read(k), Some(made))]);
    var none := Client(FRESH_TX, []);
    [INITIAL,
     System(EMPTY_STORE, map[0 := none], []),
     System(EMPTY_STORE, map[0 := none, 1 := none], []),
     System(EMPTY_STORE, map[0 := first, 1 := none], []),
     System(EMPTY_STORE, map[0 := first, 1 := writer], []),
     System(store, map[0 := first], [writer.log]),
     System(store, map[0 := second], [writer.log]),
     System(store, map[], [writer.log, second.log])]
  }

  /** It is a run under that rule, and what was committed repeats on no store, in no order. */
  lemma UnsteadyRunCommits(k: RecordKey, document: Json)
    ensures IsRun(TakeLast, UnsteadyRun(k, document))
    ensures var last := UnsteadyRun(k, document)[7];
      |last.committed| == 2 && !Serial(last.committed) && forall s :: !Repeats(s, last.committed[1])
  {
    var r := UnsteadyRun(k, document);
    forall i | 0 <= i < |r| - 1 ensures Step(TakeLast, r[i], r[i + 1]) {
      if i < 2 {
        assert Begins(r[i], r[i + 1], i) && StepOf(TakeLast, r[i], r[i + 1], i);
      } else if i < 4 {
        FirstOperations(k, document);
      } else {
        WriterCommits(k, document);
        ReaderCommits(k, document);
      }
    }
    forall s ensures !Repeats(s, r[7].committed[1]) {
    }
  }

  lemma Operates(a: System, b: System, t: nat, op: Op, tx: Tx, result: Option<VersionedRecord>)
    requires t in a.clients && PerformBy(TakeLast, a.store, a.clients[t].tx, op) == (tx, result)
    requires b == System(a.store, a.clients[t := Client(tx, a.clients[t].log + [Done(op, result)])], a.committed)
    ensures Step(TakeLast, a, b)
  {
    assert Performs(TakeLast, a, b, t, op) && StepOf(TakeLast, a, b, t);
  }

  lemma FirstOperations(k: RecordKey, document: Json)
    ensures var r := UnsteadyRun(k, document); Step(TakeLast, r[2], r[3]) && Step(TakeLast, r[3], r[4])
  {
    var r := UnsteadyRun(k, document);
    var made := VersionedRecord(k, 0, document);
    var none: Log := [];
    assert none + [Done(Read(k), None)] == [Done(Read(k), None)];
    assert r[3].clients == r[2].clients[0 := Client(Tx(map[k := 0], map[], {}), [Done(Read(k), None)])];
    Operates(r[2], r[3], 0, Read(k), Tx(map[k := 0], map[], {}), None);
    assert none + [Done(Write(k, document), None)] == [Done(Write(k, document), None)];
    assert r[4].clients ==
      r[3].clients[1 := Client(Tx(map[k := 0], map[k := made], {}), [Done(Write(k, document), None)])];
    var nothing: map<RecordKey, VersionedRecord>, nobody: set<RecordKey> := map[], {};
    assert nobody - {k} == nobody && nothing[k := made] == map[k := made];
    assert PutBy(TakeLast, EMPTY_STORE, FRESH_TX, k, document) == Tx(map[k := 0], map[k := made], {});
    Operates(r[3], r[4], 1, Write(k, document), Tx(map[k := 0], map[k := made], {}), None);
  }

  lemma WriterCommits(k: RecordKey, document: Json)
    ensures var r := UnsteadyRun(k, document); Step(TakeLast, r[4], r[5])
  {
    var r := UnsteadyRun(k, document);
    assert Applied(r[4].store, r[4].clients[1].tx) == r[5].store && r[4].clients - {1} == r[5].clients;
    assert Commits(r[4], r[5], 1) && StepOf(TakeLast, r[4], r[5], 1);
  }

  lemma ReaderCommits(k: RecordKey, document: Json)
    ensures var r := UnsteadyRun(k, document); Step(TakeLast, r[5], r[6]) && Step(TakeLast, r[6], r[7])
  {
    hide Commits;
    var r := UnsteadyRun(k, document);
    var (first, again) := (Done(Read(k), None), Done(Read(k), Some(VersionedRecord(k, 1, document))));
    assert [first] + [again] == [first, again] && map[k := 0][k := 1] == map[k := 1];
    assert r[6].clients == r[5].clients[0 := Client(Tx(map[k := 1], map[], {}), [first, again])];
    Operates(r[5], r[6], 0, Read(k), Tx(map[k := 1], map[], {}), Some(VersionedRecord(k, 1, document)));
    assert Commits(r[6], r[7], 0) by { ReaderMayCommit(k, document); }
    assert StepOf(TakeLast, r[6], r[7], 0);
  }

  lemma ReaderMayCommit(k: RecordKey, document: Json)
    ensures var r := UnsteadyRun(k, document); Commits(r[6], r[7], 0)
  {
    var r := UnsteadyRun(k, document);
    AppliedNothing(r[6].store, r[6].clients[0].tx);
  }
}
