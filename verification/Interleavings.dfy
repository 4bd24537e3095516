/** Any number of transactions interleaved, one operation at a time, over one in-memory store. */
module Interleavings {
  import opened Options
  import opened Json
  import opened MemoryStore

  datatype Op = Read(key: RecordKey) | Write(key: RecordKey, document: Json) | Remove(key: RecordKey)

  /** An operation together with what it returned. */
  datatype Done = Done(op: Op, result: Option<VersionedRecord>)

  function PerformBy(rule: ReadRule, s: Store, tx: Tx, op: Op): (Tx, Option<VersionedRecord>) {
    match op
    case Read(k) => GetBy(rule, s, tx, k)
    case Write(k, document) => (PutBy(rule, s, tx, k, document), None)
    case Remove(k) => (EraseBy(rule, s, tx, k), None)
  }

  function Perform(s: Store, tx: Tx, op: Op): (Tx, Option<VersionedRecord>) { PerformBy(KeepFirst, s, tx, op) }

  type Log = seq<Done>

  /** The operations of a log run alone, on one store, in a new transaction. */
  function RunAlone(s: Store, log: Log): Tx {
    if log == [] then FRESH_TX else Perform(s, RunAlone(s, log[..|log| - 1]), log[|log| - 1].op).0
  }

  /** Run alone, every operation returns what the log says it returned. */
  predicate Repeats(s: Store, log: Log) {
    log == [] ||
    (var before := log[..|log| - 1];
     Repeats(s, before) && Perform(s, RunAlone(s, before), log[|log| - 1].op).1 == log[|log| - 1].result)
  }

  // --------------------------------------------------------------------------- the whole system

  datatype Client = Client(tx: Tx, log: Log)
  datatype System = System(store: Store, clients: map<nat, Client>, committed: seq<Log>)

  const INITIAL := System(EMPTY_STORE, map[], [])

  ghost predicate Begins(a: System, b: System, t: nat) {
    t !in a.clients && b == a.(clients := a.clients[t := Client(FRESH_TX, [])])
  }

  ghost predicate Performs(rule: ReadRule, a: System, b: System, t: nat, op: Op) {
    && t in a.clients
    && var c := a.clients[t];
       var (tx, result) := PerformBy(rule, a.store, c.tx, op);
       b == a.(clients := a.clients[t := Client(tx, c.log + [Done(op, result)])])
  }

  ghost predicate Commits(a: System, b: System, t: nat) {
    && t in a.clients && Current(a.store, a.clients[t].tx)
    && b == System(Applied(a.store, a.clients[t].tx), a.clients - {t}, a.committed + [a.clients[t].log])
  }

  /** A transaction given up, by its client or after a failed commit. */
  ghost predicate Aborts(a: System, b: System, t: nat) {
    t in a.clients && b == a.(clients := a.clients - {t})
  }

  ghost predicate StepOf(rule: ReadRule, a: System, b: System, t: nat) {
    Begins(a, b, t) || (exists op :: Performs(rule, a, b, t, op)) || Commits(a, b, t) || Aborts(a, b, t)
  }

  ghost predicate Step(rule: ReadRule, a: System, b: System) {
    exists t :: StepOf(rule, a, b, t)
  }

  ghost predicate IsRun(rule: ReadRule, states: seq<System>) {
    && |states| > 0 && states[0] == INITIAL
    && forall i :: 0 <= i < |states| - 1 ==> Step(rule, states[i], states[i + 1])
  }

  // -------------------------------------------------------------------------- serial executions

  /** The store after the logs were run alone one after another. */
  function SerialStore(history: seq<Log>): Store {
    if history == [] then EMPTY_STORE
    else
      var before := SerialStore(history[..|history| - 1]);
      Applied(before, RunAlone(before, history[|history| - 1]))
  }

  /** Each log, run alone after those before it, returns what it says and commits. */
  ghost predicate Serial(history: seq<Log>) {
    history == [] ||
    (var before, last := history[..|history| - 1], history[|history| - 1];
     && Serial(before)
     && Repeats(SerialStore(before), last)
     && Current(SerialStore(before), RunAlone(SerialStore(before), last)))
  }

  lemma {:induction false} SerialStoredWell(history: seq<Log>)
    ensures StoredWell(SerialStore(history))
  {
    if history != [] {
      var before := history[..|history| - 1];
      SerialStoredWell(before);
      RunAloneStaged(SerialStore(before), history[|history| - 1]);
      AppliedStoredWell(SerialStore(before), RunAlone(SerialStore(before), history[|history| - 1]));
    }
  }

  // --------------------------------------------------------------------------------- invariants

  /** No version read is ahead of the store. */
  ghost predicate KnownVersions(s: Store, tx: Tx) {
    forall k :: k in tx.seen ==> tx.seen[k] <= VersionOf(s, k)
  }

  /** As long as what a client read is current, running its operations alone now gives the same. */
  ghost predicate ClientSound(s: Store, c: Client) {
    && StagedWell(c.tx) && KnownVersions(s, c.tx)
    && (Current(s, c.tx) ==> Repeats(s, c.log) && RunAlone(s, c.log) == c.tx)
  }

  ghost predicate Sound(a: System) {
    && StoredWell(a.store)
    && (forall t :: t in a.clients ==> ClientSound(a.store, a.clients[t]))
    && Serial(a.committed) && SerialStore(a.committed) == a.store
  }

  lemma PerformSteps(s: Store, tx: Tx, op: Op)
    requires StoredWell(s) && StagedWell(tx) && KnownVersions(s, tx)
    ensures var after := Perform(s, tx, op).0;
      StagedWell(after) && KnownVersions(s, after) && (Current(s, after) ==> Current(s, tx))
  {
    var document := if op.Write? then op.document else Null;
    assert StagedWell(Perform(s, tx, op).0) by { OperationsStageWell(KeepFirst, s, tx, op.key, document); }
    hide StagedWell;
    GetSteps(s, tx, op.key);
    assert Perform(s, tx, op).0.seen == Get(s, tx, op.key).0.seen;
  }

  lemma GetSteps(s: Store, tx: Tx, k: RecordKey)
    requires StoredWell(s) && KnownVersions(s, tx)
    ensures var after := Get(s, tx, k).0; KnownVersions(s, after) && (Current(s, after) ==> Current(s, tx))
  {
  }

  lemma PerformSound(s: Store, c: Client, op: Op)
    requires StoredWell(s) && ClientSound(s, c)
    ensures var (tx, result) := Perform(s, c.tx, op); ClientSound(s, Client(tx, c.log + [Done(op, result)]))
  {
    hide Perform;
    var (tx, result) := Perform(s, c.tx, op);
    PerformSteps(s, c.tx, op);
    var log := c.log + [Done(op, result)];
    assert log[..|log| - 1] == c.log;
  }

  /** An operation depends on the store only through the keys that the transaction has read. */
  lemma PerformAgrees(s: Store, z: Store, tx: Tx, op: Op)
    requires forall k :: k in Perform(s, tx, op).0.seen ==> Lookup(s, k) == Lookup(z, k)
    requires StagedWell(tx)
    ensures Perform(s, tx, op) == Perform(z, tx, op)
    ensures tx.seen.Keys <= Perform(s, tx, op).0.seen.Keys
  {
    assert Lookup(s, op.key) == Lookup(z, op.key) || op.key in tx.erases || op.key in tx.puts;
  }

  lemma {:induction false} RunAloneStaged(s: Store, log: Log)
    requires StoredWell(s)
    ensures StagedWell(RunAlone(s, log)) && KnownVersions(s, RunAlone(s, log))
  {
    if log != [] {
      RunAloneStaged(s, log[..|log| - 1]);
      PerformSteps(s, RunAlone(s, log[..|log| - 1]), log[|log| - 1].op);
    }
  }

  lemma {:induction false} RunAloneAgrees(s: Store, z: Store, log: Log)
    requires StoredWell(s) && forall k :: k in RunAlone(s, log).seen ==> Lookup(s, k) == Lookup(z, k)
    ensures RunAlone(s, log) == RunAlone(z, log) && (Repeats(s, log) <==> Repeats(z, log))
  {
    if log != [] {
      var before, last := log[..|log| - 1], log[|log| - 1];
      RunAloneStaged(s, before);
      PerformAgrees(s, z, RunAlone(s, before), last.op);
      RunAloneAgrees(s, z, before);
    }
  }

  /** The last write or removal of a key in a log. */
  function LastChange(log: Log, k: RecordKey): (r: Option<Op>)
    ensures r.Some? ==> !r.value.Read? && r.value.key == k
  {
    if log == [] then None
    else
      var last := log[|log| - 1].op;
      if !last.Read? && last.key == k then Some(last) else LastChange(log[..|log| - 1], k)
  }

  /**
   A transaction reads the document it last wrote, nothing if it last removed the record, and else
   what the store has; and that is what its commit leaves, with the next version.
   */
  lemma {:induction false} LastChangeCounts(s: Store, log: Log, k: RecordKey)
    ensures var (read, left) := (Perform(s, RunAlone(s, log), Read(k)).1, Lookup(Applied(s, RunAlone(s, log)), k));
      match LastChange(log, k)
      case None => read == left == Lookup(s, k)
      case Some(Write(_, document)) =>
        && read == Some(VersionedRecord(k, 0, document))
        && left == Some(VersionedRecord(k, VersionOf(s, k) + 1, document))
      case Some(_) => read == left == None
  {
    hide Applied;
    StagedAre(s, log, k);
    AppliedAt(s, RunAlone(s, log), k);
  }

  lemma {:induction false} StagedAre(s: Store, log: Log, k: RecordKey)
    ensures var (tx, last) := (RunAlone(s, log), LastChange(log, k));
      && (k in tx.puts <==> last.Some? && last.value.Write?)
      && (k in tx.puts ==> tx.puts[k] == VersionedRecord(k, 0, last.value.document))
      && (k in tx.erases <==> last.Some? && last.value.Remove?)
  {
    if log != [] { StagedAre(s, log[..|log| - 1], k); }
  }

  lemma AppliedAt(s: Store, tx: Tx, k: RecordKey)
    ensures Lookup(Applied(s, tx), k) ==
      if k in tx.puts then Some(tx.puts[k].(version := VersionOf(s, k) + 1))
      else if k in tx.erases then None
      else Lookup(s, k)
  {
  }

  /** A commit leaves alone every client whose reads it did not make stale. */
  lemma CommitKeepsSound(s: Store, tx: Tx, c: Client)
    requires StoredWell(s) && StagedWell(tx) && ClientSound(s, c)
    ensures ClientSound(Applied(s, tx), c)
  {
    var z := Applied(s, tx);
    assert forall k :: VersionOf(z, k) == VersionOf(s, k) + if k in tx.puts || k in tx.erases then 1 else 0;
    if Current(z, c.tx) {
      assert Current(s, c.tx);
      forall k | k in c.tx.seen ensures Lookup(s, k) == Lookup(z, k) {
        assert c.tx.seen[k] == VersionOf(z, k) && c.tx.seen[k] <= VersionOf(s, k);
      }
      RunAloneAgrees(s, z, c.log);
    }
  }

  lemma CommitSound(a: System, b: System, t: nat)
    requires Sound(a) && Commits(a, b, t)
    ensures Sound(b)
  {
    var c := a.clients[t];
    AppliedStoredWell(a.store, c.tx);
    forall u | u in b.clients ensures ClientSound(b.store, b.clients[u]) {
      CommitKeepsSound(a.store, c.tx, a.clients[u]);
    }
    assert b.committed[..|b.committed| - 1] == a.committed;
  }

  lemma StepSound(a: System, b: System)
    requires Sound(a) && Step(KeepFirst, a, b)
    ensures Sound(b)
  {
    hide ClientSound, PerformBy;
    var t :| StepOf(KeepFirst, a, b, t);
    if Begins(a, b, t) {
      FreshSound(a.store);
    } else if exists op :: Performs(KeepFirst, a, b, t, op) {
      var op :| Performs(KeepFirst, a, b, t, op);
      PerformSound(a.store, a.clients[t], op);
    } else if Commits(a, b, t) {
      CommitSound(a, b, t);
    }
  }

  lemma FreshSound(s: Store)
    ensures ClientSound(s, Client(FRESH_TX, []))
  {
  }

  lemma {:induction false} RunSound(states: seq<System>)
    requires IsRun(KeepFirst, states)
    ensures Sound(states[|states| - 1])
  {
    if |states| == 1 {
      assert Sound(INITIAL);
    } else {
      var before := states[..|states| - 1];
      forall i | 0 <= i < |before| - 1 ensures Step(KeepFirst, before[i], before[i + 1]) {
        assert Step(KeepFirst, states[i], states[i + 1]);
      }
      RunSound(before);
      var i := |states| - 2;
      assert Step(KeepFirst, states[i], states[i + 1]);
      StepSound(states[i], states[i + 1]);
    }
  }

  // -------------------------------------------------------------------------------- the results

  /**
   Every run is equivalent to a serial one: run alone, one after another in the order in which
   they committed, the committed transactions return what they returned, all commit, and leave
   the same store.
   */
  lemma Serializable(states: seq<System>)
    requires IsRun(KeepFirst, states)
    ensures var last := states[|states| - 1]; Serial(last.committed) && SerialStore(last.committed) == last.store
  {
    RunSound(states);
  }

  /** A key that was written before but has no record now. */
  predicate Erased(s: Store, k: RecordKey) {
    k !in s.records && VersionOf(s, k) > 0
  }

  lemma {:induction false} SeenAlone(s: Store, log: Log, k: RecordKey)
    requires k in RunAlone(s, log).seen
    ensures RunAlone(s, log).seen[k] == if k in s.records then s.records[k].version else 0
  {
    var before := log[..|log| - 1];
    if k in RunAlone(s, before).seen { SeenAlone(s, before, k); }
  }

  /** Run alone, a transaction commits exactly if it touches no erased key. */
  lemma {:induction false} CommitsAloneIff(s: Store, log: Log)
    requires StoredWell(s)
    ensures Current(s, RunAlone(s, log)) <==> forall k :: k in RunAlone(s, log).seen ==> !Erased(s, k)
  {
    forall k | k in RunAlone(s, log).seen
      ensures VersionOf(s, k) == RunAlone(s, log).seen[k] <==> !Erased(s, k)
    {
      SeenAlone(s, log, k);
    }
  }

  lemma {:induction false} TouchedIsSeen(s: Store, log: Log, i: nat)
    requires StoredWell(s) && i < |log|
    ensures log[i].op.key in RunAlone(s, log).seen
    decreases |log|
  {
    var before := log[..|log| - 1];
    RunAloneStaged(s, before);
    if i < |before| { TouchedIsSeen(s, before, i); }
  }

  /**
   A transaction that commits has not read, written or removed an erased key; so in a run a key
   that was erased stays erased, and nothing more is done to it.
   */
  lemma ErasedForGood(a: System, b: System, k: RecordKey)
    requires Sound(a) && Step(KeepFirst, a, b) && Erased(a.store, k)
    ensures Erased(b.store, k)
    ensures forall t :: Commits(a, b, t) ==> forall i :: 0 <= i < |a.clients[t].log| ==> a.clients[t].log[i].op.key != k
  {
    hide Perform;
    var t :| StepOf(KeepFirst, a, b, t);
    forall u | Commits(a, b, u)
      ensures Erased(b.store, k)
      ensures forall i :: 0 <= i < |a.clients[u].log| ==> a.clients[u].log[i].op.key != k
    {
      CommitAvoidsErased(a.store, a.clients[u].log, k);
    }
  }

  /** Over a whole run: once erased, a key stays erased and no later commit has touched it. */
  lemma {:induction false} ErasedStaysErased(states: seq<System>, i: nat, j: nat, k: RecordKey)
    requires IsRun(KeepFirst, states) && i <= j < |states| && Erased(states[i].store, k)
    ensures Erased(states[j].store, k)
    ensures j + 1 < |states| ==> forall t :: Commits(states[j], states[j + 1], t) ==>
      forall n :: 0 <= n < |states[j].clients[t].log| ==> states[j].clients[t].log[n].op.key != k
    decreases j
  {
    hide Commits, Erased, Sound;
    if i < j {
      ErasedStaysErased(states, i, j - 1, k);
      SoundAt(states, j - 1);
      assert Step(KeepFirst, states[j - 1], states[j - 1 + 1]);
      ErasedForGood(states[j - 1], states[j], k);
    }
    SoundAt(states, j);
    if j + 1 < |states| {
      assert Step(KeepFirst, states[j], states[j + 1]);
      ErasedForGood(states[j], states[j + 1], k);
    }
  }

  // ------------------------------------------------------------------------ a key lost for good

  /** A record is written, removed, and written again. */
  function RemovalRun(k: RecordKey, document: Json): seq<System> {
    var made := VersionedRecord(k, 1, document);
    var written := Client(Tx(map[k := 0], map[k := made.(version := 0)], {}), [Done(Write(k, document), None)]);
    var removed := Client(Tx(map[k := 1], map[], {k}), [Done(Remove(k), None)]);
    var none := Client(FRESH_TX, []);
    var (first, second) := (Store(map[k := made], map[k := 1]), Store(map[], map[k := 2]));
    [INITIAL,
     System(EMPTY_STORE, map[0 := none], []),
     System(EMPTY_STORE, map[0 := written], []),
     System(first, map[], [written.log]),
     System(first, map[0 := none], [written.log]),
     System(first, map[0 := removed], [written.log]),
     System(second, map[], [written.log, removed.log]),
     System(second, map[0 := none], [written.log, removed.log]),
     System(second, map[0 := written], [written.log, removed.log])]
  }

  /** It is a run, the removal commits, and the second write never can. */
  lemma RemovedCannotReturn(k: RecordKey, document: Json)
    ensures IsRun(KeepFirst, RemovalRun(k, document))
    ensures var r := RemovalRun(k, document);
      k in r[3].store.records && Erased(r[6].store, k) && r[8].clients[0].log == [Done(Write(k, document), None)]
    ensures forall b, t :: !Commits(RemovalRun(k, document)[8], b, t)
  {
    var r := RemovalRun(k, document);
    forall i | 0 <= i < |r| - 1 ensures Step(KeepFirst, r[i], r[i + 1]) {
      if i % 3 == 0 {
        RemovalBegins(k, document, i);
      } else if i % 3 == 1 {
        RemovalOperates(k, document, i);
      } else {
        RemovalCommits(k, document, i);
      }
    }
    hide Step, Applied, StepOf;
    assert k in r[8].clients[0].tx.seen && VersionOf(r[8].store, k) == 2;
  }

  lemma RemovalBegins(k: RecordKey, document: Json, i: nat)
    requires i in {0, 3, 6}
    ensures var r := RemovalRun(k, document); Step(KeepFirst, r[i], r[i + 1])
  {
    var r := RemovalRun(k, document);
    assert r[i + 1].clients == r[i].clients[0 := Client(FRESH_TX, [])];
    assert Begins(r[i], r[i + 1], 0) && StepOf(KeepFirst, r[i], r[i + 1], 0);
  }

  lemma RemovalOperates(k: RecordKey, document: Json, i: nat)
    requires i in {1, 4, 7}
    ensures var r := RemovalRun(k, document); Step(KeepFirst, r[i], r[i + 1])
  {
    var r := RemovalRun(k, document);
    var op := if i == 4 then Remove(k) else Write(k, document);
    var nothing: map<RecordKey, VersionedRecord>, nobody: set<RecordKey>, none: Log := map[], {}, [];
    assert nobody - {k} == nobody && nobody + {k} == {k} && nothing - {k} == nothing;
    assert none + [Done(op, None)] == [Done(op, None)];
    assert Perform(r[i].store, FRESH_TX, op) == (r[i + 1].clients[0].tx, None);
    assert Performs(KeepFirst, r[i], r[i + 1], 0, op) && StepOf(KeepFirst, r[i], r[i + 1], 0);
  }

  lemma RemovalCommits(k: RecordKey, document: Json, i: nat)
    requires i in {2, 5}
    ensures var r := RemovalRun(k, document); Step(KeepFirst, r[i], r[i + 1])
  {
    var r := RemovalRun(k, document);
    assert Applied(r[i].store, r[i].clients[0].tx) == r[i + 1].store;
    hide Applied;
    assert r[i].clients - {0} == r[i + 1].clients;
    assert Commits(r[i], r[i + 1], 0) && StepOf(KeepFirst, r[i], r[i + 1], 0);
  }

  lemma SoundAt(states: seq<System>, i: nat)
    requires IsRun(KeepFirst, states) && i < |states|
    ensures Sound(states[i])
  {
    var before := states[..i + 1];
    forall m | 0 <= m < |before| - 1 ensures Step(KeepFirst, before[m], before[m + 1]) {
      assert Step(KeepFirst, states[m], states[m + 1]);
    }
    RunSound(before);
  }

  /** What commits alone has not touched an erased key, and leaves it erased. */
  lemma {:induction false} CommitAvoidsErased(s: Store, log: Log, k: RecordKey)
    requires StoredWell(s) && Erased(s, k) && Current(s, RunAlone(s, log))
    ensures Erased(Applied(s, RunAlone(s, log)), k)
    ensures forall i :: 0 <= i < |log| ==> log[i].op.key != k
  {
    hide Perform;
    CommitsAloneIff(s, log);
    RunAloneStaged(s, log);
    assert k !in RunAlone(s, log).seen;
    forall i | 0 <= i < |log| ensures log[i].op.key != k {
      TouchedIsSeen(s, log, i);
    }
  }
}
