/** The in-memory backend: versioned records, and transactions that commit if what they read is current. */
module MemoryStore {
  import opened Options
  import opened Json
  import opened Strings

  datatype RecordKey = RecordKey(collection: string, id: string)
  datatype VersionedRecord = VersionedRecord(key: RecordKey, version: nat, document: Json)

  /** The shared state: the records there are, and how often each key has been written. */
  datatype Store = Store(records: map<RecordKey, VersionedRecord>, versions: map<RecordKey, nat>)

  /** A transaction: the versions it read, the records it will put and the keys it will erase. */
  datatype Tx = Tx(seen: map<RecordKey, nat>, puts: map<RecordKey, VersionedRecord>, erases: set<RecordKey>)

  const EMPTY_STORE := Store(map[], map[])
  const FRESH_TX := Tx(map[], map[], {})

  function VersionOf(s: Store, k: RecordKey): nat {
    if k in s.versions then s.versions[k] else 0
  }

  function Lookup(s: Store, k: RecordKey): Option<VersionedRecord> {
    if k in s.records then Some(s.records[k]) else None
  }

  /** What becomes of a key read again: C++ keeps the version first read, Java takes the latest. */
  datatype ReadRule = KeepFirst | TakeLast

  function RecordReadBy(rule: ReadRule, tx: Tx, k: RecordKey, version: nat): Tx {
    if rule.KeepFirst? && k in tx.seen then tx else tx.(seen := tx.seen[k := version])
  }

  function VersionRead(found: Option<VersionedRecord>): nat {
    if found.Some? then found.value.version else 0
  }

  function GetBy(rule: ReadRule, s: Store, tx: Tx, k: RecordKey): (Tx, Option<VersionedRecord>) {
    if k in tx.erases then (tx, None)
    else if k in tx.puts then (tx, Some(tx.puts[k]))
    else (RecordReadBy(rule, tx, k, VersionRead(Lookup(s, k))), Lookup(s, k))
  }

  function PutBy(rule: ReadRule, s: Store, tx: Tx, k: RecordKey, document: Json): Tx {
    var read := GetBy(rule, s, tx, k).0;
    read.(puts := read.puts[k := VersionedRecord(k, 0, document)], erases := read.erases - {k})
  }

  function EraseBy(rule: ReadRule, s: Store, tx: Tx, k: RecordKey): Tx {
    var read := GetBy(rule, s, tx, k).0;
    read.(puts := read.puts - {k}, erases := read.erases + {k})
  }

  function Get(s: Store, tx: Tx, k: RecordKey): (Tx, Option<VersionedRecord>) { GetBy(KeepFirst, s, tx, k) }

  /** Every version read is still the current one. */
  predicate Current(s: Store, tx: Tx) {
    forall k :: k in tx.seen ==> VersionOf(s, k) == tx.seen[k]
  }

  function EraseRecord(s: Store, k: RecordKey): Store {
    Store(s.records - {k}, s.versions[k := VersionOf(s, k) + 1])
  }

  function PutRecord(s: Store, r: VersionedRecord): Store {
    var version := VersionOf(s, r.key) + 1;
    Store(s.records[r.key := r.(version := version)], s.versions[r.key := version])
  }

  /** The store once the writes of a transaction are applied. */
  function Applied(s: Store, tx: Tx): (r: Store)
  {
    Store(
      map k | k in s.records.Keys + tx.puts.Keys && (k in tx.puts || k !in tx.erases) ::
        if k in tx.puts then tx.puts[k].(version := VersionOf(s, k) + 1) else s.records[k],
      map k | k in s.versions.Keys + tx.puts.Keys + tx.erases ::
        VersionOf(s, k) + if k in tx.puts || k in tx.erases then 1 else 0)
  }

  /** What every transaction keeps: staged puts and erases are of different keys, and were read first. */
  ghost predicate StagedWell(tx: Tx) {
    && (forall k :: k in tx.puts ==> tx.puts[k].key == k && k !in tx.erases && k in tx.seen)
    && (forall k :: k in tx.erases ==> k in tx.seen)
  }

  /** What every store keeps: a record carries its key and its key's version, which is not zero. */
  ghost predicate StoredWell(s: Store) {
    forall k :: k in s.records ==>
      s.records[k].key == k && k in s.versions && s.records[k].version == s.versions[k] > 0
  }

  // ---------------------------------------------------------------------- the keys of the tables

  /** The tables are keyed by one string made of the collection and the key. */
  function VersionKey(k: RecordKey): string {
    "record:" + k.collection + ":" + k.id
  }

  function ParseVersionKey(s: string): Option<RecordKey> {
    var prefix := "record:";
    if |s| < |prefix| || s[..|prefix|] != prefix then None
    else match IndexOf(s[|prefix|..], ':')
      case None => None
      case Some(i) => Some(RecordKey(s[|prefix|..][..i], s[|prefix|..][i + 1..]))
  }

  /** That string stands for the pair exactly when the collection has no colon in its name. */
  lemma VersionKeyParses(k: RecordKey)
    ensures ParseVersionKey(VersionKey(k)) == Some(k) <==> ':' !in k.collection
  {
    var s := VersionKey(k);
    assert s[..7] == "record:" && s[7..] == k.collection + [':'] + k.id;
    if ':' !in k.collection {
      IndexOfFirst(k.collection, k.id, ':');
      assert s[7..][..|k.collection|] == k.collection && s[7..][|k.collection| + 1..] == k.id;
    }
  }

  // ------------------------------------------------------------------------------- preservation

  lemma OperationsStageWell(rule: ReadRule, s: Store, tx: Tx, k: RecordKey, document: Json)
    requires StagedWell(tx)
    ensures StagedWell(GetBy(rule, s, tx, k).0)
    ensures StagedWell(PutBy(rule, s, tx, k, document)) && StagedWell(EraseBy(rule, s, tx, k))
  {
  }

  lemma AppliedStoredWell(s: Store, tx: Tx)
    requires StoredWell(s) && StagedWell(tx)
    ensures StoredWell(Applied(s, tx))
  {
  }

  // ------------------------------------------------------- applying the writes one after another

  lemma AppliedNothing(s: Store, tx: Tx)
    requires tx.puts == map[] && tx.erases == {}
    ensures Applied(s, tx) == s
  {
    assert Applied(s, tx).records == s.records && Applied(s, tx).versions == s.versions;
  }

  lemma AppliedErase(s: Store, tx: Tx, k: RecordKey)
    requires tx.puts == map[] && k !in tx.erases
    ensures Applied(s, tx.(erases := tx.erases + {k})) == EraseRecord(Applied(s, tx), k)
  {
    var a, b := Applied(s, tx.(erases := tx.erases + {k})), EraseRecord(Applied(s, tx), k);
    assert a.records == b.records;
    assert a.versions == b.versions;
  }

  lemma AppliedPut(s: Store, tx: Tx, r: VersionedRecord)
    requires r.key !in tx.puts && r.key !in tx.erases
    ensures Applied(s, tx.(puts := tx.puts[r.key := r])) == PutRecord(Applied(s, tx), r)
  {
    AppliedPutKeys(s, tx, r);
    AppliedPutRecords(s, tx, r);
    AppliedPutVersions(s, tx, r);
  }

  lemma AppliedPutKeys(s: Store, tx: Tx, r: VersionedRecord)
    requires r.key !in tx.puts && r.key !in tx.erases
    ensures Applied(s, tx.(puts := tx.puts[r.key := r])).records.Keys == PutRecord(Applied(s, tx), r).records.Keys
  {
    hide VersionOf;
    assert PutRecord(Applied(s, tx), r).records.Keys == Applied(s, tx).records.Keys + {r.key};
  }

  lemma AppliedPutRecords(s: Store, tx: Tx, r: VersionedRecord)
    requires r.key !in tx.puts && r.key !in tx.erases
    ensures var (a, b) := (Applied(s, tx.(puts := tx.puts[r.key := r])).records, PutRecord(Applied(s, tx), r).records);
      forall k :: k in a && k in b ==> a[k] == b[k]
  {
    assert VersionOf(Applied(s, tx), r.key) == VersionOf(s, r.key);
    hide VersionOf;
  }

  lemma AppliedPutVersions(s: Store, tx: Tx, r: VersionedRecord)
    requires r.key !in tx.puts && r.key !in tx.erases
    ensures Applied(s, tx.(puts := tx.puts[r.key := r])).versions == PutRecord(Applied(s, tx), r).versions
  {
    var a, b := Applied(s, tx.(puts := tx.puts[r.key := r])).versions, PutRecord(Applied(s, tx), r).versions;
    assert a.Keys == b.Keys;
    forall k | k in a ensures a[k] == b[k] {
    }
  }
}
