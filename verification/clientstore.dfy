/** The `clients` table of the activation server as a map from key to row. */
module ClientStore {
  import opened Wrappers

  /** The columns the server filters on: `clientMachineId` and `skuId` (the SKU name as text). */
  datatype Key = Key(clientMachineId: string, skuId: string)

  /** One row; `kmsEpid` is `None` while the column is NULL. */
  datatype ClientRow = ClientRow(
    machineName: string,
    machineIp: string,
    applicationId: string,
    licenseStatus: string,
    lastRequestTime: int,
    lastRequestTimeReadable: string,
    kmsEpid: Option<string>,
    requestCount: int)

  type Store = map<Key, ClientRow>

  /** The values of one request that the upsert writes (the `infoDict` of `serverLogic`). */
  datatype Visit = Visit(
    machineName: string,
    machineIp: string,
    appId: string,
    licenseStatus: string,
    requestTime: int,
    requestTimeReadable: string)

  /** The row inserted for a key seen for the first time. */
  function NewRow(v: Visit): (row: ClientRow)
    ensures row.requestCount == 1 && row.kmsEpid.None?
    ensures row.machineName == v.machineName && row.machineIp == v.machineIp
    ensures row.applicationId == v.appId && row.licenseStatus == v.licenseStatus
    ensures row.lastRequestTime == v.requestTime && row.lastRequestTimeReadable == v.requestTimeReadable
  {
    ClientRow(v.machineName, v.machineIp, v.appId, v.licenseStatus, v.requestTime, v.requestTimeReadable, None, 1)
  }

  /** The sequence of conditional UPDATEs on an existing row, then the count increment. The
      readable time changes only together with a changed `lastRequestTime`. */
  function Revisit(row: ClientRow, v: Visit): (r: ClientRow)
    ensures r.machineName == v.machineName && r.machineIp == v.machineIp
    ensures r.applicationId == v.appId && r.licenseStatus == v.licenseStatus
    ensures r.lastRequestTime == v.requestTime
    ensures r.lastRequestTimeReadable == (if row.lastRequestTime == v.requestTime then row.lastRequestTimeReadable
                                          else v.requestTimeReadable)
    ensures r.kmsEpid == row.kmsEpid
    ensures r.requestCount == row.requestCount + 1
  {
    var r1 := if row.machineName != v.machineName then row.(machineName := v.machineName) else row;
    var r2 := if r1.machineIp != v.machineIp then r1.(machineIp := v.machineIp) else r1;
    var r3 := if r2.applicationId != v.appId then r2.(applicationId := v.appId) else r2;
    var r4 := if r3.licenseStatus != v.licenseStatus then r3.(licenseStatus := v.licenseStatus) else r3;
    var r5 := if r4.lastRequestTime != v.requestTime
              then r4.(lastRequestTime := v.requestTime, lastRequestTimeReadable := v.requestTimeReadable)
              else r4;
    r5.(requestCount := r5.requestCount + 1)
  }

  /** SELECT by key, then INSERT a fresh row or UPDATE the existing one. */
  function Upsert(store: Store, key: Key, v: Visit): (s: Store)
    ensures s.Keys == store.Keys + {key}
    ensures key !in store ==> s[key] == NewRow(v)
    ensures key in store ==> s[key] == Revisit(store[key], v)
    ensures forall k :: k in store && k != key ==> s[k] == store[k]
  {
    if key in store then store[key := Revisit(store[key], v)] else store[key := NewRow(v)]
  }

  /** Every row has been seen at least once. */
  ghost predicate Counted(store: Store) {
    forall k :: k in store ==> store[k].requestCount >= 1
  }

  /** The upsert keeps every stored EPID and every row counted, and counts the visit. */
  lemma {:induction false} UpsertPreserves(store: Store, key: Key, v: Visit)
    requires Counted(store)
    ensures Counted(Upsert(store, key, v))
    ensures forall k :: k in store ==> Upsert(store, key, v)[k].kmsEpid == store[k].kmsEpid
    ensures Upsert(store, key, v)[key].requestCount == (if key in store then store[key].requestCount else 0) + 1
  {
  }

  /** Repeating a visit changes nothing but the count. */
  lemma {:induction false} UpsertRepeat(store: Store, key: Key, v: Visit)
    ensures var s1 := Upsert(store, key, v);
            var s2 := Upsert(s1, key, v);
            s2 == s1[key := s1[key].(requestCount := s1[key].requestCount + 1)]
  {
  }
}
