/** The activation policy of `serverLogic` and `createKmsResponse`: catalog lookup, hostname
    gate, client-store upsert, and the response with its EPID choice. */
module Server {
  import opened Wrappers
  import opened Uuid
  import Utf16
  import opened Messages
  import opened Catalog
  import opened ClientStore
  import Tables

  /** The configuration keys the policy reads. An empty `epid` stands for an unset one (Python
      treats both `None` and `""` as false); `storeEnabled` is `sqlite and dbSupport`. */
  datatype Config = Config(
    currentClientCount: int,
    machineIp: string,
    epid: string,
    vLActivationInterval: int,
    vLRenewalInterval: int,
    storeEnabled: bool)

  /** What the policy takes from outside: the product catalog, `int(time.time())`, the formatted
      local request time, and the output of the EPID generator for this request. */
  datatype Environment = Environment(
    catalog: seq<AppItem>,
    now: int,
    requestTimeReadable: string,
    generatedEpid: string)

  /** The exceptions the policy can raise on its way to a response. */
  datatype ServerError =
    | MachineNameUndecodable   // UnicodeDecodeError in `getMachineName`
    | UnknownLicenseStatus     // KeyError in `getLicenseStatus`
    | UnboundClientCount       // UnboundLocalError: the catalog has no KMS item
    | MissingRow               // TypeError on `data[0]` when the SELECT finds no row

  /** `sys.exit(0)` on an illegal hostname, a response, or an exception. */
  datatype Outcome = Closed | Respond(response: KmsResponse) | Aborted(error: ServerError)

  datatype Step = Step(outcome: Outcome, store: Store)

  // ---------------------------------------------------------------- hostname gate

  /** `sub` occurs in `s` starting at index `j`. */
  predicate OccursAt(s: string, sub: string, j: nat) {
    j + |sub| <= |s| && s[j..j + |sub|] == sub
  }

  /** Python's `s.find(sub, i, limit)` restricted to `i <= limit <= |s|`: the lowest index at or
      after `i` where `sub` occurs inside `s[..limit]`, or -1. */
  function FindFrom(s: string, sub: string, i: nat, limit: nat): (r: int)
    requires limit <= |s|
    ensures r == -1 || (i <= r && r + |sub| <= limit && OccursAt(s, sub, r))
    ensures r == -1 ==> forall j :: i <= j && j + |sub| <= limit ==> !OccursAt(s, sub, j)
    ensures r != -1 ==> forall j :: i <= j < r ==> !OccursAt(s, sub, j)
    decreases limit - i
  {
    if i + |sub| > limit then -1
    else if OccursAt(s, sub, i) then i
    else FindFrom(s, sub, i + 1, limit)
  }

  /** `s.find(sub, start, end)`: -1 when `start` lies beyond the string, otherwise a search of
      the slice `s[start:end]` reported as an index into `s`. */
  function Find(s: string, sub: string, start: nat, end: nat): (r: int)
    ensures r == -1 || (start <= r && r + |sub| <= end && OccursAt(s, sub, r))
  {
    if start > |s| then -1
    else FindFrom(s, sub, start, if end < |s| then end else |s|)
  }

  /** The gate as written: `name.find(p, 0, 5) == 0` for one of the three prefixes. */
  predicate Admitted(name: string) {
    Find(name, "AC-", 0, 5) == 0 || Find(name, "MC-", 0, 5) == 0 || Find(name, "PC-", 0, 5) == 0
  }

  /** The activation policy in words: the name starts with `AC-`, `MC-` or `PC-`. */
  predicate HasActivationPrefix(name: string) {
    |name| >= 3 && (name[..3] == "AC-" || name[..3] == "MC-" || name[..3] == "PC-")
  }

  /** `find(p, 0, 5) == 0` is a case-sensitive prefix test for a three-character `p`. */
  lemma {:induction false} FindAtStart(name: string, p: string)
    requires |p| == 3
    ensures Find(name, p, 0, 5) == 0 <==> |name| >= 3 && name[..3] == p
  {
    if |name| >= 3 && name[..3] == p {
      var limit := if 5 < |name| then 5 else |name|;
      assert OccursAt(name, p, 0);
    }
  }

  lemma {:induction false} AdmittedIffPrefix(name: string)
    ensures Admitted(name) <==> HasActivationPrefix(name)
  {
    FindAtStart(name, "AC-");
    FindAtStart(name, "MC-");
    FindAtStart(name, "PC-");
  }

  // ---------------------------------------------------------------- response

  /** `str(name)`: the display name, or the canonical text of the UUID when the catalog had none. */
  function NameText(n: Name): string {
    match n
    case Display(t) => t
    case RawId(g) => CanonicalString(g)
  }

  /** The store key of a request: `str(clientMachineId.get())` and the resolved SKU name. */
  function KeyOf(req: KmsRequest, skuName: Name): Key {
    Key(CanonicalString(Get(req.clientMachineId)), NameText(skuName))
  }

  /** Store keys tell clients apart: two requests share a key exactly when they carry the same
      client machine id bytes and the same SKU name text. */
  lemma {:induction false} KeyOfSeparates(req1: KmsRequest, req2: KmsRequest, sku1: Name, sku2: Name)
    ensures KeyOf(req1, sku1) == KeyOf(req2, sku2) <==>
              req1.clientMachineId == req2.clientMachineId && NameText(sku1) == NameText(sku2)
  {
    CanonicalStringInjective(req1.clientMachineId, req2.clientMachineId);
  }

  /** The EPID before the store is consulted: the configured one if set, else the generator's. */
  function FreshEpid(config: Config, env: Environment): (e: string)
    ensures config.epid != "" ==> e == config.epid
    ensures config.epid == "" ==> e == env.generatedEpid
  {
    if config.epid != "" then config.epid else env.generatedEpid
  }

  /** A non-empty EPID already stored for the key, if any. */
  function StoredEpid(store: Store, key: Key): (e: Option<string>)
    ensures e.Some? <==> key in store && store[key].kmsEpid.Some? && store[key].kmsEpid.value != ""
    ensures e.Some? ==> e.value == store[key].kmsEpid.value
  {
    if key in store && store[key].kmsEpid.Some? && store[key].kmsEpid.value != "" then store[key].kmsEpid else None
  }

  /** `createKmsResponse`. With the store enabled, a non-empty stored EPID replaces the fresh one;
      otherwise the fresh one is written back (after a UTF-16 round trip) to the row. */
  function CreateKmsResponse(req: KmsRequest, count: int, skuName: Name, config: Config, env: Environment,
                             store: Store): (r: Result<(KmsResponse, Store), ServerError>)
    ensures r.Failure? <==> config.storeEnabled && KeyOf(req, skuName) !in store
    ensures r.Failure? ==> r.error == MissingRow
    ensures r.Success? ==>
              var resp := r.value.0;
              && resp.versionMinor == req.versionMinor && resp.versionMajor == req.versionMajor
              && resp.clientMachineId == req.clientMachineId && resp.responseTime == req.requestTime
              && resp.currentClientCount == count
              && resp.vLActivationInterval == config.vLActivationInterval
              && resp.vLRenewalInterval == config.vLRenewalInterval
    ensures r.Success? && !config.storeEnabled ==>
              r.value.0.kmsEpid == Utf16.Encode(FreshEpid(config, env)) && r.value.1 == store
    ensures r.Success? && config.storeEnabled && StoredEpid(store, KeyOf(req, skuName)).Some? ==>
              r.value.0.kmsEpid == Utf16.Encode(StoredEpid(store, KeyOf(req, skuName)).value) && r.value.1 == store
    ensures r.Success? && config.storeEnabled && StoredEpid(store, KeyOf(req, skuName)).None? ==>
              var key := KeyOf(req, skuName);
              && r.value.0.kmsEpid == Utf16.Encode(FreshEpid(config, env))
              && r.value.1 == store[key := store[key].(kmsEpid := Some(FreshEpid(config, env)))]
  {
    var initial := Utf16.Encode(FreshEpid(config, env));
    var resp := KmsResponse(req.versionMinor, req.versionMajor, initial, req.clientMachineId, req.requestTime,
                            count, config.vLActivationInterval, config.vLRenewalInterval);
    if !config.storeEnabled then Success((resp, store))
    else
      var key := KeyOf(req, skuName);
      if key !in store then Failure(MissingRow)
      else if store[key].kmsEpid.Some? && store[key].kmsEpid.value != "" then
        Success((resp.(kmsEpid := Utf16.Encode(store[key].kmsEpid.value)), store))
      else
        Utf16.DecodeEncode(FreshEpid(config, env));
        var written := Utf16.Decode(resp.kmsEpid).value;
        Success((resp, store[key := store[key].(kmsEpid := Some(written))]))
  }

  /** Once a non-empty EPID is stored for the key, neither the configured EPID nor the
      generator has any say: every configuration with the store enabled answers with the stored
      one and leaves the store as it was. */
  lemma {:induction false} StoredEpidWins(req: KmsRequest, count: int, skuName: Name, config1: Config, config2: Config,
                                          env1: Environment, env2: Environment, store: Store)
    requires config1.storeEnabled && config2.storeEnabled
    requires StoredEpid(store, KeyOf(req, skuName)).Some?
    ensures var r1 := CreateKmsResponse(req, count, skuName, config1, env1, store);
            var r2 := CreateKmsResponse(req, count, skuName, config2, env2, store);
            && r1.Success? && r2.Success?
            && r1.value.0.kmsEpid == r2.value.0.kmsEpid
            && r1.value.0.kmsEpid == Utf16.Encode(store[KeyOf(req, skuName)].kmsEpid.value)
            && r1.value.1 == store && r2.value.1 == store
  {
  }

  // ---------------------------------------------------------------- serverLogic

  /** The values the upsert writes for a request whose name and license status were read. */
  function VisitOf(name: string, status: string, scan: ScanState, config: Config, env: Environment): Visit {
    Visit(name, config.machineIp, NameText(scan.appName), if Admitted(name) then status else "FAILED",
          env.now, env.requestTimeReadable)
  }

  /** The store after the upsert step (unchanged when the store is disabled). */
  function AfterUpsert(req: KmsRequest, name: string, status: string, scan: ScanState, config: Config,
                       env: Environment, store: Store): Store {
    if config.storeEnabled then Upsert(store, KeyOf(req, scan.skuName), VisitOf(name, status, scan, config, env))
    else store
  }

  /** `serverLogic` from the `infoDict` on, given the result `scan` of the catalog scan: read the
      machine name and license status, gate the hostname, upsert the client row, then answer. */
  function Serve(req: KmsRequest, config: Config, env: Environment, scan: ScanState, store: Store): (out: Step)
    ensures out.outcome == Aborted(MachineNameUndecodable) <==> GetMachineName(req).None?
    ensures out.outcome == Aborted(UnknownLicenseStatus) <==>
              GetMachineName(req).Some? && Tables.GetLicenseStatus(req.licenseStatus).None?
    ensures out.outcome.Aborted? && out.outcome.error in {MachineNameUndecodable, UnknownLicenseStatus} ==>
              out.store == store
    ensures out.outcome.Closed? <==>
              && GetMachineName(req).Some? && Tables.GetLicenseStatus(req.licenseStatus).Some?
              && !HasActivationPrefix(GetMachineName(req).value)
    ensures out.outcome != Aborted(MissingRow)
    ensures out.outcome == Aborted(UnboundClientCount) <==>
              && GetMachineName(req).Some? && Tables.GetLicenseStatus(req.licenseStatus).Some?
              && HasActivationPrefix(GetMachineName(req).value) && scan.count.None?
  {
    match GetMachineName(req)
    case None => Step(Aborted(MachineNameUndecodable), store)
    case Some(name) =>
      match Tables.GetLicenseStatus(req.licenseStatus)
      case None => Step(Aborted(UnknownLicenseStatus), store)
      case Some(status) =>
        AdmittedIffPrefix(name);
        var store1 := AfterUpsert(req, name, status, scan, config, env, store);
        if !Admitted(name) then Step(Closed, store1)
        else match scan.count
          case None => Step(Aborted(UnboundClientCount), store1)
          case Some(count) =>
            match CreateKmsResponse(req, count, scan.skuName, config, env, store1)
            case Failure(e) => Step(Aborted(e), store1)
            case Success((resp, store2)) => Step(Respond(resp), store2)
  }

  /** `serverLogic`: the catalog scan, then the rest. The session aborts for lack of a count
      exactly when the hostname passed the gate and the catalog holds no KMS item. */
  function ServerLogic(req: KmsRequest, config: Config, env: Environment, store: Store): (out: Step)
    ensures out.outcome == Aborted(UnboundClientCount) <==>
              && GetMachineName(req).Some? && Tables.GetLicenseStatus(req.licenseStatus).Some?
              && HasActivationPrefix(GetMachineName(req).value) && |KmsItemsOf(env.catalog)| == 0
  {
    Serve(req, config, env, Scan(env.catalog, Get(req.applicationId), Get(req.skuId), config.currentClientCount), store)
  }

  /** The path to a response: every check passed and `createKmsResponse` succeeded on the
      upserted store. */
  lemma {:induction false} RespondShape(req: KmsRequest, config: Config, env: Environment, scan: ScanState,
                                        store: Store, resp: KmsResponse)
    requires Serve(req, config, env, scan, store).outcome == Respond(resp)
    ensures GetMachineName(req).Some? && Tables.GetLicenseStatus(req.licenseStatus).Some?
    ensures HasActivationPrefix(GetMachineName(req).value)
    ensures scan.count.Some?
    ensures var store1 := AfterUpsert(req, GetMachineName(req).value, Tables.GetLicenseStatus(req.licenseStatus).value,
                                      scan, config, env, store);
            var r := CreateKmsResponse(req, scan.count.value, scan.skuName, config, env, store1);
            r.Success? && r.value.0 == resp && Serve(req, config, env, scan, store).store == r.value.1
  {
    AdmittedIffPrefix(GetMachineName(req).value);
  }

  /** An illegal hostname still leaves a row behind, recorded as "FAILED". */
  lemma {:induction false} ClosedRecordsFailed(req: KmsRequest, config: Config, env: Environment, scan: ScanState,
                                               store: Store)
    requires config.storeEnabled
    requires Serve(req, config, env, scan, store).outcome.Closed?
    ensures var key := KeyOf(req, scan.skuName);
            var s := Serve(req, config, env, scan, store).store;
            && key in s && s[key].licenseStatus == "FAILED"
            && s[key].requestCount == (if key in store then store[key].requestCount else 0) + 1
  {
    AdmittedIffPrefix(GetMachineName(req).value);
  }

  /** A response mirrors the request and the configuration, carries the count of the scan, and
      answers an admitted hostname only. */
  lemma {:induction false} RespondMirrors(req: KmsRequest, config: Config, env: Environment, scan: ScanState,
                                          store: Store, resp: KmsResponse)
    requires Serve(req, config, env, scan, store).outcome == Respond(resp)
    ensures GetMachineName(req).Some? && HasActivationPrefix(GetMachineName(req).value)
    ensures resp.versionMinor == req.versionMinor && resp.versionMajor == req.versionMajor
    ensures resp.clientMachineId == req.clientMachineId && resp.responseTime == req.requestTime
    ensures resp.vLActivationInterval == config.vLActivationInterval
    ensures resp.vLRenewalInterval == config.vLRenewalInterval
    ensures scan.count == Some(resp.currentClientCount)
    ensures EpidLen(resp) == |resp.kmsEpid| + 2
  {
    RespondShape(req, config, env, scan, store, resp);
  }

  /** The count of a response exceeds the threshold of the last KMS item in the catalog and is
      at least the configured count. */
  lemma {:induction false} RespondCount(req: KmsRequest, config: Config, env: Environment, store: Store,
                                        resp: KmsResponse)
    requires ServerLogic(req, config, env, store).outcome == Respond(resp)
    ensures |KmsItemsOf(env.catalog)| > 0
    ensures resp.currentClientCount > Threshold(KmsItemsOf(env.catalog)[|KmsItemsOf(env.catalog)| - 1])
    ensures resp.currentClientCount >= config.currentClientCount
  {
    var scan := Scan(env.catalog, Get(req.applicationId), Get(req.skuId), config.currentClientCount);
    assert scan.count == Some(resp.currentClientCount) by {
      RespondMirrors(req, config, env, scan, store, resp);
    }
  }

  /** With the store enabled, the EPID of a response is the one the row holds afterwards. */
  lemma {:induction false} RespondPersistsEpid(req: KmsRequest, config: Config, env: Environment, scan: ScanState,
                                               store: Store, resp: KmsResponse)
    requires config.storeEnabled
    requires Serve(req, config, env, scan, store).outcome == Respond(resp)
    ensures var key := KeyOf(req, scan.skuName);
            var s := Serve(req, config, env, scan, store).store;
            && key in s && s[key].kmsEpid.Some? && Utf16.Encode(s[key].kmsEpid.value) == resp.kmsEpid
  {
    RespondShape(req, config, env, scan, store, resp);
  }

  /** A second request for the same client and SKU name gets the EPID of the first, whatever the
      generator or the configured EPID says by then. */
  lemma {:induction false} EpidStable(req1: KmsRequest, req2: KmsRequest, config1: Config, config2: Config,
                                      env1: Environment, env2: Environment, scan1: ScanState, scan2: ScanState,
                                      store: Store, resp1: KmsResponse, resp2: KmsResponse)
    requires config1.storeEnabled && config2.storeEnabled
    requires req1.clientMachineId == req2.clientMachineId && scan1.skuName == scan2.skuName
    requires Serve(req1, config1, env1, scan1, store).outcome == Respond(resp1) && resp1.kmsEpid != []
    requires Serve(req2, config2, env2, scan2, Serve(req1, config1, env1, scan1, store).store).outcome
             == Respond(resp2)
    ensures resp2.kmsEpid == resp1.kmsEpid
  {
    var first := Serve(req1, config1, env1, scan1, store).store;
    RespondPersistsEpid(req1, config1, env1, scan1, store, resp1);
    var key := KeyOf(req1, scan1.skuName);
    var e := first[key].kmsEpid.value;
    assert e != "";
    RespondShape(req2, config2, env2, scan2, first, resp2);
    var store1 := AfterUpsert(req2, GetMachineName(req2).value, Tables.GetLicenseStatus(req2.licenseStatus).value,
                              scan2, config2, env2, first);
    assert KeyOf(req2, scan2.skuName) == key;
    assert StoredEpid(store1, key) == Some(e);
  }
}
