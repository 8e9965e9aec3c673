/** The catalog scan of `serverLogic`: resolving the application and SKU display names and
    the client-count threshold from the product catalog (an input sequence here). */
module Catalog {
  import opened Wrappers
  import opened Uuid

  datatype SkuItem = SkuItem(id: UuidValue, displayName: string)

  /** A KMS item; `nCountPolicy` is `None` when the item has no `NCountPolicy` key. */
  datatype KmsItem = KmsItem(nCountPolicy: Option<int>, skuItems: seq<SkuItem>)

  datatype AppItem = AppItem(id: UuidValue, displayName: string, kmsItems: seq<KmsItem>)

  /** `appName` / `skuName`: a catalog display name, or the `uuid.UUID` itself when nothing matched. */
  datatype Name = Display(text: string) | RawId(id: UuidValue)

  /** The threshold used when a KMS item carries no `NCountPolicy`. */
  const DefaultThreshold: int := 25

  /** `int(kmsitem['NCountPolicy'])`, or 25 when the key is missing. */
  function Threshold(k: KmsItem): (t: int)
    ensures k.nCountPolicy.None? ==> t == DefaultThreshold
    ensures k.nCountPolicy.Some? ==> t == k.nCountPolicy.value
  {
    match k.nCountPolicy
    case None => DefaultThreshold
    case Some(n) => n
  }

  /** The emitted client count for a configured count and a threshold: the least value that
      exceeds the threshold and is at least the configured count. */
  function CurrentClientCount(configured: int, threshold: int): (c: int)
    ensures c > threshold && c >= configured
    ensures c == configured || c == threshold + 1
  {
    if configured <= threshold then threshold + 1 else configured
  }

  /** `currentClientCount` is the minimum allowed value, and the configured value passes
      through untouched exactly when it already exceeds the threshold. */
  lemma {:induction false} CurrentClientCountIsLeast(configured: int, threshold: int, c: int)
    requires c > threshold && c >= configured
    ensures CurrentClientCount(configured, threshold) <= c
    ensures CurrentClientCount(configured, threshold) == configured <==> configured > threshold
  {
  }

  /** The inner SKU loop with its `break`: the display name of the first SKU item whose id
      equals `skuId`, `None` when there is none. */
  function SkuMatch(skus: seq<SkuItem>, skuId: UuidValue): Option<string> {
    if |skus| == 0 then None
    else if skus[0].id == skuId then Some(skus[0].displayName)
    else SkuMatch(skus[1..], skuId)
  }

  /** The `break` stops at the first SKU item with the id: nothing matches exactly when no item
      carries the id, and otherwise the name is that of the earliest such item. */
  lemma {:induction false} SkuMatchIsFirst(skus: seq<SkuItem>, skuId: UuidValue, i: int)
    ensures SkuMatch(skus, skuId).None? <==> forall j :: 0 <= j < |skus| ==> skus[j].id != skuId
    ensures 0 <= i < |skus| && skus[i].id == skuId && (forall j :: 0 <= j < i ==> skus[j].id != skuId)
            ==> SkuMatch(skus, skuId) == Some(skus[i].displayName)
    decreases |skus|
  {
    if |skus| > 0 {
      SkuMatchIsFirst(skus[1..], skuId, i - 1);
      if skus[0].id != skuId {
        assert forall j :: 0 <= j < |skus| - 1 ==> skus[1..][j] == skus[j + 1];
        if 0 < i < |skus| && skus[i].id == skuId && (forall j :: 0 <= j < i ==> skus[j].id != skuId) {
          assert skus[1..][i - 1] == skus[i];
        }
      }
    }
  }

  /** A KMS item hits when one of its SKU items carries the requested id. */
  predicate Hit(k: KmsItem, skuId: UuidValue) {
    SkuMatch(k.skuItems, skuId).Some?
  }

  /** Reference for the SKU name: the first match inside the last KMS item that hits. */
  function LastSkuName(items: seq<KmsItem>, skuId: UuidValue): Option<string> {
    if |items| == 0 then None
    else if Hit(items[|items| - 1], skuId) then SkuMatch(items[|items| - 1].skuItems, skuId)
    else LastSkuName(items[..|items| - 1], skuId)
  }

  /** Reference for the application name: the display name of the last application with the id. */
  function LastAppName(apps: seq<AppItem>, appId: UuidValue): Option<string> {
    if |apps| == 0 then None
    else if apps[|apps| - 1].id == appId then Some(apps[|apps| - 1].displayName)
    else LastAppName(apps[..|apps| - 1], appId)
  }

  /** A resolved name, or the default the scan started from. */
  function NameOr(o: Option<string>, default: Name): Name {
    match o
    case Some(n) => Display(n)
    case None => default
  }

  /** No KMS item hits. */
  ghost predicate NoHit(items: seq<KmsItem>, skuId: UuidValue) {
    forall m :: 0 <= m < |items| ==> !Hit(items[m], skuId)
  }

  /** No application has the id. */
  ghost predicate NoApp(apps: seq<AppItem>, appId: UuidValue) {
    forall j :: 0 <= j < |apps| ==> apps[j].id != appId
  }

  /** Item `k` is the last KMS item that hits. */
  ghost predicate LastHit(items: seq<KmsItem>, skuId: UuidValue, k: int) {
    0 <= k < |items| && Hit(items[k], skuId) && forall m :: k < m < |items| ==> !Hit(items[m], skuId)
  }

  /** Application `i` is the last one whose id is the requested one. */
  ghost predicate LastApp(apps: seq<AppItem>, appId: UuidValue, i: int) {
    0 <= i < |apps| && apps[i].id == appId && forall j :: i < j < |apps| ==> apps[j].id != appId
  }

  /** `LastSkuName` finds nothing exactly when no item hits, and otherwise the first match of
      the last item that hits. */
  lemma {:induction false} LastSkuNameIsLast(items: seq<KmsItem>, skuId: UuidValue, k: int)
    ensures LastSkuName(items, skuId).None? <==> NoHit(items, skuId)
    ensures LastHit(items, skuId, k) ==> LastSkuName(items, skuId) == SkuMatch(items[k].skuItems, skuId)
    decreases |items|
  {
    if |items| > 0 {
      var n := |items| - 1;
      LastSkuNameIsLast(items[..n], skuId, k);
      assert forall m :: 0 <= m < n ==> items[..n][m] == items[m];
      if LastHit(items, skuId, k) && k < n {
        assert LastHit(items[..n], skuId, k);
      }
    }
  }

  /** `LastAppName` finds nothing exactly when no application has the id, and otherwise the
      display name of the last one that has it. */
  lemma {:induction false} LastAppNameIsLast(apps: seq<AppItem>, appId: UuidValue, i: int)
    ensures LastAppName(apps, appId).None? <==> NoApp(apps, appId)
    ensures LastApp(apps, appId, i) ==> LastAppName(apps, appId) == Some(apps[i].displayName)
    decreases |apps|
  {
    if |apps| > 0 {
      var n := |apps| - 1;
      LastAppNameIsLast(apps[..n], appId, i);
      assert forall j :: 0 <= j < n ==> apps[..n][j] == apps[j];
      if LastApp(apps, appId, i) && i < n {
        assert LastApp(apps[..n], appId, i);
      }
    }
  }

  /** The last hit of `xs + ys` is the last hit of `ys` when there is one, else that of `xs`. */
  lemma {:induction false} LastSkuNameAppend(xs: seq<KmsItem>, ys: seq<KmsItem>, skuId: UuidValue)
    ensures LastSkuName(xs + ys, skuId) ==
              if LastSkuName(ys, skuId).Some? then LastSkuName(ys, skuId) else LastSkuName(xs, skuId)
    decreases |ys|
  {
    if |ys| == 0 {
      assert xs + ys == xs;
    } else {
      var n := |ys| - 1;
      LastSkuNameAppend(xs, ys[..n], skuId);
      assert (xs + ys)[..|xs + ys| - 1] == xs + ys[..n];
      assert (xs + ys)[|xs + ys| - 1] == ys[n];
    }
  }

  /** The loop variables of the scan. `count` is `None` while no KMS item has been seen
      (`currentClientCount` is still unbound). */
  datatype ScanState = ScanState(appName: Name, skuName: Name, count: Option<int>)

  /** The KMS items of all applications, in the order the scan visits them. */
  function KmsItemsOf(apps: seq<AppItem>): seq<KmsItem> {
    if |apps| == 0 then [] else KmsItemsOf(apps[..|apps| - 1]) + apps[|apps| - 1].kmsItems
  }

  /** The count after visiting `items`: set by the last item, `initial` when there is none. */
  function CountAfter(items: seq<KmsItem>, configured: int, initial: Option<int>): Option<int> {
    if |items| == 0 then initial else Some(CurrentClientCount(configured, Threshold(items[|items| - 1])))
  }

  lemma {:induction false} CountAfterAppend(xs: seq<KmsItem>, ys: seq<KmsItem>, configured: int, initial: Option<int>)
    ensures CountAfter(xs + ys, configured, initial) == CountAfter(ys, configured, CountAfter(xs, configured, initial))
  {
    if |ys| == 0 {
      assert xs + ys == xs;
    } else {
      assert (xs + ys)[|xs + ys| - 1] == ys[|ys| - 1];
    }
  }

  /** The loop over one application's KMS items, starting from state `st`: each item
      overwrites the count, and a matching SKU overwrites the SKU name. */
  function ScanKmsItems(items: seq<KmsItem>, skuId: UuidValue, configured: int, st: ScanState): (r: ScanState)
    ensures r.appName == st.appName
    ensures r.skuName == NameOr(LastSkuName(items, skuId), st.skuName)
    ensures r.count == CountAfter(items, configured, st.count)
  {
    if |items| == 0 then st
    else
      var prev := ScanKmsItems(items[..|items| - 1], skuId, configured, st);
      var k := items[|items| - 1];
      var skuName := match SkuMatch(k.skuItems, skuId) case Some(n) => Display(n) case None => prev.skuName;
      ScanState(prev.appName, skuName, Some(CurrentClientCount(configured, Threshold(k))))
  }

  /** The outer loop over applications, starting from state `st`. */
  function ScanApps(apps: seq<AppItem>, appId: UuidValue, skuId: UuidValue, configured: int, st: ScanState): (r: ScanState)
    ensures r.appName == NameOr(LastAppName(apps, appId), st.appName)
    ensures r.skuName == NameOr(LastSkuName(KmsItemsOf(apps), skuId), st.skuName)
    ensures r.count == CountAfter(KmsItemsOf(apps), configured, st.count)
  {
    if |apps| == 0 then st
    else
      var n := |apps| - 1;
      var prev := ScanApps(apps[..n], appId, skuId, configured, st);
      var a := apps[n];
      var afterKms := ScanKmsItems(a.kmsItems, skuId, configured, prev);
      LastSkuNameAppend(KmsItemsOf(apps[..n]), a.kmsItems, skuId);
      CountAfterAppend(KmsItemsOf(apps[..n]), a.kmsItems, configured, st.count);
      if a.id == appId then afterKms.(appName := Display(a.displayName)) else afterKms
  }

  /** The scan as `serverLogic` starts it: both names default to the raw ids and the count is
      unbound until a KMS item is seen; the count it reports exceeds the threshold of the last
      KMS item and is at least the configured count. */
  function Scan(apps: seq<AppItem>, appId: UuidValue, skuId: UuidValue, configured: int): (r: ScanState)
    ensures r.appName == NameOr(LastAppName(apps, appId), RawId(appId))
    ensures r.skuName == NameOr(LastSkuName(KmsItemsOf(apps), skuId), RawId(skuId))
    ensures r.count.None? <==> |KmsItemsOf(apps)| == 0
    ensures r.count.Some? ==> var items := KmsItemsOf(apps);
              && r.count.value == CurrentClientCount(configured, Threshold(items[|items| - 1]))
              && r.count.value > Threshold(items[|items| - 1]) && r.count.value >= configured
  {
    ScanApps(apps, appId, skuId, configured, ScanState(RawId(appId), RawId(skuId), None))
  }

  /** The names the scan resolves: the display name of the last application with the id (the
      raw id when none has it), and the first SKU match inside the last KMS item that has one
      (the raw SKU id when none hits). */
  lemma {:induction false} ScanNames(apps: seq<AppItem>, appId: UuidValue, skuId: UuidValue, configured: int, i: int, k: int)
    ensures var r := Scan(apps, appId, skuId, configured);
            && (NoApp(apps, appId) ==> r.appName == RawId(appId))
            && (LastApp(apps, appId, i) ==> r.appName == Display(apps[i].displayName))
    ensures var r := Scan(apps, appId, skuId, configured); var items := KmsItemsOf(apps);
            && (NoHit(items, skuId) ==> r.skuName == RawId(skuId))
            && (LastHit(items, skuId, k) ==> r.skuName == Display(SkuMatch(items[k].skuItems, skuId).value))
  {
    LastAppNameIsLast(apps, appId, i);
    LastSkuNameIsLast(KmsItemsOf(apps), skuId, k);
  }
}
