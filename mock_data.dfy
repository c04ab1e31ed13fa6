/**
  src/data/mockData.ts: the transforms applied to the tracker API's answers
  once they have been fetched and decoded. The API answer is a list of
  `(componentName, deployments)` entries, in the order `Object.entries`
  yields them.
*/
module MockData {
  import opened Wrappers
  import opened Text
  import opened Types

  datatype ApiEntry = ApiEntry(componentName: string, deployments: seq<Deployment>)

  // ------------------------------------------- latest deployment per environment

  /** The key an event is grouped under. */
  function EnvKey(d: Deployment): string {
    Lower(d.envName)
  }

  predicate OccursIn(ds: seq<Deployment>, n: nat, k: string)
    requires n <= |ds|
  {
    exists j :: 0 <= j < n && EnvKey(ds[j]) == k
  }

  /**
    Among the first `n` events, `ds[i]` is grouped under `k`, no event under
    `k` has a higher `rn`, and every earlier one under `k` has a strictly
    lower `rn`: the first of the highest.
  */
  predicate LatestAt(ds: seq<Deployment>, n: nat, k: string, i: nat)
    requires n <= |ds|
  {
    && i < n
    && EnvKey(ds[i]) == k
    && (forall j :: 0 <= j < n && EnvKey(ds[j]) == k ==> ds[j].rn <= ds[i].rn)
    && (forall j :: 0 <= j < i && EnvKey(ds[j]) == k ==> ds[j].rn < ds[i].rn)
  }

  /**
    `m` holds one entry per lower-cased environment name occurring in `ds`,
    and that entry is, unchanged, the first event under it with the highest
    `rn`.
  */
  ghost predicate IsLatestPerEnvironment(ds: seq<Deployment>, m: map<string, Deployment>) {
    && (forall k :: k in m <==> OccursIn(ds, |ds|, k))
    && (forall k :: k in m ==> exists i: nat :: LatestAt(ds, |ds|, k, i) && ds[i] == m[k])
  }

  /** The loop's invariant after `n` events: the keys seen so far, each with the position of its latest event. */
  ghost predicate ReducedUpTo(ds: seq<Deployment>, n: nat, m: map<string, Deployment>, at: map<string, nat>)
    requires n <= |ds|
  {
    && (forall k :: k in m <==> OccursIn(ds, n, k))
    && (forall k :: k in m ==> k in at && LatestAt(ds, n, k, at[k]) && ds[at[k]] == m[k])
  }

  /** One step of the `forEach`: storing `ds[i]` exactly on a new key or a strictly higher `rn` keeps the invariant. */
  lemma ReduceStep(ds: seq<Deployment>, i: nat, m: map<string, Deployment>, at: map<string, nat>,
                   m': map<string, Deployment>, at': map<string, nat>)
    requires i < |ds| && ReducedUpTo(ds, i, m, at)
    requires var e := EnvKey(ds[i]);
      if e !in m || ds[i].rn > m[e].rn then m' == m[e := ds[i]] && at' == at[e := i]
      else m' == m && at' == at
    ensures ReducedUpTo(ds, i + 1, m', at')
  {
    var e := EnvKey(ds[i]);
    assert m'.Keys == m.Keys + {e};
    StepKeys(ds, i, m, m');
    forall k | k in m' ensures k in at' && LatestAt(ds, i + 1, k, at'[k]) && ds[at'[k]] == m'[k] {
      if k != e {
        LatestExtendOther(ds, i, k, at[k]);
      } else if e !in m {
        LatestExtendNew(ds, i, k);
      } else if ds[i].rn > m[e].rn {
        LatestExtendHigher(ds, i, k, at[k]);
      } else {
        LatestExtendLower(ds, i, k, at[k]);
      }
    }
  }

  /** The keys after one more event are the old keys and that event's key. */
  lemma StepKeys(ds: seq<Deployment>, i: nat, m: map<string, Deployment>, m': map<string, Deployment>)
    requires i < |ds|
    requires forall k :: k in m <==> OccursIn(ds, i, k)
    requires m'.Keys == m.Keys + {EnvKey(ds[i])}
    ensures forall k :: k in m' <==> OccursIn(ds, i + 1, k)
  {
    forall k ensures k in m' <==> OccursIn(ds, i + 1, k) {
      if OccursIn(ds, i + 1, k) && k != EnvKey(ds[i]) {
        var j :| 0 <= j < i + 1 && EnvKey(ds[j]) == k;
        assert j < i;
      }
      if k in m && k != EnvKey(ds[i]) {
        var j :| 0 <= j < i && EnvKey(ds[j]) == k;
        assert 0 <= j < i + 1;
      }
      if k == EnvKey(ds[i]) {
        assert EnvKey(ds[i]) == k;
      }
    }
  }

  /** An event under another key leaves the latest position of `k` as it was. */
  lemma LatestExtendOther(ds: seq<Deployment>, n: nat, k: string, p: nat)
    requires n < |ds| && LatestAt(ds, n, k, p) && EnvKey(ds[n]) != k
    ensures LatestAt(ds, n + 1, k, p)
  {
  }

  /** An event under `k` with an `rn` no higher than the latest one leaves it in place. */
  lemma LatestExtendLower(ds: seq<Deployment>, n: nat, k: string, p: nat)
    requires n < |ds| && LatestAt(ds, n, k, p) && EnvKey(ds[n]) == k && ds[n].rn <= ds[p].rn
    ensures LatestAt(ds, n + 1, k, p)
  {
  }

  /** An event under `k` with a strictly higher `rn` becomes the latest one. */
  lemma LatestExtendHigher(ds: seq<Deployment>, n: nat, k: string, p: nat)
    requires n < |ds| && LatestAt(ds, n, k, p) && EnvKey(ds[n]) == k && ds[n].rn > ds[p].rn
    ensures LatestAt(ds, n + 1, k, n)
  {
  }

  /** The first event under `k` is its latest one. */
  lemma LatestExtendNew(ds: seq<Deployment>, n: nat, k: string)
    requires n < |ds| && !OccursIn(ds, n, k) && EnvKey(ds[n]) == k
    ensures LatestAt(ds, n + 1, k, n)
  {
    forall j | 0 <= j < n + 1 && EnvKey(ds[j]) == k ensures j == n {
      if j < n {
        assert OccursIn(ds, n, k);
      }
    }
  }

  /** The `forEach` that fills `deploymentsByEnv`, replacing an entry only on a strictly higher `rn`. */
  method LatestPerEnvironment(ds: seq<Deployment>) returns (m: map<string, Deployment>)
    ensures IsLatestPerEnvironment(ds, m)
  {
    m := map[];
    ghost var at: map<string, nat> := map[];
    var i := 0;
    while i < |ds|
      invariant 0 <= i <= |ds|
      invariant ReducedUpTo(ds, i, m, at)
    {
      var deployment := ds[i];
      var envName := Lower(deployment.envName);
      ghost var m0, at0 := m, at;
      if envName !in m || deployment.rn > m[envName].rn {
        m := m[envName := deployment];
        at := at[envName := i];
      }
      ReduceStep(ds, i, m0, at0, m, at);
      i := i + 1;
    }
    forall k | k in m ensures exists i: nat :: LatestAt(ds, |ds|, k, i) && ds[i] == m[k] {
      assert LatestAt(ds, |ds|, k, at[k]);
    }
  }

  /** The reduction's result is determined by its input: two maps that both satisfy it are equal. */
  lemma LatestPerEnvironmentUnique(ds: seq<Deployment>, m1: map<string, Deployment>, m2: map<string, Deployment>)
    requires IsLatestPerEnvironment(ds, m1) && IsLatestPerEnvironment(ds, m2)
    ensures m1 == m2
  {
    assert m1.Keys == m2.Keys;
    forall k | k in m1 ensures m1[k] == m2[k] {
      var i1: nat :| LatestAt(ds, |ds|, k, i1) && ds[i1] == m1[k];
      var i2: nat :| LatestAt(ds, |ds|, k, i2) && ds[i2] == m2[k];
      LatestAtUnique(ds, |ds|, k, i1, i2);
    }
  }

  lemma LatestAtUnique(ds: seq<Deployment>, n: nat, k: string, i1: nat, i2: nat)
    requires n <= |ds|
    requires LatestAt(ds, n, k, i1) && LatestAt(ds, n, k, i2)
    ensures i1 == i2
  {
  }

  /** The keys of the reduction over `[a, b, c]` are the keys of its three events. */
  lemma KeysOfThree(a: Deployment, b: Deployment, c: Deployment, m: map<string, Deployment>)
    requires IsLatestPerEnvironment([a, b, c], m)
    ensures forall k :: k in m <==> k == EnvKey(a) || k == EnvKey(b) || k == EnvKey(c)
  {
    var ds := [a, b, c];
    forall k ensures k in m <==> k == EnvKey(a) || k == EnvKey(b) || k == EnvKey(c) {
      if k == EnvKey(a) {
        assert EnvKey(ds[0]) == k;
      } else if k == EnvKey(b) {
        assert EnvKey(ds[1]) == k;
      } else if k == EnvKey(c) {
        assert EnvKey(ds[2]) == k;
      } else {
        assert forall j :: 0 <= j < 3 ==> ds[j] == a || ds[j] == b || ds[j] == c;
      }
    }
  }

  /**
    Two `prod` events with the same `rn` around a `dev` event: the first
    `prod` event is kept, because a later one replaces it only on a strictly
    higher `rn`.
  */
  lemma LatestPerEnvironmentTieKeepsFirst(a: Deployment, b: Deployment, c: Deployment, m: map<string, Deployment>)
    requires EnvKey(a) == "prod" && EnvKey(b) == "dev" && EnvKey(c) == "prod"
    requires a.rn == c.rn
    requires IsLatestPerEnvironment([a, b, c], m)
    ensures forall k :: k in m <==> k == "prod" || k == "dev"
    ensures m["prod"] == a && m["dev"] == b
  {
    var ds := [a, b, c];
    KeysOfThree(a, b, c, m);
    var ip: nat :| LatestAt(ds, 3, "prod", ip) && ds[ip] == m["prod"];
    var id: nat :| LatestAt(ds, 3, "dev", id) && ds[id] == m["dev"];
    assert LatestAt(ds, 3, "prod", 0);
    LatestAtUnique(ds, 3, "prod", ip, 0);
    assert LatestAt(ds, 3, "dev", 1);
    LatestAtUnique(ds, 3, "dev", id, 1);
  }

  /** The grouping key ignores case: `PROD` and `prod` share one slot. */
  lemma EnvKeyIgnoresCase(d: Deployment, e: Deployment)
    requires d.envName == "PROD" && e.envName == "prod"
    ensures EnvKey(d) == EnvKey(e) == "prod"
  {
    assert Lower("PROD") == "prod";
  }

  // ------------------------------------------------------ component record

  /**
    `deployments[0]?.componentId?.toString() || slug`: the decimal text of the
    first event's `componentId` when it has one (never empty, so never
    falsy), otherwise the lower-cased name with each whitespace run replaced
    by one `-`.
  */
  function ComponentId(componentName: string, deployments: seq<Deployment>): (id: string)
    ensures deployments != [] && deployments[0].componentId.Some? ==>
      ParseDecimal(id) == Some(deployments[0].componentId.value) && IsCanonicalDecimal(id)
    ensures !(deployments != [] && deployments[0].componentId.Some?) ==>
      |id| <= |componentName| && forall k :: 0 <= k < |id| ==> !IsWhitespace(id[k])
  {
    if deployments != [] && deployments[0].componentId.Some? then
      IntToDecimalRoundTrip(deployments[0].componentId.value);
      IntToDecimal(deployments[0].componentId.value)
    else
      DashWhitespaceRuns(Lower(componentName))
  }

  /** The numeric id is the only canonical decimal of the first event's `componentId`: `"07"` or `"-0"` never appear. */
  lemma NumericIdIsCanonical(componentName: string, deployments: seq<Deployment>, s: string)
    requires deployments != [] && deployments[0].componentId.Some?
    requires IsCanonicalDecimal(s) && ParseDecimal(s) == Some(deployments[0].componentId.value)
    ensures ComponentId(componentName, deployments) == s
  {
    CanonicalDecimalUnique(ComponentId(componentName, deployments), s);
  }

  /** A lower-case name without whitespace is its own slug. */
  lemma SlugOfPlainName(componentName: string)
    requires forall k :: 0 <= k < |componentName| ==> !IsWhitespace(componentName[k]) && !('A' <= componentName[k] <= 'Z')
    ensures ComponentId(componentName, []) == componentName
  {
    assert Lower(componentName) == componentName;
    DashWhitespaceRunsIdentity(componentName);
  }

  /** The slug is lower-case ASCII, and each character is a `-` or one of the lower-cased name's. */
  lemma SlugShape(componentName: string, deployments: seq<Deployment>)
    requires !(deployments != [] && deployments[0].componentId.Some?)
    ensures var id := ComponentId(componentName, deployments);
      forall k :: 0 <= k < |id| ==> !('A' <= id[k] <= 'Z') && (id[k] == '-' || id[k] in Lower(componentName))
  {
    var id := ComponentId(componentName, deployments);
    assert id == DashWhitespaceRuns(Lower(componentName));
    LowerHasNoUpper(componentName);
    DashAddsOnlyDashes(Lower(componentName));
    forall k | 0 <= k < |id| ensures !('A' <= id[k] <= 'Z') && (id[k] == '-' || id[k] in Lower(componentName)) {
      assert id[k] == '-' || id[k] in Lower(componentName);
    }
  }

  /**
    Without a usable `componentId`, a whitespace run in the name becomes one
    `-`, the text before it is lower-cased and kept, and the rest is slugged
    in the same way.
  */
  lemma SlugReplacesRun(a: string, w: string, b: string, deployments: seq<Deployment>)
    requires !(deployments != [] && deployments[0].componentId.Some?)
    requires forall k :: 0 <= k < |a| ==> !IsWhitespace(a[k])
    requires w != [] && IsBlank(w)
    requires b == [] || !IsWhitespace(b[0])
    ensures ComponentId(a + w + b, deployments) == Lower(a) + "-" + ComponentId(b, deployments)
  {
    assert Lower(a + w + b) == Lower(a) + Lower(w) + Lower(b);
    assert forall k :: 0 <= k < |w| ==> Lower(w)[k] == w[k];
    DashWhitespaceRunsRun(Lower(a), Lower(w), Lower(b));
  }

  /** `deployments[0]?.branchUrl || ""`. */
  function Repository(deployments: seq<Deployment>): (repository: string)
    ensures deployments == [] || deployments[0].branchUrl.None? ==> repository == ""
    ensures deployments != [] && deployments[0].branchUrl.Some? ==> repository == deployments[0].branchUrl.value
  {
    if deployments != [] && deployments[0].branchUrl.Some? then deployments[0].branchUrl.value else ""
  }

  /** `eimId || "Unknown"`: an absent or empty EIM id both show as `Unknown`. */
  function Owner(eimId: Option<string>): (owner: string)
    ensures owner != ""
    ensures owner != "Unknown" ==> eimId == Some(owner)
    ensures eimId.Some? && eimId.value != "" ==> owner == eimId.value
  {
    if eimId.Some? && eimId.value != "" then eimId.value else "Unknown"
  }

  /** What `getComponents` makes of one API entry. */
  ghost predicate IsComponentOf(c: ComponentData, e: ApiEntry, eimId: Option<string>) {
    && c.id == ComponentId(e.componentName, e.deployments)
    && c.name == e.componentName
    && c.description == e.componentName + " component"
    && c.repository == Repository(e.deployments)
    && c.owner == Owner(eimId)
    && IsLatestPerEnvironment(e.deployments, c.deployments)
  }

  /** The `map` callback of `getComponents`. */
  method ToComponent(e: ApiEntry, eimId: Option<string>) returns (c: ComponentData)
    ensures IsComponentOf(c, e, eimId)
  {
    var deploymentsByEnv := LatestPerEnvironment(e.deployments);
    c := ComponentData(
      ComponentId(e.componentName, e.deployments),
      e.componentName,
      e.componentName + " component",
      Repository(e.deployments),
      Owner(eimId),
      deploymentsByEnv);
  }

  /** The transform half of `getComponents`: one component per API entry, in entry order. */
  method GetComponents(api: seq<ApiEntry>, eimId: Option<string>) returns (components: seq<ComponentData>)
    ensures |components| == |api|
    ensures forall j :: 0 <= j < |api| ==> IsComponentOf(components[j], api[j], eimId)
  {
    components := [];
    var i := 0;
    while i < |api|
      invariant 0 <= i <= |api|
      invariant |components| == i
      invariant forall j :: 0 <= j < i ==> IsComponentOf(components[j], api[j], eimId)
    {
      var c := ToComponent(api[i], eimId);
      components := components + [c];
      i := i + 1;
    }
  }

  // --------------------------------------------------------- history record

  /** `deployedAt.split("T")[0]`. */
  function HistoryDate(deployedAt: string): (date: string)
    ensures 'T' !in date
    ensures date == deployedAt[..IndexOf(deployedAt, 'T')]
  {
    Split(deployedAt, 'T')[0]
  }

  /** `deployedAt.split("T")[1]?.split(".")[0] || null`. */
  function HistoryTime(deployedAt: string): (time: Option<string>)
    ensures 'T' !in deployedAt ==> time.None?
    ensures time.Some? ==> time.value != "" && 'T' !in time.value && '.' !in time.value
    ensures time.Some? ==> HistoryDate(deployedAt) + "T" + time.value <= deployedAt
    ensures time.Some? ==> var k := |HistoryDate(deployedAt)| + 1 + |time.value|;
      k == |deployedAt| || deployedAt[k] == '.' || deployedAt[k] == 'T'
    ensures 'T' in deployedAt && time.None? ==> var k := |HistoryDate(deployedAt)| + 1;
      k == |deployedAt| || deployedAt[k] == '.' || deployedAt[k] == 'T'
  {
    var parts := Split(deployedAt, 'T');
    if |parts| > 1 then
      var t := Split(parts[1], '.')[0];
      SecondSegmentCut(deployedAt, 'T', '.');
      SecondSegmentEnd(deployedAt, 'T', '.');
      if t != "" then Some(t) else None
    else None
  }

  /** The `map` callback of `getComponentHistory`: the date and time split off, every other field copied. */
  function ToHistoryEntry(d: Deployment): (h: Deployment)
    ensures h.deployedAt == HistoryDate(d.deployedAt) && h.deployedTime == HistoryTime(d.deployedAt)
    ensures h.(deployedAt := d.deployedAt, deployedTime := d.deployedTime) == d
  {
    d.(deployedAt := HistoryDate(d.deployedAt), deployedTime := HistoryTime(d.deployedAt))
  }

  function ToHistory(deployments: seq<Deployment>): (history: seq<Deployment>)
    ensures |history| == |deployments|
    ensures forall j :: 0 <= j < |deployments| ==> history[j] == ToHistoryEntry(deployments[j])
  {
    seq(|deployments|, j requires 0 <= j < |deployments| => ToHistoryEntry(deployments[j]))
  }

  /** The history keeps length and order and copies `id`, `status`, `rn` and `envName`. */
  lemma ToHistoryKeepsEvents(deployments: seq<Deployment>)
    ensures |ToHistory(deployments)| == |deployments|
    ensures forall j :: 0 <= j < |deployments| ==>
      var h, d := ToHistory(deployments)[j], deployments[j];
      h.id == d.id && h.status == d.status && h.rn == d.rn && h.envName == d.envName
  {
  }

  /** The key `getComponentHistory` files an entry's history under. */
  function HistoryKey(e: ApiEntry): string {
    ComponentId(e.componentName, e.deployments)
  }

  /** No entry after `api[j]` among the first `n` has the same key. */
  predicate LastWithKey(api: seq<ApiEntry>, n: nat, j: nat)
    requires j < n <= |api|
  {
    forall l :: j < l < n ==> HistoryKey(api[l]) != HistoryKey(api[j])
  }

  /**
    The transform half of `getComponentHistory`: assigns each entry's history
    under its component id, so an id met again replaces the earlier list.
  */
  method GetComponentHistory(api: seq<ApiEntry>) returns (history: map<string, seq<Deployment>>)
    ensures forall id :: id in history <==> exists j :: 0 <= j < |api| && HistoryKey(api[j]) == id
    ensures forall j: nat :: j < |api| && LastWithKey(api, |api|, j) ==>
      HistoryKey(api[j]) in history && history[HistoryKey(api[j])] == ToHistory(api[j].deployments)
  {
    history := map[];
    var i := 0;
    while i < |api|
      invariant 0 <= i <= |api|
      invariant forall id :: id in history <==> exists j :: 0 <= j < i && HistoryKey(api[j]) == id
      invariant forall j: nat :: j < i && LastWithKey(api, i, j) ==>
        HistoryKey(api[j]) in history && history[HistoryKey(api[j])] == ToHistory(api[j].deployments)
    {
      var componentId := HistoryKey(api[i]);
      ghost var before := history;
      history := history[componentId := ToHistory(api[i].deployments)];
      forall j: nat | j < i + 1 && LastWithKey(api, i + 1, j)
        ensures HistoryKey(api[j]) in history && history[HistoryKey(api[j])] == ToHistory(api[j].deployments)
      {
        if j < i {
          assert HistoryKey(api[i]) != HistoryKey(api[j]);
          assert LastWithKey(api, i, j);
        }
      }
      forall id ensures id in history <==> exists j :: 0 <= j < i + 1 && HistoryKey(api[j]) == id {
        if id in before {
          var j :| 0 <= j < i && HistoryKey(api[j]) == id;
          assert 0 <= j < i + 1;
        }
        if id != componentId && exists j :: 0 <= j < i + 1 && HistoryKey(api[j]) == id {
          var j :| 0 <= j < i + 1 && HistoryKey(api[j]) == id;
          assert j < i;
        }
        if id == componentId {
          assert HistoryKey(api[i]) == id;
        }
      }
      i := i + 1;
    }
  }

  // ------------------------------------------------------------------- EIMs

  /** A decoded EIM payload: the endpoint answers with a list or with one record. */
  datatype EimPayload = EimList(eims: seq<Eim>) | SingleEim(eim: Eim)

  /** `Array.isArray(data) ? data : [data]`. */
  function GetEims(payload: EimPayload): (eims: seq<Eim>)
    ensures payload.EimList? ==> eims == payload.eims
    ensures payload.SingleEim? ==> eims == [payload.eim]
  {
    match payload
    case EimList(list) => list
    case SingleEim(e) => [e]
  }

  /**
    `searchEims`: a blank term answers `[]` without a request; otherwise the
    answer is what the search endpoint returns, given here as `fetch`.
  */
  function SearchEims(searchTerm: string, fetch: string -> seq<Eim>): seq<Eim>
  {
    if Trim(searchTerm) == "" then [] else fetch(searchTerm)
  }

  /** Blank terms, and only those, are answered locally with `[]`. */
  lemma SearchEimsBlankTerm(searchTerm: string, fetch: string -> seq<Eim>)
    ensures IsBlank(searchTerm) ==> SearchEims(searchTerm, fetch) == []
    ensures !IsBlank(searchTerm) ==> SearchEims(searchTerm, fetch) == fetch(searchTerm)
  {
    TrimEmptyIffBlank(searchTerm);
  }
}
