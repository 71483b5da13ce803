/** The registry server's state: the configured models and the three usage maps
    (client -> pairs, pair -> clients, client -> last-active time), together with
    the invariant every locked section of the server keeps. */
module Registry {
  import opened Wrappers
  import Seqs

  type ClientId = string

  /** The (base_url, model) pair a client reports and the server indexes by. */
  datatype UsageKey = UsageKey(baseUrl: string, model: string)

  datatype Status = Unknown | Available | Unavailable

  /** Identity fields of a configured model; set at load time, never changed. */
  datatype ModelSpec = ModelSpec(name: string, modelType: string, model: string, baseUrl: string)

  /** A configured model with its runtime fields. A snapshot sent to clients is a value of
      the same shape. */
  datatype Model = Model(spec: ModelSpec, status: Status, load: int, usageCount: nat)

  function KeyOf(m: Model): UsageKey {
    UsageKey(m.spec.baseUrl, m.spec.model)
  }

  /** A freshly loaded model: status unknown, load and usage count zero. */
  function NewModel(spec: ModelSpec): Model {
    Model(spec, Unknown, 0, 0)
  }

  datatype Server = Server(
    models: seq<Model>,
    interval: int,
    clientUsage: map<ClientId, set<UsageKey>>,
    modelClients: map<UsageKey, set<ClientId>>,
    lastActive: map<ClientId, int>)

  /** The pairs client `c` uses; a missing entry reads as empty, as with Python's defaultdict. */
  function Uses(s: Server, c: ClientId): set<UsageKey> {
    if c in s.clientUsage then s.clientUsage[c] else {}
  }

  /** The clients using pair `k`; a missing entry reads as empty. */
  function Users(s: Server, k: UsageKey): set<ClientId> {
    if k in s.modelClients then s.modelClients[k] else {}
  }

  /** Model `i` is the first in configured order with its (base_url, model) pair: the one
      the server's `for m in self.models: ... break` loops update. */
  predicate IsFirst(models: seq<Model>, i: int)
    requires 0 <= i < |models|
  {
    forall j :: 0 <= j < i ==> KeyOf(models[j]) != KeyOf(models[i])
  }

  /** Index of the first model whose pair is `k`, if any. */
  function FirstMatch(models: seq<Model>, k: UsageKey): (r: Option<nat>)
    ensures r.Some? ==> r.value < |models| && KeyOf(models[r.value]) == k && IsFirst(models, r.value)
    ensures r.None? ==> forall j :: 0 <= j < |models| ==> KeyOf(models[j]) != k
  {
    Seqs.FirstIndex(models, (m: Model) => KeyOf(m) == k, 0)
  }

  /** Sets `usage_count` of the first model whose pair is `k` to `n`; no model matching is
      not an error and changes nothing. */
  function SetCount(models: seq<Model>, k: UsageKey, n: nat): (r: seq<Model>)
    ensures |r| == |models|
    ensures forall i :: 0 <= i < |models| ==>
      r[i] == if IsFirst(models, i) && KeyOf(models[i]) == k then models[i].(usageCount := n) else models[i]
  {
    match FirstMatch(models, k)
    case None => models
    case Some(i) =>
      var r := models[i := models[i].(usageCount := n)];
      assert forall j :: 0 <= j < |models| && j != i ==> !(IsFirst(models, j) && KeyOf(models[j]) == k) by {
        forall j | 0 <= j < |models| && j != i && KeyOf(models[j]) == k
          ensures !IsFirst(models, j)
        {
          assert i < j;
          assert KeyOf(models[i]) == KeyOf(models[j]);
        }
      }
      r
  }

  /** Two model lists that differ at most in their usage counts. */
  predicate OnlyCountsDiffer(a: seq<Model>, b: seq<Model>) {
    |a| == |b| &&
    forall i :: 0 <= i < |a| ==> a[i].spec == b[i].spec && a[i].status == b[i].status && a[i].load == b[i].load
  }

  /** Two model lists with the same identities in the same order. */
  predicate SameSpecs(a: seq<Model>, b: seq<Model>) {
    |a| == |b| && forall i :: 0 <= i < |a| ==> a[i].spec == b[i].spec
  }

  lemma SameSpecsSameFirst(a: seq<Model>, b: seq<Model>)
    requires SameSpecs(a, b)
    ensures forall i :: 0 <= i < |a| ==> (IsFirst(a, i) <==> IsFirst(b, i))
  {
    forall i | 0 <= i < |a|
      ensures IsFirst(a, i) <==> IsFirst(b, i)
    {
      assert forall j :: 0 <= j < |a| ==> KeyOf(a[j]) == KeyOf(b[j]);
    }
  }

  /** Bidirectional index: client `c` is among the users of `k` iff `k` is among the pairs of `c`. */
  ghost predicate Indexed(s: Server) {
    forall c, k :: c in Users(s, k) <==> k in Uses(s, c)
  }

  /** Every first-match model counts the users of its pair; a later duplicate is never
      updated and keeps its initial zero. */
  ghost predicate CountsSynced(s: Server) {
    forall i :: 0 <= i < |s.models| ==>
      s.models[i].usageCount == if IsFirst(s.models, i) then |Users(s, KeyOf(s.models[i]))| else 0
  }

  /** The invariant of the registry state between locked sections. */
  ghost predicate Valid(s: Server) {
    && Indexed(s)
    && s.clientUsage.Keys <= s.lastActive.Keys
    && CountsSynced(s)
  }

  /** The server right after loading its configuration. */
  function Init(specs: seq<ModelSpec>, interval: int): (s: Server)
    ensures |s.models| == |specs|
    ensures forall i :: 0 <= i < |specs| ==>
      s.models[i].spec == specs[i] && s.models[i].status == Unknown && s.models[i].load == 0
      && s.models[i].usageCount == 0
    ensures s.interval == interval
    ensures s.clientUsage == map[] && s.modelClients == map[] && s.lastActive == map[]
    ensures Valid(s)
  {
    Server(seq(|specs|, i requires 0 <= i < |specs| => NewModel(specs[i])), interval, map[], map[], map[])
  }
}
