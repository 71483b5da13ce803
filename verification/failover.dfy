/** The client side: a pool of registry-server addresses with one stub per address, the
    sticky "keep the current address while it answers" selection, the switch to another
    pre-built stub, the full rebuild once every stub has failed, and the cached model list. */
module Failover {
  import opened Wrappers
  import Seqs
  import Registry

  type Addr = string

  /** A stub stands for a channel to `addr` built by the `generation`-th (re)build: the
      initial build is generation 0 and every rebuild creates fresh stubs. */
  datatype Handle = Handle(addr: Addr, generation: nat)

  /** The outcome of one remote call made through a stub: success, a gRPC error, or any
      other exception. */
  datatype Call = Succeeded | RpcFailed | OtherFailed

  datatype Pool = Pool(
    addresses: seq<Addr>,
    stubs: map<Addr, Option<Handle>>,
    current: Addr,
    generation: nat,
    models: seq<Registry.Model>,
    clientId: string,
    usages: set<Registry.UsageKey>)

  /** `self.stubs.get(addr)`: a missing address reads as no stub. */
  function StubOf(p: Pool, a: Addr): Option<Handle> {
    if a in p.stubs then p.stubs[a] else None
  }

  /** The pool's invariant: a non-empty address list, one stub entry per configured address,
      every stub built for its own address by a build no later than the latest, and the
      current address one of the configured ones. */
  ghost predicate Valid(p: Pool) {
    && |p.addresses| > 0
    && p.stubs.Keys == Seqs.Elems(p.addresses)
    && p.current in p.addresses
    && forall a :: a in p.stubs && p.stubs[a].Some? ==>
         p.stubs[a].value.addr == a && p.stubs[a].value.generation <= p.generation
  }

  /** The constructor: one stub per address, the first address current, no cached models and
      no declared usages. An empty address list fails when the first address is read. */
  function NewPool(addresses: seq<Addr>, clientId: string): (r: Option<Pool>)
    ensures r.None? <==> |addresses| == 0
    ensures r.Some? ==> Valid(r.value)
    ensures r.Some? ==> && r.value.current == addresses[0] && r.value.generation == 0
                        && r.value.models == [] && r.value.usages == {} && r.value.clientId == clientId
                        && r.value.addresses == addresses
    ensures r.Some? ==> forall a :: a in addresses ==> StubOf(r.value, a) == Some(Handle(a, 0))
  {
    if |addresses| == 0 then None
    else
      var stubs := map a | a in Seqs.Elems(addresses) :: Some(Handle(a, 0));
      Some(Pool(addresses, stubs, addresses[0], 0, [], clientId, {}))
  }

  /** `add_model_usage`: record that the client uses `(baseUrl, model)`; repeats are ignored. */
  function AddModelUsage(p: Pool, baseUrl: string, model: string): (r: Pool)
    ensures r.usages == p.usages + {Registry.UsageKey(baseUrl, model)}
    ensures r.(usages := p.usages) == p
  {
    var k := Registry.UsageKey(baseUrl, model);
    if k !in p.usages then p.(usages := p.usages + {k}) else p
  }

  /** Declaring a usage twice is the same as declaring it once, and declarations commute. */
  lemma AddModelUsageIdempotentCommutes(p: Pool, b1: string, m1: string, b2: string, m2: string)
    ensures AddModelUsage(AddModelUsage(p, b1, m1), b1, m1) == AddModelUsage(p, b1, m1)
    ensures AddModelUsage(AddModelUsage(p, b1, m1), b2, m2) == AddModelUsage(AddModelUsage(p, b2, m2), b1, m1)
  {
  }

  /** What stub selection produced: a stub to use (with the pool as updated), no stub at all
      after a failed rebuild, or an exception escaping the switch loop. */
  datatype Selected =
    | Got(pool: Pool, stub: Handle)
    | NoStub(pool: Pool)
    | Raised(pool: Pool)

  /** `_rebuild_all_channels`: every address gets a fresh stub if a verifying call through it
      succeeds and none otherwise; the first address with a stub becomes current. When none
      succeeds the current address is kept and no stub is returned. */
  function Rebuild(p: Pool, verify: Addr -> bool): (r: Selected)
    ensures !r.Raised?
    ensures r.pool.generation == p.generation + 1
    ensures r.pool.addresses == p.addresses && r.pool.models == p.models
    ensures r.pool.clientId == p.clientId && r.pool.usages == p.usages
    ensures forall a :: a in p.addresses ==>
      StubOf(r.pool, a) == if verify(a) then Some(Handle(a, p.generation + 1)) else None
    ensures forall a :: a !in p.addresses ==> StubOf(r.pool, a) == StubOf(p, a)
    ensures r.Got? <==> exists i :: 0 <= i < |p.addresses| && verify(p.addresses[i])
    ensures r.Got? ==> exists i :: && 0 <= i < |p.addresses| && verify(p.addresses[i])
                                   && (forall j :: 0 <= j < i ==> !verify(p.addresses[j]))
                                   && r.pool.current == p.addresses[i]
                                   && r.stub == Handle(p.addresses[i], p.generation + 1)
    ensures r.NoStub? ==> r.pool.current == p.current
  {
    var g := p.generation + 1;
    var rebuilt := map a | a in Seqs.Elems(p.addresses) :: if verify(a) then Some(Handle(a, g)) else None;
    var q := p.(stubs := p.stubs + rebuilt, generation := g);
    match Seqs.FirstIndex(p.addresses, verify, 0)
    case None => NoStub(q)
    case Some(i) => Got(q.(current := p.addresses[i]), Handle(p.addresses[i], g))
  }

  /** Selection changes neither the address list nor the cache, the client id or the declared
      usages. */
  predicate Untouched(p: Pool, q: Pool) {
    q.addresses == p.addresses && q.models == p.models && q.clientId == p.clientId && q.usages == p.usages
  }

  /** The rebuild makes current the first address whose verifying call succeeds. */
  lemma RebuildPicksFirst(p: Pool, verify: Addr -> bool, i: nat)
    requires i < |p.addresses| && verify(p.addresses[i])
    requires forall j :: 0 <= j < i ==> !verify(p.addresses[j])
    ensures Rebuild(p, verify).Got?
    ensures Rebuild(p, verify).pool.current == p.addresses[i]
    ensures Rebuild(p, verify).stub == Handle(p.addresses[i], p.generation + 1)
  {
    var r := Rebuild(p, verify);
    var k :| && 0 <= k < |p.addresses| && verify(p.addresses[k])
             && (forall j :: 0 <= j < k ==> !verify(p.addresses[j]))
             && r.pool.current == p.addresses[k]
             && r.stub == Handle(p.addresses[k], p.generation + 1);
    assert !(k < i);
    assert !(i < k);
  }

  /** The switch loop stops at address `a`: it is not the current one, it has a stub, and the
      call through that stub did not fail with a gRPC error (it succeeded or raised). */
  predicate Stops(p: Pool, probe: Addr -> Call, a: Addr) {
    a != p.current && StubOf(p, a).Some? && probe(a) != RpcFailed
  }

  /** `for addr in self.addresses` from position `i`: skip the current address and addresses
      without a stub, try the others in order, and rebuild once the list is exhausted. */
  function SwitchFrom(p: Pool, probe: Addr -> Call, verify: Addr -> bool, i: nat): (r: Selected)
    requires i <= |p.addresses|
    ensures Untouched(p, r.pool)
    decreases |p.addresses| - i
  {
    if i == |p.addresses| then Rebuild(p, verify)
    else
      var a := p.addresses[i];
      if a == p.current then SwitchFrom(p, probe, verify, i + 1)
      else match StubOf(p, a)
        case None => SwitchFrom(p, probe, verify, i + 1)
        case Some(h) =>
          match probe(a)
          case Succeeded => Got(p.(current := a), h)
          case RpcFailed => SwitchFrom(p, probe, verify, i + 1)
          case OtherFailed => Raised(p)
  }

  /** When no address from position `i` on stops the loop, the loop ends in a rebuild. */
  lemma {:induction false} SwitchExhausted(p: Pool, probe: Addr -> Call, verify: Addr -> bool, i: nat)
    requires i <= |p.addresses|
    requires forall j :: i <= j < |p.addresses| ==> !Stops(p, probe, p.addresses[j])
    ensures SwitchFrom(p, probe, verify, i) == Rebuild(p, verify)
    decreases |p.addresses| - i
  {
    if i < |p.addresses| {
      assert !Stops(p, probe, p.addresses[i]);
      SwitchExhausted(p, probe, verify, i + 1);
    }
  }

  /** The loop ends at the first address `j` from position `i` on that stops it: it switches to
      `j` if the call succeeded and lets the exception escape otherwise. */
  lemma {:induction false} SwitchStops(p: Pool, probe: Addr -> Call, verify: Addr -> bool, i: nat, j: nat)
    requires i <= j < |p.addresses| && Stops(p, probe, p.addresses[j])
    requires forall l :: i <= l < j ==> !Stops(p, probe, p.addresses[l])
    ensures SwitchFrom(p, probe, verify, i) ==
      if probe(p.addresses[j]) == Succeeded
      then Got(p.(current := p.addresses[j]), StubOf(p, p.addresses[j]).value)
      else Raised(p)
    decreases j - i
  {
    if i < j {
      assert !Stops(p, probe, p.addresses[i]);
      SwitchStops(p, probe, verify, i + 1, j);
    }
  }

  /** The address, if any, at which the switch loop started from the front stops. */
  lemma FirstStop(p: Pool, probe: Addr -> Call) returns (j: Option<nat>)
    ensures j.None? ==> forall l :: 0 <= l < |p.addresses| ==> !Stops(p, probe, p.addresses[l])
    ensures j.Some? ==> && j.value < |p.addresses| && Stops(p, probe, p.addresses[j.value])
                        && forall l :: 0 <= l < j.value ==> !Stops(p, probe, p.addresses[l])
  {
    j := Seqs.FirstIndex(p.addresses, (a: Addr) => Stops(p, probe, a), 0);
  }

  /** `GetStub` from the front of the address list once the current stub is ruled out. */
  lemma SwitchResult(p: Pool, probe: Addr -> Call, verify: Addr -> bool) returns (j: Option<nat>)
    ensures j.None? ==> && (forall l :: 0 <= l < |p.addresses| ==> !Stops(p, probe, p.addresses[l]))
                        && SwitchFrom(p, probe, verify, 0) == Rebuild(p, verify)
    ensures j.Some? ==> && j.value < |p.addresses| && Stops(p, probe, p.addresses[j.value])
                        && SwitchFrom(p, probe, verify, 0) ==
                             if probe(p.addresses[j.value]) == Succeeded
                             then Got(p.(current := p.addresses[j.value]), StubOf(p, p.addresses[j.value]).value)
                             else Raised(p)
  {
    j := FirstStop(p, probe);
    match j
    case None => SwitchExhausted(p, probe, verify, 0);
    case Some(i) => SwitchStops(p, probe, verify, 0, i);
  }

  /** `_get_available_stub`: keep the current stub while a call through it succeeds (any
      failure moves on); otherwise switch or rebuild as `SwitchFrom` describes. `probe` gives
      the outcome of the quick call through each address's existing stub, `verify` whether the
      verifying call through a freshly built one succeeds. */
  function GetStub(p: Pool, probe: Addr -> Call, verify: Addr -> bool): (r: Selected)
    ensures Untouched(p, r.pool)
    ensures StubOf(p, p.current).Some? && probe(p.current) == Succeeded ==>
      r == Got(p, StubOf(p, p.current).value)
  {
    var cur := StubOf(p, p.current);
    if cur.Some? && probe(p.current) == Succeeded then Got(p, cur.value)
    else SwitchFrom(p, probe, verify, 0)
  }

  /** Selection never leaves the pool's invariant. */
  lemma GetStubKeepsValid(p: Pool, probe: Addr -> Call, verify: Addr -> bool)
    requires Valid(p)
    ensures Valid(GetStub(p, probe, verify).pool)
  {
    var r := GetStub(p, probe, verify);
    if !(StubOf(p, p.current).Some? && probe(p.current) == Succeeded) {
      var first := SwitchResult(p, probe, verify);
      match first
      case None =>
        RebuildKeepsValid(p, verify);
      case Some(j) =>
        assert r == SwitchFrom(p, probe, verify, 0);
        SwitchKeepsValid(p, p.addresses[j]);
    }
  }

  lemma SwitchKeepsValid(p: Pool, a: Addr)
    requires Valid(p) && a in p.addresses
    ensures Valid(p.(current := a))
  {
  }

  lemma RebuildKeepsValid(p: Pool, verify: Addr -> bool)
    requires Valid(p)
    ensures Valid(Rebuild(p, verify).pool)
  {
    var q := Rebuild(p, verify).pool;
    assert q.stubs.Keys == Seqs.Elems(p.addresses);
    forall a | a in q.stubs && q.stubs[a].Some?
      ensures q.stubs[a].value.addr == a && q.stubs[a].value.generation <= q.generation
    {
      assert StubOf(q, a) == q.stubs[a];
    }
  }

  /** The address the selected stub belongs to is the pool's current address afterwards. */
  lemma SelectedIsCurrent(p: Pool, probe: Addr -> Call, verify: Addr -> bool)
    requires Valid(p)
    ensures var r := GetStub(p, probe, verify);
      r.Got? ==> r.stub.addr == r.pool.current && StubOf(r.pool, r.pool.current) == Some(r.stub)
  {
    var r := GetStub(p, probe, verify);
    if !(StubOf(p, p.current).Some? && probe(p.current) == Succeeded) {
      var first := SwitchResult(p, probe, verify);
      match first
      case None =>
      case Some(j) =>
        assert p.addresses[j] in p.stubs;
    }
  }

  /** When the current stub fails, the first other address (in configured order) whose call
      succeeds becomes current, provided every address before it has no stub or failed with a
      gRPC error. */
  lemma SwitchPicksFirstAnswering(p: Pool, probe: Addr -> Call, verify: Addr -> bool, j: nat)
    requires !(StubOf(p, p.current).Some? && probe(p.current) == Succeeded)
    requires j < |p.addresses| && Stops(p, probe, p.addresses[j]) && probe(p.addresses[j]) == Succeeded
    requires forall l :: 0 <= l < j ==> !Stops(p, probe, p.addresses[l])
    ensures GetStub(p, probe, verify) == Got(p.(current := p.addresses[j]), StubOf(p, p.addresses[j]).value)
  {
    SwitchStops(p, probe, verify, 0, j);
  }

  /** A rebuild happens exactly when the current stub is missing or failed and every other
      address either has no stub or failed with a gRPC error. */
  lemma RebuildOnlyWhenExhausted(p: Pool, probe: Addr -> Call, verify: Addr -> bool)
    ensures GetStub(p, probe, verify).pool.generation != p.generation <==>
      && !(StubOf(p, p.current).Some? && probe(p.current) == Succeeded)
      && forall j :: 0 <= j < |p.addresses| ==> !Stops(p, probe, p.addresses[j])
  {
    if !(StubOf(p, p.current).Some? && probe(p.current) == Succeeded) {
      var first := SwitchResult(p, probe, verify);
      match first
      case None =>
      case Some(j) =>
    }
  }

  /** Without a rebuild the stubs are never replaced: a dead stub left by the last rebuild
      stays dead until every address has failed again. */
  lemma StubsOnlyChangeOnRebuild(p: Pool, probe: Addr -> Call, verify: Addr -> bool)
    ensures var r := GetStub(p, probe, verify);
      r.pool.generation == p.generation ==> r.pool == p.(current := r.pool.current)
  {
    if !(StubOf(p, p.current).Some? && probe(p.current) == Succeeded) {
      var first := SwitchResult(p, probe, verify);
      match first
      case None =>
      case Some(j) =>
    }
  }

  /** The reply of `get_available_models` as seen by its caller. */
  datatype FetchOutcome = Returned(models: seq<Registry.Model>) | Failed

  datatype Fetched = Fetched(pool: Pool, outcome: FetchOutcome)

  /** `get_available_models`: select a stub; with none, return an empty list and keep the
      cache; otherwise send the client id and every declared usage. `reply` is the server's
      answer, None when the call raises: the cache is replaced only on success, and a failure
      is re-raised with the cache untouched. */
  function FetchModels(p: Pool, probe: Addr -> Call, verify: Addr -> bool,
                       reply: Option<seq<Registry.Model>>): (r: Fetched)
    ensures var sel := GetStub(p, probe, verify);
      && r.pool.(models := p.models) == sel.pool.(models := p.models)
      && (sel.NoStub? ==> r.outcome == Returned([]) && r.pool.models == p.models)
      && (sel.Raised? ==> r.outcome == Failed && r.pool.models == p.models)
      && (sel.Got? && reply.Some? ==> r.outcome == Returned(reply.value) && r.pool.models == reply.value)
      && (sel.Got? && reply.None? ==> r.outcome == Failed && r.pool.models == p.models)
  {
    var sel := GetStub(p, probe, verify);
    match sel
    case Raised(q) => Fetched(q, Failed)
    case NoStub(q) => Fetched(q, Returned([]))
    case Got(q, _) =>
      match reply
      case Some(ms) => Fetched(q.(models := ms), Returned(ms))
      case None => Fetched(q, Failed)
  }

  /** A fetch through a stub that is selected and answered: only such a fetch reaches the
      cache. */
  predicate Served(p: Pool, probe: Addr -> Call, verify: Addr -> bool, reply: Option<seq<Registry.Model>>) {
    GetStub(p, probe, verify).Got? && reply.Some?
  }

  /** Over two fetches the cache holds the list of the later one a server answered, or the
      original cache when neither was answered: an empty list returned for want of a stub
      and a failed call never overwrite it. */
  lemma CacheIsLastServed(p: Pool, probe1: Addr -> Call, verify1: Addr -> bool, reply1: Option<seq<Registry.Model>>,
                          probe2: Addr -> Call, verify2: Addr -> bool, reply2: Option<seq<Registry.Model>>)
    ensures var f1 := FetchModels(p, probe1, verify1, reply1);
      var f2 := FetchModels(f1.pool, probe2, verify2, reply2);
      f2.pool.models ==
        if Served(f1.pool, probe2, verify2, reply2) then reply2.value
        else if Served(p, probe1, verify1, reply1) then reply1.value
        else p.models
  {
  }

  /** A fetch keeps the pool invariant. */
  lemma FetchKeepsValid(p: Pool, probe: Addr -> Call, verify: Addr -> bool, reply: Option<seq<Registry.Model>>)
    requires Valid(p)
    ensures Valid(FetchModels(p, probe, verify, reply).pool)
  {
    GetStubKeepsValid(p, probe, verify);
  }

  /** Two servers, "a" current. When "a" fails and "b" answers, the client switches to "b"
      without rebuilding. */
  lemma SwitchToSecondary()
    ensures var p := NewPool(["a", "b"], "c1").value;
      var probe := (a: Addr) => if a == "a" then RpcFailed else Succeeded;
      var verify := (a: Addr) => true;
      GetStub(p, probe, verify) == Got(p.(current := "b"), Handle("b", 0))
  {
    var p := NewPool(["a", "b"], "c1").value;
    var probe := (a: Addr) => if a == "a" then RpcFailed else Succeeded;
    assert p.addresses[1] == "b" && StubOf(p, "b") == Some(Handle("b", 0));
    assert Stops(p, probe, p.addresses[1]);
    assert !Stops(p, probe, p.addresses[0]);
    SwitchStops(p, probe, (a: Addr) => true, 0, 1);
  }

  /** Two servers with "b" current, and both fail: the rebuild keeps a stub only for "a",
      which answers the verifying call, and makes it current. */
  lemma RebuildAfterBothFail(p: Pool, a: Addr, b: Addr)
    requires p.addresses == [a, b] && a != b && p.current == b
    ensures var r := GetStub(p, (x: Addr) => RpcFailed, (x: Addr) => x == a);
      && r.Got? && r.stub == Handle(a, p.generation + 1) && r.pool.current == a
      && StubOf(r.pool, b) == None
  {
    var down := (x: Addr) => RpcFailed;
    var onlyA := (x: Addr) => x == a;
    assert !Stops(p, down, p.addresses[0]) && !Stops(p, down, p.addresses[1]);
    SwitchExhausted(p, down, onlyA, 0);
    RebuildPicksFirst(p, onlyA, 0);
    assert b in p.addresses && !onlyA(b);
  }

  /** Once the current address fails and every other address lost its stub in the last
      rebuild, the next selection rebuilds at once: no dead stub is ever probed. */
  lemma DeadStubsForceRebuild(p: Pool, probe: Addr -> Call, verify: Addr -> bool)
    requires probe(p.current) != Succeeded
    requires forall a :: a in p.addresses && a != p.current ==> StubOf(p, a) == None
    ensures GetStub(p, probe, verify) == Rebuild(p, verify)
  {
    assert forall j :: 0 <= j < |p.addresses| ==> !Stops(p, probe, p.addresses[j]);
    SwitchExhausted(p, probe, verify, 0);
  }
}
