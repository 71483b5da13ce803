/** The two RPC handlers of the registry: `GetModelList` and `GetAvailableModels`. */
module Facade {
  import opened Registry
  import Usage

  /** The request both handlers accept: an optional client id (empty when absent) and the
      pairs the client declares it uses. */
  datatype Request = Request(clientId: ClientId, usages: seq<UsageKey>)

  /** A handler's effect: the server state after the call and the model snapshots returned. */
  datatype Reply = Reply(server: Server, models: seq<Model>)

  /** The usage-recording step both handlers share: it runs only when the request carries a
      non-empty client id and a non-empty usage list. */
  function RecordRequest(s: Server, req: Request, now: int): Server {
    if req.clientId != [] && |req.usages| > 0 then Usage.UpdateUsageCount(s, req.clientId, req.usages, now)
    else s
  }

  /** The handlers change the state only through the usage update, which keeps it valid. */
  lemma RecordRequestKeepsValid(s: Server, req: Request, now: int)
    requires Valid(s)
    ensures Valid(RecordRequest(s, req, now))
    ensures req.clientId == [] || |req.usages| == 0 ==> RecordRequest(s, req, now) == s
    ensures RecordRequest(s, req, now).models == s.models ||
            (req.clientId != [] && |req.usages| > 0)
  {
    if req.clientId != [] && |req.usages| > 0 {
      Usage.RecordKeepsValid(s, req.clientId, req.usages, now);
    }
  }

  /** `GetModelList`: after the usage step, one snapshot of every configured model, in
      configured order. */
  function GetModelList(s: Server, req: Request, now: int): (r: Reply)
    ensures r.server == RecordRequest(s, req, now)
    ensures |r.models| == |s.models|
    ensures forall i :: 0 <= i < |s.models| ==>
      r.models[i].spec == s.models[i].spec && r.models[i].status == s.models[i].status &&
      r.models[i].load == s.models[i].load
  {
    var s' := RecordRequest(s, req, now);
    Reply(s', s'.models)
  }

  /** On any valid state, the snapshot of the first model configured for a pair counts the
      pair's users as of the reply, and the snapshot of a later duplicate counts zero. */
  lemma GetModelListCounts(s: Server, req: Request, now: int)
    requires Valid(s)
    ensures var r := GetModelList(s, req, now);
      forall i :: 0 <= i < |r.models| ==>
        r.models[i].usageCount == if IsFirst(r.models, i) then |Users(r.server, KeyOf(r.models[i]))| else 0
  {
    RecordRequestKeepsValid(s, req, now);
  }

  /** The models whose status is available, in configured order. */
  function AvailableOnly(ms: seq<Model>): (r: seq<Model>)
    ensures forall m :: m in r ==> m.status == Available
    ensures forall m :: m in ms && m.status == Available ==> m in r
    ensures multiset(r) <= multiset(ms)
    ensures forall m :: multiset(r)[m] == if m.status == Available then multiset(ms)[m] else 0
  {
    if |ms| == 0 then []
    else
      var rest := AvailableOnly(ms[..|ms| - 1]);
      assert ms == ms[..|ms| - 1] + [ms[|ms| - 1]];
      if ms[|ms| - 1].status == Available then rest + [ms[|ms| - 1]] else rest
  }

  /** A single model is kept exactly when it is available. */
  lemma AvailableOnlySingle(m: Model)
    ensures AvailableOnly([m]) == if m.status == Available then [m] else []
  {
    assert [m][..0] == [];
  }

  /** Filtering keeps configured order: the filter of a concatenation is the concatenation of
      the filters. */
  lemma {:induction false} AvailableOnlyAppend(a: seq<Model>, b: seq<Model>)
    ensures AvailableOnly(a + b) == AvailableOnly(a) + AvailableOnly(b)
    decreases |b|
  {
    if |b| == 0 {
      assert a + b == a;
    } else {
      var init := b[..|b| - 1];
      var last := b[|b| - 1];
      assert (a + b)[..|a + b| - 1] == a + init;
      assert (a + b)[|a + b| - 1] == last;
      AvailableOnlyAppend(a, init);
    }
  }

  /** The models whose load is `v`, in their order in `ms`. */
  function WithLoad(ms: seq<Model>, v: int): seq<Model> {
    if |ms| == 0 then []
    else (if ms[0].load == v then [ms[0]] else []) + WithLoad(ms[1..], v)
  }

  ghost predicate SortedByLoad(ms: seq<Model>) {
    forall i, j :: 0 <= i < j < |ms| ==> ms[i].load <= ms[j].load
  }

  lemma WithLoadCons(m: Model, ms: seq<Model>, v: int)
    ensures WithLoad([m] + ms, v) == (if m.load == v then [m] else []) + WithLoad(ms, v)
  {
    assert ([m] + ms)[1..] == ms;
  }

  lemma {:induction false} WithLoadAppend(a: seq<Model>, b: seq<Model>, v: int)
    ensures WithLoad(a + b, v) == WithLoad(a, v) + WithLoad(b, v)
    decreases |a|
  {
    if |a| == 0 {
      assert a + b == b;
    } else {
      assert a + b == [a[0]] + (a[1..] + b);
      WithLoadCons(a[0], a[1..] + b, v);
      WithLoadAppend(a[1..], b, v);
    }
  }

  /** No model of `ms` has load `v`. */
  lemma {:induction false} WithLoadNone(ms: seq<Model>, v: int)
    requires forall i :: 0 <= i < |ms| ==> ms[i].load != v
    ensures WithLoad(ms, v) == []
    decreases |ms|
  {
    if |ms| > 0 {
      WithLoadNone(ms[1..], v);
    }
  }

  /** A sorted list whose first load exceeds `v` has no model of load `v`. */
  lemma SortedAbove(ms: seq<Model>, v: int)
    requires SortedByLoad(ms) && |ms| > 0 && ms[0].load > v
    ensures WithLoad(ms, v) == []
  {
    WithLoadNone(ms, v);
  }

  /** Place `x` into the sorted list `ms` after every model whose load is at most its own. */
  function InsertByLoad(ms: seq<Model>, x: Model): (r: seq<Model>)
    ensures multiset(r) == multiset(ms) + multiset{x}
  {
    if |ms| == 0 then [x]
    else if x.load < ms[0].load then [x] + ms
    else
      assert ms == [ms[0]] + ms[1..];
      [ms[0]] + InsertByLoad(ms[1..], x)
  }

  /** Every model of `InsertByLoad(ms, x)` is `x` or a model of `ms`. */
  lemma InsertByLoadFrom(ms: seq<Model>, x: Model, m: Model)
    requires m in InsertByLoad(ms, x)
    ensures m == x || m in ms
  {
    assert m in multiset(InsertByLoad(ms, x));
  }

  /** Inserting into a sorted list keeps it sorted. */
  lemma {:induction false} InsertByLoadSorted(ms: seq<Model>, x: Model)
    requires SortedByLoad(ms)
    ensures SortedByLoad(InsertByLoad(ms, x))
  {
    if |ms| > 0 && x.load >= ms[0].load {
      var rest := InsertByLoad(ms[1..], x);
      InsertByLoadSorted(ms[1..], x);
      forall i | 0 <= i < |rest|
        ensures ms[0].load <= rest[i].load
      {
        InsertByLoadFrom(ms[1..], x, rest[i]);
      }
    }
  }

  lemma SortedTail(ms: seq<Model>)
    requires SortedByLoad(ms) && |ms| > 0
    ensures SortedByLoad(ms[1..])
  {
  }

  /** `x` goes in front of a sorted list whose loads all exceed its own. */
  lemma InsertInFrontStable(ms: seq<Model>, x: Model, v: int)
    requires SortedByLoad(ms) && |ms| > 0 && x.load < ms[0].load
    ensures WithLoad([x] + ms, v) == WithLoad(ms, v) + (if x.load == v then [x] else [])
  {
    WithLoadCons(x, ms, v);
    if x.load == v {
      SortedAbove(ms, v);
    }
  }

  /** `x` goes behind the head of `ms`, into the rest. */
  lemma InsertBehindHeadStable(ms: seq<Model>, rest: seq<Model>, x: Model, v: int)
    requires |ms| > 0
    requires WithLoad(rest, v) == WithLoad(ms[1..], v) + (if x.load == v then [x] else [])
    ensures WithLoad([ms[0]] + rest, v) == WithLoad(ms, v) + (if x.load == v then [x] else [])
  {
    assert ms == [ms[0]] + ms[1..];
    WithLoadCons(ms[0], ms[1..], v);
    WithLoadCons(ms[0], rest, v);
  }

  /** Inserting `x` keeps every equal-load run of a sorted list in order and puts `x` at the
      end of its own run. */
  lemma {:induction false} InsertByLoadStable(ms: seq<Model>, x: Model, v: int)
    requires SortedByLoad(ms)
    ensures WithLoad(InsertByLoad(ms, x), v) == WithLoad(ms, v) + (if x.load == v then [x] else [])
    decreases |ms|
  {
    if |ms| == 0 {
      WithLoadCons(x, [], v);
    } else if x.load < ms[0].load {
      InsertInFrontStable(ms, x, v);
    } else {
      SortedTail(ms);
      InsertByLoadStable(ms[1..], x, v);
      InsertBehindHeadStable(ms, InsertByLoad(ms[1..], x), x, v);
    }
  }

  /** A stable insertion sort by load, as Python's `list.sort(key=lambda x: x.load)`: the
      models are inserted in input order, each after the equal-load models before it. */
  function SortByLoad(ms: seq<Model>): (r: seq<Model>)
    ensures multiset(r) == multiset(ms)
    ensures SortedByLoad(r)
  {
    if |ms| == 0 then []
    else
      var front := SortByLoad(ms[..|ms| - 1]);
      assert ms == ms[..|ms| - 1] + [ms[|ms| - 1]];
      InsertByLoadSorted(front, ms[|ms| - 1]);
      InsertByLoad(front, ms[|ms| - 1])
  }

  /** The last model of `ms` inserted into a stable sort of the others. */
  lemma InsertLastStable(ms: seq<Model>, t: seq<Model>, v: int)
    requires |ms| > 0 && SortedByLoad(t) && WithLoad(t, v) == WithLoad(ms[..|ms| - 1], v)
    ensures WithLoad(InsertByLoad(t, ms[|ms| - 1]), v) == WithLoad(ms, v)
  {
    var init, last := ms[..|ms| - 1], ms[|ms| - 1];
    InsertByLoadStable(t, last, v);
    assert ms == init + [last];
    WithLoadSnoc(init, last, v);
  }

  lemma WithLoadSnoc(init: seq<Model>, last: Model, v: int)
    ensures WithLoad(init + [last], v) == WithLoad(init, v) + (if last.load == v then [last] else [])
  {
    WithLoadAppend(init, [last], v);
    assert [last] + [] == [last];
    WithLoadCons(last, [], v);
  }

  /** Stability: for every load value the models carrying it appear in the sorted list in the
      same relative order as in the input. */
  lemma {:induction false} SortByLoadStable(ms: seq<Model>, v: int)
    ensures WithLoad(SortByLoad(ms), v) == WithLoad(ms, v)
  {
    if |ms| > 0 {
      SortByLoadStable(ms[..|ms| - 1], v);
      InsertLastStable(ms, SortByLoad(ms[..|ms| - 1]), v);
    }
  }

  /** `GetAvailableModels`: after the usage step, exactly the available models, sorted by load
      without reordering models of equal load. */
  function GetAvailableModels(s: Server, req: Request, now: int): (r: Reply)
    ensures r.server == RecordRequest(s, req, now)
    ensures forall m :: m in r.models ==> m.status == Available
    ensures multiset(r.models) == multiset(AvailableOnly(r.server.models))
    ensures SortedByLoad(r.models)
  {
    var s' := RecordRequest(s, req, now);
    var avail := AvailableOnly(s'.models);
    var sorted := SortByLoad(avail);
    assert forall m :: m in sorted ==> m.status == Available by {
      forall m | m in sorted
        ensures m.status == Available
      {
        assert m in multiset(sorted);
        assert m in avail;
      }
    }
    Reply(s', sorted)
  }

  /** Ties keep configured order: the models of any one load come out in the order in which
      they appear among the available models. */
  lemma GetAvailableModelsStable(s: Server, req: Request, now: int, v: int)
    ensures var r := GetAvailableModels(s, req, now);
      WithLoad(r.models, v) == WithLoad(AvailableOnly(r.server.models), v)
  {
    var s' := RecordRequest(s, req, now);
    SortByLoadStable(AvailableOnly(s'.models), v);
  }

  /** A list that is sorted by load and keeps every equal-load run of `ms` is the stable sort
      of `ms`: the properties above pin the reply down completely. */
  lemma StableSortUnique(ms: seq<Model>, r: seq<Model>)
    requires SortedByLoad(r)
    requires forall v :: WithLoad(r, v) == WithLoad(ms, v)
    ensures r == SortByLoad(ms)
  {
    var t := SortByLoad(ms);
    forall v ensures WithLoad(r, v) == WithLoad(t, v) {
      SortByLoadStable(ms, v);
    }
    SortedSameRunsEqual(r, t);
  }

  /** The first model of `ms` is in the run of its own load. */
  lemma WithLoadHead(ms: seq<Model>)
    requires |ms| > 0
    ensures |WithLoad(ms, ms[0].load)| > 0 && WithLoad(ms, ms[0].load)[0] == ms[0]
  {
  }

  /** Two lists sorted by load with the same equal-load runs are equal. */
  lemma {:induction false} SortedSameRunsEqual(a: seq<Model>, b: seq<Model>)
    requires SortedByLoad(a) && SortedByLoad(b)
    requires forall v :: WithLoad(a, v) == WithLoad(b, v)
    ensures a == b
    decreases |a|
  {
    if |a| == 0 {
      if |b| > 0 {
        WithLoadHead(b);
      }
    } else if |b| == 0 {
      WithLoadHead(a);
    } else if a[0].load < b[0].load {
      WithLoadHead(a);
      SortedAbove(b, a[0].load);
    } else if b[0].load < a[0].load {
      WithLoadHead(b);
      SortedAbove(a, b[0].load);
    } else {
      WithLoadHead(a);
      WithLoadHead(b);
      assert WithLoad(a, a[0].load) == WithLoad(b, a[0].load);
      assert a[0] == b[0];
      forall v ensures WithLoad(a[1..], v) == WithLoad(b[1..], v) {
        var h := if a[0].load == v then [a[0]] else [];
        assert WithLoad(a, v) == h + WithLoad(a[1..], v);
        assert WithLoad(b, v) == h + WithLoad(b[1..], v);
        assert WithLoad(a[1..], v) == WithLoad(a, v)[|h|..];
        assert WithLoad(b[1..], v) == WithLoad(b, v)[|h|..];
      }
      SortedSameRunsEqual(a[1..], b[1..]);
      assert a == [a[0]] + a[1..];
      assert b == [b[0]] + b[1..];
    }
  }
}
