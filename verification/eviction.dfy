/** The eviction pass run once per health-check cycle: every client idle for longer than
    three intervals is removed from all three maps and the counts it contributed to are
    recomputed. */
module Eviction {
  import opened Registry

  /** The clients the pass looks at: those whose last activity is strictly more than three
      intervals before `now`. */
  function Inactive(s: Server, now: int): set<ClientId> {
    set c | c in s.lastActive && now - s.lastActive[c] > 3 * s.interval
  }

  /** The clients the pass deletes: inactive ones that also have a usage entry. An inactive
      client without one keeps its timestamp. */
  function Stale(s: Server, now: int): set<ClientId> {
    Inactive(s, now) * s.clientUsage.Keys
  }

  /** The innermost step: take client `c` out of the users of `k` and set the first matching
      model's count to the remaining number of users. */
  function DropUser(s: Server, c: ClientId, k: UsageKey): Server {
    if c in Users(s, k) then
      var users := Users(s, k) - {c};
      s.(modelClients := s.modelClients[k := users], models := SetCount(s.models, k, |users|))
    else s
  }

  /** What removing one client does: it leaves the forward index (and, if it was there, the
      timestamp map), it leaves the user set of every pair it used, and the first model of each
      such pair it was a user of is recounted. */
  ghost predicate Evicted(s: Server, c: ClientId, r: Server) {
    && r.interval == s.interval
    && r.clientUsage == s.clientUsage - {c}
    && r.lastActive == (if c in s.clientUsage then s.lastActive - {c} else s.lastActive)
    && (forall k :: Users(r, k) == if k in Uses(s, c) then Users(s, k) - {c} else Users(s, k))
    && OnlyCountsDiffer(r.models, s.models)
    && forall i :: 0 <= i < |s.models| ==>
         r.models[i].usageCount ==
           if IsFirst(s.models, i) && KeyOf(s.models[i]) in Uses(s, c) && c in Users(s, KeyOf(s.models[i]))
           then |Users(r, KeyOf(s.models[i]))|
           else s.models[i].usageCount
  }

  lemma OnlyCountsSameSpecs(a: seq<Model>, b: seq<Model>)
    requires OnlyCountsDiffer(a, b)
    ensures SameSpecs(a, b) && SameSpecs(b, a)
  {
  }

  /** Client `c` has been taken out of the user sets of the pairs in `done` (and nothing else
      has changed yet). */
  ghost predicate Dropped(s: Server, c: ClientId, done: set<UsageKey>, r: Server) {
    && r.interval == s.interval && r.clientUsage == s.clientUsage && r.lastActive == s.lastActive
    && (forall k :: Users(r, k) == if k in done then Users(s, k) - {c} else Users(s, k))
    && OnlyCountsDiffer(r.models, s.models)
    && forall i :: 0 <= i < |s.models| ==>
         r.models[i].usageCount ==
           if IsFirst(s.models, i) && KeyOf(s.models[i]) in done && c in Users(s, KeyOf(s.models[i]))
           then |Users(r, KeyOf(s.models[i]))|
           else s.models[i].usageCount
  }

  lemma DropUserUsers(s: Server, c: ClientId, done: set<UsageKey>, r: Server, k: UsageKey)
    requires forall k' :: Users(r, k') == if k' in done then Users(s, k') - {c} else Users(s, k')
    requires k !in done
    ensures var r' := DropUser(r, c, k);
      forall k' :: Users(r', k') == if k' in done + {k} then Users(s, k') - {c} else Users(s, k')
  {
    var r' := DropUser(r, c, k);
    forall k' ensures Users(r', k') == if k' in done + {k} then Users(s, k') - {c} else Users(s, k') {
      if k' != k {
        assert Users(r', k') == Users(r, k');
      }
    }
  }

  lemma DropUserCounts(s: Server, c: ClientId, done: set<UsageKey>, r: Server, k: UsageKey)
    requires Dropped(s, c, done, r) && k !in done
    ensures var r' := DropUser(r, c, k);
      && OnlyCountsDiffer(r'.models, s.models)
      && forall i :: 0 <= i < |s.models| ==>
         r'.models[i].usageCount ==
           if IsFirst(s.models, i) && KeyOf(s.models[i]) in done + {k} && c in Users(s, KeyOf(s.models[i]))
           then |Users(r', KeyOf(s.models[i]))|
           else s.models[i].usageCount
  {
    var r' := DropUser(r, c, k);
    DropUserUsers(s, c, done, r, k);
    if c in Users(r, k) {
      OnlyCountsSameSpecs(r.models, s.models);
      SameSpecsSameFirst(r.models, s.models);
      var users := Users(r, k) - {c};
      assert r'.models == SetCount(r.models, k, |users|);
      forall i | 0 <= i < |s.models|
        ensures r'.models[i].usageCount ==
           if IsFirst(s.models, i) && KeyOf(s.models[i]) in done + {k} && c in Users(s, KeyOf(s.models[i]))
           then |Users(r', KeyOf(s.models[i]))|
           else s.models[i].usageCount
      {
        assert KeyOf(r.models[i]) == KeyOf(s.models[i]);
      }
    } else {
      assert c !in Users(s, k);
    }
  }

  lemma DropUserStep(s: Server, c: ClientId, done: set<UsageKey>, r: Server, k: UsageKey)
    requires Dropped(s, c, done, r) && k !in done
    ensures Dropped(s, c, done + {k}, DropUser(r, c, k))
  {
    DropUserUsers(s, c, done, r, k);
    DropUserCounts(s, c, done, r, k);
  }

  /** The per-client step of `_cleanup_inactive_clients`: the client's pairs are visited one
      by one. */
  method EvictClient(s: Server, c: ClientId) returns (r: Server)
    ensures Evicted(s, c, r)
  {
    r := s;
    if c !in s.clientUsage {
      return;
    }
    var keys := s.clientUsage[c];
    var todo := keys;
    while todo != {}
      invariant todo <= keys
      invariant Dropped(s, c, keys - todo, r)
      decreases todo
    {
      var k :| k in todo;
      DropUserStep(s, c, keys - todo, r, k);
      r := DropUser(r, c, k);
      assert keys - (todo - {k}) == (keys - todo) + {k};
      todo := todo - {k};
    }
    assert keys - todo == Uses(s, c);
    r := r.(clientUsage := r.clientUsage - {c}, lastActive := r.lastActive - {c});
  }

  /** On a valid state, removing a client keeps the state valid and takes the client out of
      every user set. */
  lemma EvictedKeepsValid(s: Server, c: ClientId, r: Server)
    requires Valid(s) && Evicted(s, c, r)
    ensures Valid(r)
    ensures forall k :: Users(r, k) == Users(s, k) - {c}
  {
    forall k
      ensures Users(r, k) == Users(s, k) - {c}
    {
      if k !in Uses(s, c) {
        assert c !in Users(s, k);
      }
    }
    assert Indexed(r) by {
      forall x, k
        ensures x in Users(r, k) <==> k in Uses(r, x)
      {
        assert x in Users(s, k) <==> k in Uses(s, x);
      }
    }
    OnlyCountsSameSpecs(r.models, s.models);
    SameSpecsSameFirst(r.models, s.models);
    forall i | 0 <= i < |r.models|
      ensures r.models[i].usageCount == if IsFirst(r.models, i) then |Users(r, KeyOf(r.models[i]))| else 0
    {
      var key := KeyOf(s.models[i]);
      assert KeyOf(r.models[i]) == key;
      if key in Uses(s, c) {
        assert c in Users(s, key);
      }
    }
  }

  /** The clients in `done` have been removed from `s`, one by one. */
  ghost predicate PartlyEvicted(s: Server, done: set<ClientId>, r: Server) {
    && r.interval == s.interval
    && r.clientUsage == s.clientUsage - done
    && r.lastActive == s.lastActive - done * s.clientUsage.Keys
    && OnlyCountsDiffer(r.models, s.models)
    && (Valid(s) ==> Valid(r) && forall k :: Users(r, k) == Users(s, k) - done)
  }

  lemma EvictStep(s: Server, done: set<ClientId>, prev: Server, c: ClientId, r: Server)
    requires PartlyEvicted(s, done, prev) && c !in done && Evicted(prev, c, r)
    ensures PartlyEvicted(s, done + {c}, r)
  {
    assert r.clientUsage == s.clientUsage - (done + {c});
    assert c in prev.clientUsage <==> c in s.clientUsage;
    assert r.lastActive == s.lastActive - (done + {c}) * s.clientUsage.Keys;
    if Valid(s) {
      EvictedKeepsValid(prev, c, r);
    }
  }

  /** `_cleanup_inactive_clients` at time `now`: every inactive client that has a usage entry
      is deleted from the forward index, from the timestamp map and from every user set; all
      other clients' entries are untouched. */
  method Evict(s: Server, now: int) returns (r: Server)
    ensures r.interval == s.interval
    ensures r.clientUsage == s.clientUsage - Stale(s, now)
    ensures r.lastActive == s.lastActive - Stale(s, now)
    ensures OnlyCountsDiffer(r.models, s.models)
    ensures Valid(s) ==> Valid(r)
    ensures Valid(s) ==> forall k :: Users(r, k) == Users(s, k) - Stale(s, now)
  {
    var inactive := Inactive(s, now);
    var todo := inactive;
    r := s;
    while todo != {}
      invariant todo <= inactive
      invariant PartlyEvicted(s, inactive - todo, r)
      decreases todo
    {
      var c :| c in todo;
      var prev := r;
      r := EvictClient(r, c);
      EvictStep(s, inactive - todo, prev, c, r);
      assert inactive - (todo - {c}) == (inactive - todo) + {c};
      todo := todo - {c};
    }
    EvictAll(s, now, r);
  }

  lemma EvictAll(s: Server, now: int, r: Server)
    requires PartlyEvicted(s, Inactive(s, now), r)
    ensures r.clientUsage == s.clientUsage - Stale(s, now)
    ensures r.lastActive == s.lastActive - Stale(s, now)
    ensures Valid(s) ==> forall k :: Users(r, k) == Users(s, k) - Stale(s, now)
  {
    if Valid(s) {
      forall k
        ensures Users(r, k) == Users(s, k) - Stale(s, now)
      {
        forall x | x in Users(s, k)
          ensures x in s.clientUsage
        {
          assert k in Uses(s, x);
        }
      }
    }
  }
}
