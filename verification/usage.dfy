/** The usage tracker: recording which client uses which (base_url, model) pair and keeping
    each model's `usage_count` equal to the number of its users. */
module Usage {
  import opened Wrappers
  import Seqs
  import opened Registry

  /** The reverse index after client `c` joins the user set of every pair in `ks`. */
  function Enrol(mc: map<UsageKey, set<ClientId>>, c: ClientId, ks: set<UsageKey>): map<UsageKey, set<ClientId>> {
    mc + map k | k in ks :: (if k in mc then mc[k] else {}) + {c}
  }

  lemma EnrolNothing(mc: map<UsageKey, set<ClientId>>, c: ClientId)
    ensures Enrol(mc, c, {}) == mc
  {
    var e := Enrol(mc, c, {});
    assert e.Keys == mc.Keys;
    assert forall k | k in mc :: e[k] == mc[k];
  }

  lemma EnrolTwice(mc: map<UsageKey, set<ClientId>>, c: ClientId, a: set<UsageKey>, b: set<UsageKey>)
    ensures Enrol(Enrol(mc, c, a), c, b) == Enrol(mc, c, a + b)
  {
    var e1 := Enrol(Enrol(mc, c, a), c, b);
    var e2 := Enrol(mc, c, a + b);
    assert e1.Keys == e2.Keys;
    assert forall k | k in e1 :: e1[k] == e2[k];
  }

  lemma EnrolOne(mc: map<UsageKey, set<ClientId>>, c: ClientId, k: UsageKey)
    ensures mc[k := (if k in mc then mc[k] else {}) + {c}] == Enrol(mc, c, {k})
  {
    var e := Enrol(mc, c, {k});
    var f := mc[k := (if k in mc then mc[k] else {}) + {c}];
    assert e.Keys == f.Keys;
    assert forall k' | k' in e :: e[k'] == f[k'];
  }

  lemma UsersEnrolled(s: Server, r: Server, c: ClientId, a: set<UsageKey>)
    requires r.modelClients == Enrol(s.modelClients, c, a)
    ensures forall k :: Users(r, k) == Users(s, k) + (if k in a then {c} else {})
  {
  }

  /** One iteration of the loop over `model_usages`: a pair the client already has is
      skipped; a new one goes into both indices and the first matching model's count is
      set to the new number of users. */
  function AddUsage(s: Server, c: ClientId, k: UsageKey): Server {
    if k in Uses(s, c) then s
    else
      var users := Users(s, k) + {c};
      s.(clientUsage := s.clientUsage[c := Uses(s, c) + {k}],
         modelClients := s.modelClients[k := users],
         models := SetCount(s.models, k, |users|))
  }

  /** The loop over `model_usages`, in request order. */
  function AddUsages(s: Server, c: ClientId, ks: seq<UsageKey>): Server
    decreases |ks|
  {
    if |ks| == 0 then s else AddUsages(AddUsage(s, c, ks[0]), c, ks[1..])
  }

  /** The model list once client `c` newly uses the pairs in `added`. */
  ghost predicate Recounted(s: Server, c: ClientId, added: set<UsageKey>, models: seq<Model>) {
    |models| == |s.models| &&
    forall i :: 0 <= i < |s.models| ==>
      models[i] == if IsFirst(s.models, i) && KeyOf(s.models[i]) in added
                   then s.models[i].(usageCount := |Users(s, KeyOf(s.models[i])) + {c}|)
                   else s.models[i]
  }

  /** One step of the loop, in closed form: the forward index. */
  lemma AddUsageStepForward(s: Server, c: ClientId, k: UsageKey)
    ensures var s1 := AddUsage(s, c, k);
      && s1.interval == s.interval
      && s1.lastActive == s.lastActive
      && s1.clientUsage == s.clientUsage[c := Uses(s, c) + {k}]
      && Uses(s1, c) == Uses(s, c) + {k}
  {
    if k in Uses(s, c) {
      assert Uses(s, c) + {k} == s.clientUsage[c];
    }
  }

  /** One step of the loop, in closed form: the reverse index. */
  lemma AddUsageStepReverse(s: Server, c: ClientId, k: UsageKey)
    ensures AddUsage(s, c, k).modelClients == Enrol(s.modelClients, c, {k} - Uses(s, c))
  {
    if k in Uses(s, c) {
      assert {k} - Uses(s, c) == {};
      EnrolNothing(s.modelClients, c);
    } else {
      assert {k} - Uses(s, c) == {k};
      EnrolOne(s.modelClients, c, k);
    }
  }

  /** One step of the loop, in closed form: the counts. */
  lemma AddUsageStepRecount(s: Server, c: ClientId, k: UsageKey)
    ensures Recounted(s, c, {k} - Uses(s, c), AddUsage(s, c, k).models)
  {
    if k !in Uses(s, c) {
      assert {k} - Uses(s, c) == {k};
    }
  }

  /** Two recounts in a row, for disjoint sets of newly used pairs, are one recount. */
  lemma RecountedTwice(s: Server, s1: Server, c: ClientId, a: set<UsageKey>, b: set<UsageKey>, models: seq<Model>)
    requires a !! b
    requires Recounted(s, c, a, s1.models)
    requires s1.modelClients == Enrol(s.modelClients, c, a)
    requires Recounted(s1, c, b, models)
    ensures Recounted(s, c, a + b, models)
  {
    SameSpecsSameFirst(s.models, s1.models);
    forall i | 0 <= i < |s.models|
      ensures models[i] == if IsFirst(s.models, i) && KeyOf(s.models[i]) in a + b
                           then s.models[i].(usageCount := |Users(s, KeyOf(s.models[i])) + {c}|)
                           else s.models[i]
    {
      var key := KeyOf(s.models[i]);
      assert KeyOf(s1.models[i]) == key;
      if key in b {
        assert key !in a;
        assert Users(s1, key) == Users(s, key);
      }
    }
  }

  lemma ElemsCons(ks: seq<UsageKey>)
    requires |ks| > 0
    ensures Seqs.Elems(ks) == {ks[0]} + Seqs.Elems(ks[1..])
  {
    assert ks == [ks[0]] + ks[1..];
  }

  lemma {:induction false} AddUsagesOwnPairs(s: Server, c: ClientId, ks: seq<UsageKey>)
    ensures var r := AddUsages(s, c, ks);
      && r.interval == s.interval
      && r.lastActive == s.lastActive
      && Uses(r, c) == Uses(s, c) + Seqs.Elems(ks)
    decreases |ks|
  {
    if |ks| == 0 {
      assert Seqs.Elems(ks) == {};
    } else {
      AddUsageStepForward(s, c, ks[0]);
      AddUsagesOwnPairs(AddUsage(s, c, ks[0]), c, ks[1..]);
      ElemsCons(ks);
    }
  }

  lemma {:induction false} AddUsagesOthers(s: Server, c: ClientId, ks: seq<UsageKey>)
    ensures |ks| > 0 ==> AddUsages(s, c, ks).clientUsage == s.clientUsage[c := Uses(AddUsages(s, c, ks), c)]
    decreases |ks|
  {
    if |ks| > 0 {
      var s1 := AddUsage(s, c, ks[0]);
      AddUsageStepForward(s, c, ks[0]);
      AddUsagesOthers(s1, c, ks[1..]);
      if |ks| > 1 {
        var r := AddUsages(s1, c, ks[1..]);
        assert r == AddUsages(s, c, ks);
        assert r.clientUsage == s1.clientUsage[c := Uses(r, c)];
      }
    }
  }

  /** Two enrolments of `c`, one for the first pair of `ks` and one for the rest, are one
      enrolment for all of `ks`. */
  lemma ReverseCombine(s: Server, s1: Server, c: ClientId, ks: seq<UsageKey>, mc: map<UsageKey, set<ClientId>>)
    requires |ks| > 0
    requires Uses(s1, c) == Uses(s, c) + {ks[0]}
    requires s1.modelClients == Enrol(s.modelClients, c, {ks[0]} - Uses(s, c))
    requires mc == Enrol(s1.modelClients, c, Seqs.Elems(ks[1..]) - Uses(s1, c))
    ensures mc == Enrol(s.modelClients, c, Seqs.Elems(ks) - Uses(s, c))
  {
    var new0 := {ks[0]} - Uses(s, c);
    var added1 := Seqs.Elems(ks[1..]) - Uses(s1, c);
    ElemsCons(ks);
    assert Seqs.Elems(ks) - Uses(s, c) == new0 + added1;
    EnrolTwice(s.modelClients, c, new0, added1);
  }

  lemma {:induction false} AddUsagesReverse(s: Server, c: ClientId, ks: seq<UsageKey>)
    ensures AddUsages(s, c, ks).modelClients == Enrol(s.modelClients, c, Seqs.Elems(ks) - Uses(s, c))
    decreases |ks|
  {
    if |ks| == 0 {
      assert Seqs.Elems(ks) - Uses(s, c) == {};
      EnrolNothing(s.modelClients, c);
    } else {
      var s1 := AddUsage(s, c, ks[0]);
      AddUsageStepForward(s, c, ks[0]);
      AddUsageStepReverse(s, c, ks[0]);
      AddUsagesReverse(s1, c, ks[1..]);
      ReverseCombine(s, s1, c, ks, AddUsages(s1, c, ks[1..]).modelClients);
    }
  }

  /** Two recounts, one for the first pair of `ks` and one for the rest, are one recount for
      all of `ks`. */
  lemma RecountCombine(s: Server, s1: Server, c: ClientId, ks: seq<UsageKey>, models: seq<Model>)
    requires |ks| > 0
    requires Uses(s1, c) == Uses(s, c) + {ks[0]}
    requires s1.modelClients == Enrol(s.modelClients, c, {ks[0]} - Uses(s, c))
    requires Recounted(s, c, {ks[0]} - Uses(s, c), s1.models)
    requires Recounted(s1, c, Seqs.Elems(ks[1..]) - Uses(s1, c), models)
    ensures Recounted(s, c, Seqs.Elems(ks) - Uses(s, c), models)
  {
    var new0 := {ks[0]} - Uses(s, c);
    var added1 := Seqs.Elems(ks[1..]) - Uses(s1, c);
    ElemsCons(ks);
    assert Seqs.Elems(ks) - Uses(s, c) == new0 + added1;
    RecountedTwice(s, s1, c, new0, added1, models);
  }

  lemma {:induction false} AddUsagesRecount(s: Server, c: ClientId, ks: seq<UsageKey>)
    ensures Recounted(s, c, Seqs.Elems(ks) - Uses(s, c), AddUsages(s, c, ks).models)
    decreases |ks|
  {
    if |ks| == 0 {
      assert Seqs.Elems(ks) - Uses(s, c) == {};
    } else {
      var s1 := AddUsage(s, c, ks[0]);
      AddUsageStepForward(s, c, ks[0]);
      AddUsageStepReverse(s, c, ks[0]);
      AddUsageStepRecount(s, c, ks[0]);
      AddUsagesRecount(s1, c, ks[1..]);
      RecountCombine(s, s1, c, ks, AddUsages(s1, c, ks[1..]).models);
    }
  }

  /** `_update_usage_count`: refresh the client's last-active time, then (unless the list is
      empty) record every pair of the request. */
  function UpdateUsageCount(s: Server, c: ClientId, ks: seq<UsageKey>, now: int): (r: Server)
    ensures r.interval == s.interval
    ensures r.lastActive == s.lastActive[c := now]
    ensures r.clientUsage == if |ks| == 0 then s.clientUsage else s.clientUsage[c := Uses(s, c) + Seqs.Elems(ks)]
    ensures r.modelClients == Enrol(s.modelClients, c, Seqs.Elems(ks) - Uses(s, c))
    ensures Recounted(s, c, Seqs.Elems(ks) - Uses(s, c), r.models)
  {
    var s0 := s.(lastActive := s.lastActive[c := now]);
    if |ks| == 0 then
      assert Seqs.Elems(ks) == {};
      EnrolNothing(s.modelClients, c);
      s0
    else
      AddUsagesOwnPairs(s0, c, ks);
      AddUsagesOthers(s0, c, ks);
      AddUsagesReverse(s0, c, ks);
      AddUsagesRecount(s0, c, ks);
      AddUsages(s0, c, ks)
  }

  /** The index facts behind `RecordKeepsIndexed`, stated over any state with the recorded
      indices. */
  lemma IndexedAfterRecord(s: Server, r: Server, c: ClientId, ks: seq<UsageKey>)
    requires Indexed(s)
    requires r.clientUsage == if |ks| == 0 then s.clientUsage else s.clientUsage[c := Uses(s, c) + Seqs.Elems(ks)]
    requires r.modelClients == Enrol(s.modelClients, c, Seqs.Elems(ks) - Uses(s, c))
    ensures Indexed(r)
  {
    var added := Seqs.Elems(ks) - Uses(s, c);
    UsersEnrolled(s, r, c, added);
    if |ks| == 0 {
      assert added == {};
    }
    forall x, k
      ensures x in Users(r, k) <==> k in Uses(r, x)
    {
      assert x in Users(s, k) <==> k in Uses(s, x);
    }
  }

  lemma RecordKeepsIndexed(s: Server, c: ClientId, ks: seq<UsageKey>, now: int)
    requires Indexed(s)
    ensures Indexed(UpdateUsageCount(s, c, ks, now))
  {
    IndexedAfterRecord(s, UpdateUsageCount(s, c, ks, now), c, ks);
  }

  lemma RecordKeepsCounts(s: Server, c: ClientId, ks: seq<UsageKey>, now: int)
    requires CountsSynced(s)
    ensures CountsSynced(UpdateUsageCount(s, c, ks, now))
  {
    var r := UpdateUsageCount(s, c, ks, now);
    var added := Seqs.Elems(ks) - Uses(s, c);
    UsersEnrolled(s, r, c, added);
    SameSpecsSameFirst(s.models, r.models);
    forall i | 0 <= i < |r.models|
      ensures r.models[i].usageCount == if IsFirst(r.models, i) then |Users(r, KeyOf(r.models[i]))| else 0
    {
      var key := KeyOf(s.models[i]);
      assert KeyOf(r.models[i]) == key;
    }
  }

  /** Recording touches usage counts only: every model keeps its identity, status and load. */
  lemma RecordOnlyCounts(s: Server, c: ClientId, ks: seq<UsageKey>, now: int)
    ensures OnlyCountsDiffer(UpdateUsageCount(s, c, ks, now).models, s.models)
  {
  }

  /** Recording usage keeps the bidirectional index, the key inclusion and the counts. */
  lemma RecordKeepsValid(s: Server, c: ClientId, ks: seq<UsageKey>, now: int)
    requires Valid(s)
    ensures Valid(UpdateUsageCount(s, c, ks, now))
  {
    RecordKeepsIndexed(s, c, ks, now);
    RecordKeepsCounts(s, c, ks, now);
  }

  /** The first model configured for a newly recorded pair counts exactly the pair's users,
      whatever state the server was in. */
  lemma RecordSyncsFirstMatch(s: Server, c: ClientId, ks: seq<UsageKey>, now: int, k: UsageKey)
    requires k in ks && k !in Uses(s, c)
    ensures var r := UpdateUsageCount(s, c, ks, now);
      && c in Users(r, k)
      && k in Uses(r, c)
      && (FirstMatch(r.models, k).Some? ==>
            r.models[FirstMatch(r.models, k).value].usageCount == |Users(r, k)|)
  {
    var r := UpdateUsageCount(s, c, ks, now);
    SameSpecsSameFirst(s.models, r.models);
    match FirstMatch(r.models, k)
    case None =>
    case Some(i) =>
      assert KeyOf(s.models[i]) == k;
  }

  /** Usage reported for a pair no model is configured with still lands in both indices,
      and no usage count changes. */
  lemma UnregisteredPairIndexedOnly(s: Server, c: ClientId, k: UsageKey, now: int)
    requires Valid(s)
    requires forall i :: 0 <= i < |s.models| ==> KeyOf(s.models[i]) != k
    ensures var r := UpdateUsageCount(s, c, [k], now);
      r.models == s.models && k in Uses(r, c) && c in Users(r, k)
  {
    var r := UpdateUsageCount(s, c, [k], now);
    assert Seqs.Elems([k]) == {k};
    RecordKeepsValid(s, c, [k], now);
    assert |r.models| == |s.models|;
    forall i | 0 <= i < |s.models|
      ensures r.models[i] == s.models[i]
    {
      assert KeyOf(s.models[i]) != k;
    }
  }

  /** The result of recording depends only on the set of pairs in the request: duplicates and
      order within one request do not matter. */
  lemma RecordDependsOnSetOnly(s: Server, c: ClientId, ks1: seq<UsageKey>, ks2: seq<UsageKey>, now: int)
    requires Seqs.Elems(ks1) == Seqs.Elems(ks2)
    ensures UpdateUsageCount(s, c, ks1, now) == UpdateUsageCount(s, c, ks2, now)
  {
    var r1 := UpdateUsageCount(s, c, ks1, now);
    var r2 := UpdateUsageCount(s, c, ks2, now);
    assert |ks1| == 0 <==> |ks2| == 0 by {
      if |ks1| > 0 { assert ks1[0] in Seqs.Elems(ks2); }
      if |ks2| > 0 { assert ks2[0] in Seqs.Elems(ks1); }
    }
    assert r1.models == r2.models;
  }

  /** Pairs the client already uses are skipped: the loop changes nothing. */
  lemma {:induction false} AddUsagesKnown(s: Server, c: ClientId, ks: seq<UsageKey>)
    requires forall k :: k in ks ==> k in Uses(s, c)
    ensures AddUsages(s, c, ks) == s
    decreases |ks|
  {
    if |ks| > 0 {
      assert AddUsage(s, c, ks[0]) == s;
      AddUsagesKnown(s, c, ks[1..]);
    }
  }

  /** Re-reporting the same pairs only refreshes the client's timestamp: both indices and all
      usage counts are unchanged. */
  lemma RecordIdempotent(s: Server, c: ClientId, ks: seq<UsageKey>, t1: int, t2: int)
    ensures var r1 := UpdateUsageCount(s, c, ks, t1);
      UpdateUsageCount(r1, c, ks, t2) == r1.(lastActive := r1.lastActive[c := t2])
  {
    var r1 := UpdateUsageCount(s, c, ks, t1);
    var r0 := r1.(lastActive := r1.lastActive[c := t2]);
    if |ks| > 0 {
      assert Uses(r0, c) == Uses(s, c) + Seqs.Elems(ks);
      AddUsagesKnown(r0, c, ks);
    }
  }
}
