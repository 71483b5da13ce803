/** A worked run of the server bookkeeping: one configured model, two clients reporting the
    same pair, and the eviction pass removing the one that went quiet. */
module Scenario {
  import Seqs
  import opened Registry
  import Usage
  import Eviction

  const Key := UsageKey("http://h/v1", "/models/X")

  /** The server with the single model `m1` serving `Key`, probed every 10 seconds. */
  function Start(): (s: Server)
    ensures Valid(s) && |s.models| == 1 && KeyOf(s.models[0]) == Key && s.interval == 10
    ensures s.lastActive == map[] && s.modelClients == map[] && s.clientUsage == map[]
  {
    Init([ModelSpec("m1", "chat", "/models/X", "http://h/v1")], 10)
  }

  /** The count of the first model in a valid state is the number of users of its pair. */
  lemma CountIsUsers(r: Server)
    requires Valid(r) && |r.models| > 0
    ensures r.models[0].usageCount == |Users(r, KeyOf(r.models[0]))|
  {
    assert IsFirst(r.models, 0);
  }

  /** Client `c`, new to the pair `k` of the first model, reports it: it joins the users of
      `k` and the state stays valid, so the count follows. */
  lemma ReportCount(s: Server, c: ClientId, k: UsageKey, now: int)
    requires Valid(s) && |s.models| > 0 && KeyOf(s.models[0]) == k && c !in Users(s, k)
    ensures var r := Usage.UpdateUsageCount(s, c, [k], now);
      Valid(r) && Users(r, k) == Users(s, k) + {c}
  {
    Usage.RecordKeepsValid(s, c, [k], now);
    JoinsUsers(s, Usage.UpdateUsageCount(s, c, [k], now), c, k);
  }

  lemma JoinsUsers(s: Server, r: Server, c: ClientId, k: UsageKey)
    requires Indexed(s) && c !in Users(s, k)
    requires r.modelClients == Usage.Enrol(s.modelClients, c, Seqs.Elems([k]) - Uses(s, c))
    ensures Users(r, k) == Users(s, k) + {c}
  {
    assert Seqs.Elems([k]) - Uses(s, c) == {k} by {
      assert Seqs.Elems([k]) == {k};
      assert k !in Uses(s, c);
    }
    Usage.UsersEnrolled(s, r, c, {k});
  }

  /** "A" reports at time 0, then "B" at time 5. */
  lemma TwoReports()
    ensures var s1 := Usage.UpdateUsageCount(Start(), "A", [Key], 0);
      var s2 := Usage.UpdateUsageCount(s1, "B", [Key], 5);
      && s1.models[0].usageCount == 1 && s2.models[0].usageCount == 2
      && Valid(s2) && Users(s2, Key) == {"A", "B"} && KeyOf(s2.models[0]) == Key
      && s2.lastActive == map["A" := 0, "B" := 5] && s2.interval == 10
  {
    var s0 := Start();
    ReportCount(s0, "A", Key, 0);
    var s1 := Usage.UpdateUsageCount(s0, "A", [Key], 0);
    Usage.RecordOnlyCounts(s0, "A", [Key], 0);
    CountIsUsers(s1);
    assert Users(s1, Key) == {"A"};
    ReportCount(s1, "B", Key, 5);
    var s2 := Usage.UpdateUsageCount(s1, "B", [Key], 5);
    Usage.RecordOnlyCounts(s1, "B", [Key], 5);
    CountIsUsers(s2);
    assert Users(s2, Key) == {"A", "B"};
  }

  /** At time 35 only "A" has been idle for more than three intervals. */
  lemma OnlyAIsStale(s: Server)
    requires Valid(s) && Users(s, Key) == {"A", "B"}
    requires s.lastActive == map["A" := 0, "B" := 5] && s.interval == 10
    ensures Eviction.Stale(s, 35) == {"A"}
  {
    assert Key in Uses(s, "A") && Key in Uses(s, "B");
    assert Eviction.Inactive(s, 35) == {"A"};
  }

  /** Evicting "A" leaves "B" as the only user, so the count is 1. */
  lemma CountAfterEviction(s2: Server, s3: Server)
    requires Users(s2, Key) == {"A", "B"} && Eviction.Stale(s2, 35) == {"A"}
    requires Valid(s3) && Users(s3, Key) == Users(s2, Key) - Eviction.Stale(s2, 35)
    requires |s3.models| > 0 && KeyOf(s3.models[0]) == Key
    ensures s3.models[0].usageCount == 1
  {
    assert Users(s3, Key) == {"B"};
    CountIsUsers(s3);
  }

  /** Client "A" reports at time 0 and "B" at time 5: the count goes 1 then 2. An eviction
      pass at time 35 with interval 10 removes "A" (idle 35 > 30) but keeps "B" (idle 30, not
      more than 30), and the count drops back to 1. */
  method TwoClientsThenEviction() returns (counts: seq<nat>)
    ensures counts == [1, 2, 1]
  {
    var s1 := Usage.UpdateUsageCount(Start(), "A", [Key], 0);
    var s2 := Usage.UpdateUsageCount(s1, "B", [Key], 5);
    TwoReports();
    OnlyAIsStale(s2);
    var s3 := Eviction.Evict(s2, 35);
    CountAfterEviction(s2, s3);
    counts := [s1.models[0].usageCount, s2.models[0].usageCount, s3.models[0].usageCount];
  }
}
