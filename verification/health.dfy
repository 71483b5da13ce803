/** The health monitor: turning the outcome of `GET {base_url}/models` into a model's status
    and load, and one full monitoring cycle (probe every model, then evict idle clients). */
module Health {
  import opened Wrappers
  import opened Registry
  import Eviction

  /** The fields of a JSON reply body that the decision reads: `object`, the `id` of every
      entry of `data`, and the top-level `id`. */
  datatype ProbeBody = ProbeBody(objectField: Option<string>, dataIds: seq<string>, id: Option<string>)

  /** What the HTTP probe produced. `body` is None when a 200 reply is not valid JSON. */
  datatype ProbeOutcome =
    | RequestFailed
    | Replied(code: int, body: Option<ProbeBody>)

  /** `s.rstrip("/")`: every trailing slash removed. */
  function StripTrailingSlashes(s: string): (r: string)
    ensures r <= s
    ensures |r| == 0 || r[|r| - 1] != '/'
    ensures forall i :: |r| <= i < |s| ==> s[i] == '/'
    decreases |s|
  {
    if |s| > 0 && s[|s| - 1] == '/' then StripTrailingSlashes(s[..|s| - 1]) else s
  }

  /** The three properties of StripTrailingSlashes's contract determine its result: any prefix
      without a trailing slash followed only by slashes is that result. */
  lemma StripTrailingSlashesUnique(s: string, t: string)
    requires t <= s
    requires |t| == 0 || t[|t| - 1] != '/'
    requires forall i :: |t| <= i < |s| ==> s[i] == '/'
    ensures t == StripTrailingSlashes(s)
  {
    var r := StripTrailingSlashes(s);
    if |t| < |r| {
      assert false;
    } else if |r| < |t| {
      assert false;
    }
  }

  lemma StripTrailingSlashesIdempotent(s: string)
    ensures StripTrailingSlashes(StripTrailingSlashes(s)) == StripTrailingSlashes(s)
  {
    var r := StripTrailingSlashes(s);
    StripTrailingSlashesUnique(r, r);
  }

  /** Appending any number of slashes does not change the stripped name. */
  lemma StripIgnoresAddedSlashes(s: string, slashes: string)
    requires forall i :: 0 <= i < |slashes| ==> slashes[i] == '/'
    ensures StripTrailingSlashes(s + slashes) == StripTrailingSlashes(s)
  {
    var r := StripTrailingSlashes(s);
    assert r <= s + slashes;
    forall i | |r| <= i < |s + slashes|
      ensures (s + slashes)[i] == '/'
    {
      if i >= |s| {
        assert (s + slashes)[i] == slashes[i - |s|];
      }
    }
    StripTrailingSlashesUnique(s + slashes, r);
  }

  /** The model name a reply reports: the `id` of the first `data` entry when `object` is
      "list" and `data` is non-empty, otherwise the top-level `id` (empty when absent). */
  function ReportedName(b: ProbeBody): string {
    if b.objectField == Some("list") && |b.dataIds| > 0 then b.dataIds[0] else b.id.GetOr("")
  }

  /** The probe confirms the endpoint serves the configured model. */
  predicate Confirms(o: ProbeOutcome, modelPath: string) {
    && o.Replied?
    && o.code == 200
    && o.body.Some?
    && StripTrailingSlashes(ReportedName(o.body.value)) == StripTrailingSlashes(modelPath)
  }

  /** `_check_health`: every branch sets the load to 0; the model is available exactly when the
      probe got a 200 reply naming the configured model, up to trailing slashes, and is
      unavailable otherwise. Identity and usage count are untouched. */
  function CheckHealth(m: Model, o: ProbeOutcome): (r: Model)
    ensures r.spec == m.spec && r.usageCount == m.usageCount
    ensures r.load == 0
    ensures r.status == Available <==> Confirms(o, m.spec.model)
    ensures r.status == Unavailable <==> !Confirms(o, m.spec.model)
  {
    match o
    case RequestFailed => m.(status := Unavailable, load := 0)
    case Replied(code, body) =>
      if code != 200 then m.(status := Unavailable, load := 0)
      else match body
        case None => m.(status := Unavailable, load := 0)
        case Some(b) =>
          var actual := StripTrailingSlashes(ReportedName(b));
          var expected := StripTrailingSlashes(m.spec.model);
          if actual == expected then m.(status := Available, load := 0)
          else m.(status := Unavailable, load := 0)
  }

  /** A configured path with a trailing slash matches a reply that omits it. */
  lemma TrailingSlashInsensitive()
    ensures var m := NewModel(ModelSpec("m1", "chat", "foo/bar/", "http://h/v1"));
      CheckHealth(m, Replied(200, Some(ProbeBody(None, [], Some("foo/bar"))))).status == Available
  {
    assert StripTrailingSlashes("foo/bar/") == "foo/bar";
    assert StripTrailingSlashes("foo/bar") == "foo/bar";
  }

  /** Different paths do not match. */
  lemma DifferentPathUnavailable()
    ensures var m := NewModel(ModelSpec("m1", "chat", "foo/bar", "http://h/v1"));
      CheckHealth(m, Replied(200, Some(ProbeBody(Some("list"), ["foo/baz"], None)))).status == Unavailable
  {
    assert StripTrailingSlashes("foo/baz") == "foo/baz";
    assert StripTrailingSlashes("foo/bar") == "foo/bar";
    assert "foo/baz"[6] != "foo/bar"[6];
  }

  /** `rstrip` removes every trailing slash, so a doubled slash still matches. */
  lemma DoubleSlashStillMatches()
    ensures var m := NewModel(ModelSpec("m1", "chat", "/models/X//", "http://h/v1"));
      CheckHealth(m, Replied(200, Some(ProbeBody(None, [], Some("/models/X"))))).status == Available
  {
    StripIgnoresAddedSlashes("/models/X", "//");
    assert "/models/X" + "//" == "/models/X//";
    assert StripTrailingSlashes("/models/X") == "/models/X";
  }

  /** The loop `for model in self.models: self._check_health(model)`, one probe outcome per
      model in configured order: every model keeps its identity and count, gets load 0, and is
      available exactly when its own probe confirms it. */
  function ProbeAll(models: seq<Model>, outcomes: seq<ProbeOutcome>): (r: seq<Model>)
    requires |outcomes| == |models|
    ensures |r| == |models|
    ensures forall i :: 0 <= i < |models| ==>
      && r[i].spec == models[i].spec && r[i].usageCount == models[i].usageCount && r[i].load == 0
      && r[i].status == (if Confirms(outcomes[i], models[i].spec.model) then Available else Unavailable)
  {
    seq(|models|, i requires 0 <= i < |models| => CheckHealth(models[i], outcomes[i]))
  }

  /** Probing changes only statuses and loads, so the registry invariant survives it. */
  lemma ProbeAllKeepsValid(s: Server, outcomes: seq<ProbeOutcome>)
    requires |outcomes| == |s.models|
    requires Valid(s)
    ensures Valid(s.(models := ProbeAll(s.models, outcomes)))
  {
    var r := s.(models := ProbeAll(s.models, outcomes));
    assert forall k :: Users(r, k) == Users(s, k);
    assert forall c :: Uses(r, c) == Uses(s, c);
    SameSpecsSameFirst(s.models, r.models);
    forall i | 0 <= i < |r.models|
      ensures r.models[i].usageCount == if IsFirst(r.models, i) then |Users(r, KeyOf(r.models[i]))| else 0
    {
      assert KeyOf(r.models[i]) == KeyOf(s.models[i]);
    }
  }

  /** One iteration of the monitor's loop: probe every model, then run the eviction pass. */
  method HealthCycle(s: Server, outcomes: seq<ProbeOutcome>, now: int) returns (r: Server)
    requires |outcomes| == |s.models|
    ensures |r.models| == |s.models|
    ensures forall i :: 0 <= i < |s.models| ==>
      && r.models[i].spec == s.models[i].spec
      && r.models[i].load == 0
      && r.models[i].status == (if Confirms(outcomes[i], s.models[i].spec.model) then Available else Unavailable)
    ensures r.interval == s.interval
    ensures r.clientUsage == s.clientUsage - Eviction.Stale(s, now)
    ensures r.lastActive == s.lastActive - Eviction.Stale(s, now)
    ensures Valid(s) ==> Valid(r)
  {
    var probed := s.(models := ProbeAll(s.models, outcomes));
    if Valid(s) {
      ProbeAllKeepsValid(s, outcomes);
    }
    assert Eviction.Stale(probed, now) == Eviction.Stale(s, now);
    r := Eviction.Evict(probed, now);
  }
}
