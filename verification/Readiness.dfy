/**
 * core/cmd/server/health.go: readiness counts recorded versions behind a double-checked cache whose entries
 * live for a TTL.  First the computation, then the interleavings of any number of callers.
 */
module Readiness {
  import opened Common

  type Version = string
  type CallId = nat

  const OK: int := 200
  const UNAVAILABLE: int := 503

  datatype Response = Response(status: string, db: string, migrations: string, code: int)

  /** What one computation meets: a configured pool, the ping, the startup error, the query. */
  datatype Probe = Probe(hasDb: bool, pingOk: bool, initErr: bool, queryOk: bool)

  /** SELECT COUNT(*) ... WHERE version = ANY(required); version is the table's primary key. */
  function AppliedCount(table: set<Version>, required: seq<Version>): nat {
    |set v | v in table && v in required|
  }

  function Compute(probe: Probe, table: set<Version>, required: seq<Version>): Response {
    if !probe.hasDb || !probe.pingOk then Response("not_ready", "error", "unknown", UNAVAILABLE)
    else if probe.initErr || |required| == 0 || !probe.queryOk then Response("not_ready", "ok", "error", UNAVAILABLE)
    else if AppliedCount(table, required) < |required| then Response("not_ready", "ok", "out_of_date", UNAVAILABLE)
    else Response("ok", "ok", "ok", OK)
  }

  /** Comparing the count with the number of required versions checks every one of them. */
  lemma CountChecksEvery(table: set<Version>, required: seq<Version>)
    ensures AppliedCount(table, required) >= |required| <==>
            Distinct(required) && forall v :: v in required ==> v in table
  {
    if Distinct(required) {
      DistinctCount(table, required);
    } else {
      DuplicatesShrink(required);
      var hit := set v | v in table && v in required;
      SubsetSize(hit, Elements(required));
    }
  }

  lemma DistinctCount(table: set<Version>, required: seq<Version>)
    requires Distinct(required)
    ensures AppliedCount(table, required) >= |required| <==> forall v :: v in required ==> v in table
  {
    var hit := set v | v in table && v in required;
    DistinctFits(required, Elements(required));
    if |hit| >= |required| {
      SubsetOfSameSize(hit, Elements(required));
      assert forall v :: v in required ==> v in Elements(required);
    }
    if forall v :: v in required ==> v in table {
      assert hit == Elements(required);
    }
  }

  lemma SubsetOfSameSize<T>(a: set<T>, b: set<T>)
    requires a <= b && |a| >= |b|
    ensures a == b
  {
    if x :| x in b && x !in a {
      SubsetSize(a, b - {x});
    }
  }

  lemma {:induction false} ElementsBound<T>(s: seq<T>)
    ensures |Elements(s)| <= |s|
  {
    if s != [] {
      ElementsBound(s[1..]);
      assert Elements(s) == {s[0]} + Elements(s[1..]);
    } else {
      assert Elements(s) == {};
    }
  }

  lemma DuplicatesShrink<T>(s: seq<T>)
    requires !Distinct(s)
    ensures |Elements(s)| < |s|
  {
    var i, j :| 0 <= i < j < |s| && s[i] == s[j];
    var rest := s[..j] + s[j + 1..];
    assert rest[i] == s[j];
    forall x | x in s ensures x in rest {
      var k :| 0 <= k < |s| && s[k] == x;
      assert x == rest[if k == j then i else if k < j then k else k - 1];
    }
    assert Elements(rest) == Elements(s);
    ElementsBound(rest);
  }

  /** "ok" is answered exactly when every check passed and every one of the distinct required versions is recorded. */
  lemma OkExactly(probe: Probe, table: set<Version>, required: seq<Version>)
    ensures Compute(probe, table, required).code == OK <==>
            && probe == Probe(true, true, false, true)
            && required != [] && Distinct(required)
            && forall v :: v in required ==> v in table
  {
    CountChecksEvery(table, required);
  }

  /** What each of the texts means: which check failed, and that "ok" and 200 come together. */
  lemma TextsSayWhichCheckFailed(probe: Probe, table: set<Version>, required: seq<Version>)
    ensures var r, reached := Compute(probe, table, required), probe.hasDb && probe.pingOk;
      var counted := reached && !probe.initErr && required != [] && probe.queryOk;
      var applied := Distinct(required) && forall v :: v in required ==> v in table;
      && (r.db == if reached then "ok" else "error")
      && (r.migrations == if !reached then "unknown" else if !counted then "error"
                          else if !applied then "out_of_date" else "ok")
      && (if counted && applied then r.status == "ok" && r.code == 200 else r.status == "not_ready" && r.code == 503)
  {
    CountChecksEvery(table, required);
  }

  class ServerHealth {
    const required: seq<Version>
    const ttl: int
    var cache: Option<(Response, int)>

    constructor (required: seq<Version>, ttl: int)
      ensures this.required == required && this.ttl == ttl && cache.None?
    {
      this.required, this.ttl, cache := required, ttl, None;
    }

    /** The response is corrected step by step, the first failing check deciding. */
    method ComputeReadiness(probe: Probe, table: set<Version>) returns (resp: Response)
      ensures resp == Compute(probe, table, required)
      ensures resp.code == OK ==> forall v :: v in required ==> v in table
    {
      OkExactly(probe, table, required);
      resp := Response("ok", "ok", "ok", OK);
      if !probe.hasDb || !probe.pingOk {
        resp := resp.(status := "not_ready", db := "error", migrations := "unknown", code := UNAVAILABLE);
        return;
      }
      if probe.initErr || |required| == 0 {
        resp := resp.(status := "not_ready", migrations := "error", code := UNAVAILABLE);
        return;
      }
      if !probe.queryOk {
        resp := resp.(status := "not_ready", migrations := "error", code := UNAVAILABLE);
        return;
      }
      var appliedCount := AppliedCount(table, required);
      if appliedCount < |required| {
        resp := resp.(status := "not_ready", migrations := "out_of_date", code := UNAVAILABLE);
      }
    }

    method LoadCachedReadiness(now: int) returns (hit: Option<Response>)
      ensures hit == if cache.Some? && now < cache.value.1 then Some(cache.value.0) else None
    {
      if cache.None? || !(now < cache.value.1) {
        return None;
      }
      hit := Some(cache.value.0);
    }

    /**
     * One call; `now` and `later` are its two clock readings, `meanwhile` what another caller stored while this
     * one waited for refreshMu.
     */
    method Readiness(now: int, later: int, meanwhile: Option<(Response, int)>, probe: Probe, table: set<Version>)
      returns (resp: Response)
      modifies this`cache
      ensures ttl <= 0 ==> resp == Compute(probe, table, required) && cache == old(cache)
      ensures ttl > 0 && old(cache).Some? && now < old(cache).value.1 ==> resp == old(cache).value.0 && cache == old(cache)
      ensures ttl > 0 && !(old(cache).Some? && now < old(cache).value.1) ==>
                var found := if meanwhile.Some? then meanwhile else old(cache);
                if found.Some? && later < found.value.1 then resp == found.value.0 && cache == found
                else resp == Compute(probe, table, required) && cache == Some((resp, later + ttl))
    {
      if ttl <= 0 {
        resp := ComputeReadiness(probe, table);
        return;
      }
      var cached := LoadCachedReadiness(now);
      if cached.Some? {
        return cached.value;
      }
      if meanwhile.Some? {
        cache := meanwhile;
      }
      cached := LoadCachedReadiness(later);
      if cached.Some? {
        return cached.value;
      }
      resp := ComputeReadiness(probe, table);
      cache := Some((resp, later + ttl));
    }
  }
}
