/** The DynamicCORS object of `internal/middleware/cors.go`, one call at a time. Each refresh is
    shown to be a run of the interleaved protocol in module Cors. */
module CorsMiddleware {
  import opened Basics
  import opened Strings
  import opened Cors
  import opened CorsCoherence

  /** The origins a comma-separated setting lists. */
  function Configured(setting: string): set<string> {
    set p | p in Split(setting, ',') && TrimSpace(p) != "" :: TrimSpace(p)
  }

  /** A setting written as a list lists exactly its trimmed entries, blank ones left out. */
  lemma ConfiguredEntries(entries: seq<string>, origin: string)
    requires entries != [] && forall e :: e in entries ==> ',' !in e
    ensures origin in Configured(Join(entries, ",")) <==>
            origin != "" && exists e :: e in entries && TrimSpace(e) == origin
  {
    SplitOfJoin(entries, ',');
  }

  /** The steps of a refresh that nothing interrupts and whose first `n` commands are executed. */
  function RefreshSteps(id: nat, n: nat): seq<Step> {
    [StartRefresh(id), Load(id, true)] + Commands(id, n) + [Swap(id)]
  }

  /** What such a run does to the caches. */
  lemma RefreshRun(s: State, id: nat, n: nat)
    requires s.redisUp && id !in s.refreshes
    requires n <= |Pipeline(s.fixed + LiveOrigins(s.db))|
    ensures var all := s.fixed + LiveOrigins(s.db);
            var t := After(s, RefreshSteps(id, n));
            t == s.(memory := all, redis := ExecuteAll(s.redis, Pipeline(all)[..n]),
                    refreshes := s.refreshes[id := Swapped(all, Pipeline(all)[n..])])
  {
    var all := s.fixed + LiveOrigins(s.db);
    var steps, t := Continue(s, [], StartRefresh(id));
    steps, t := Continue(s, steps, Load(id, true));
    assert Pipeline(all)[0..] == Pipeline(all) && Pipeline(all)[..0] == [];
    assert t == Sent(s, id, all, 0);
    RunCommands(s, id, s, steps, all, n);
    var before := steps + Commands(id, n);
    var final, u := Continue(s, before, Swap(id));
    assert final == RefreshSteps(id, n);
    assert u.refreshes == s.refreshes[id := Swapped(all, Pipeline(all)[n..])];
  }

  lemma LiveRows(db: Table)
    ensures forall o :: o in LiveOrigins(db) <==>
      exists org :: org in db && !db[org].deleted && db[org].origins.Some? && o in db[org].origins.value
  {
    forall o
      ensures o in LiveOrigins(db) <==>
              exists org :: org in db && !db[org].deleted && db[org].origins.Some? && o in db[org].origins.value
    {
      LiveIff(db, o);
    }
  }

  /** A write replaces exactly the organization's own share of the live origins. */
  lemma ReplacedOrigins(db: Table, id: string, origins: seq<string>)
    ensures LiveOrigins(db[id := Organization(false, Some(origins))]) ==
            (set o | o in origins) + LiveOrigins(db - {id})
  {
    var written := db[id := Organization(false, Some(origins))];
    assert written[id].origins.value == origins;
    forall o | o in LiveOrigins(db - {id}) ensures o in LiveOrigins(written) {
      var other :| other in db - {id} && !db[other].deleted && db[other].origins.Some? &&
                   o in db[other].origins.value;
      assert other in written && written[other] == db[other];
    }
    forall o | o in LiveOrigins(written) ensures o in origins || o in LiveOrigins(db - {id}) {
      var other :| other in written && !written[other].deleted && written[other].origins.Some? &&
                   o in written[other].origins.value;
      assert other != id ==> other in db - {id} && (db - {id})[other] == db[other];
    }
  }

  class DynamicCors {
    const staticOrigins: map<string, bool>
    const allowAll: bool
    var memoryCache: map<string, bool>
    /** The organizations table and the Redis key, shared with the rest of the service. */
    var organizations: Table
    var redis: Redis

    ghost predicate Valid()
      reads this
    {
      && (forall o :: o in staticOrigins ==> staticOrigins[o])
      && (forall o :: o in memoryCache ==> memoryCache[o])
    }

    /** This object as a state of the protocol, with Redis answering. */
    ghost function Snapshot(refreshes: map<nat, Refresh>): State
      reads this
    {
      State(staticOrigins.Keys, organizations, redis, true, memoryCache.Keys, refreshes)
    }

    constructor (setting: string, organizations: Table, redis: Redis)
      ensures Valid()
      ensures staticOrigins.Keys == Configured(setting)
      ensures allowAll <==> "*" in Configured(setting)
      ensures memoryCache == map[]
      ensures this.organizations == organizations && this.redis == redis
    {
      var configured: map<string, bool> := map[];
      var all := false;
      var parts := Split(setting, ',');
      for i := 0 to |parts|
        invariant configured.Keys == set p | p in parts[..i] && TrimSpace(p) != "" :: TrimSpace(p)
        invariant forall o :: o in configured ==> configured[o]
        invariant all <==> "*" in configured
      {
        var o := TrimSpace(parts[i]);
        assert parts[..i + 1] == parts[..i] + [parts[i]];
        if o == "" {
          continue;
        }
        if o == "*" {
          all := true;
        }
        configured := configured[o := true];
      }
      assert parts[..|parts|] == parts;
      this.staticOrigins := configured;
      this.allowAll := all;
      this.memoryCache := map[];
      this.organizations := organizations;
      this.redis := redis;
    }

    /** The static origins joined with those of the query's rows. */
    method MergeOrigins(rows: seq<string>) returns (allOrigins: map<string, bool>)
      requires Valid()
      ensures allOrigins.Keys == staticOrigins.Keys + set o | o in rows
      ensures forall o :: o in allOrigins ==> allOrigins[o]
    {
      allOrigins := map[];
      var todo := staticOrigins.Keys;
      while todo != {}
        invariant todo <= staticOrigins.Keys && allOrigins.Keys == staticOrigins.Keys - todo
        invariant forall o :: o in allOrigins ==> allOrigins[o]
        decreases todo
      {
        var o :| o in todo;
        allOrigins := allOrigins[o := true];
        todo := todo - {o};
      }
      for i := 0 to |rows|
        invariant allOrigins.Keys == staticOrigins.Keys + set o | o in rows[..i]
        invariant forall o :: o in allOrigins ==> allOrigins[o]
      {
        assert rows[..i + 1] == rows[..i] + [rows[i]];
        allOrigins := allOrigins[rows[i] := true];
      }
      assert rows[..|rows|] == rows;
    }

    /** refreshCache with nothing else going on. `rows` is what the query returned, None if it
        failed; `executed` is how many of the pipeline's commands took effect. */
    method RefreshCache(rows: Option<seq<string>>, executed: nat, ghost id: nat, ghost refreshes: map<nat, Refresh>)
      requires Valid() && id !in refreshes
      requires rows.Some? ==> forall o :: o in rows.value <==>
        exists org :: org in organizations && !organizations[org].deleted && organizations[org].origins.Some? &&
                      o in organizations[org].origins.value
      requires executed <= |Pipeline(staticOrigins.Keys + LiveOrigins(organizations))|
      modifies this`memoryCache, this`redis
      ensures Valid()
      ensures rows.None? ==> redis == old(redis) && memoryCache == old(memoryCache)
      ensures rows.Some? ==> forall o :: o in memoryCache <==>
        o in staticOrigins ||
        exists org :: org in organizations && !organizations[org].deleted && organizations[org].origins.Some? &&
                      o in organizations[org].origins.value
      ensures rows.Some? ==>
        var all := staticOrigins.Keys + LiveOrigins(organizations);
        Snapshot(refreshes[id := Swapped(all, Pipeline(all)[executed..])]) ==
        After(old(Snapshot(refreshes)), RefreshSteps(id, executed))
    {
      if rows.None? {
        return;
      }
      LiveRows(organizations);
      var allOrigins := MergeOrigins(rows.value);
      ghost var all := staticOrigins.Keys + LiveOrigins(organizations);
      assert allOrigins.Keys == all;
      ghost var before := Snapshot(refreshes);
      var pipe := [Del];
      if allOrigins != map[] {
        pipe := pipe + [SAdd(allOrigins.Keys)];
      }
      pipe := pipe + [Expire];
      assert pipe == Pipeline(all);
      for k := 0 to executed
        invariant redis == ExecuteAll(before.redis, pipe[..k]) && memoryCache == old(memoryCache)
      {
        ExecuteOneMore(before.redis, pipe, k);
        redis := Execute(redis, pipe[k]);
      }
      memoryCache := allOrigins;
      RefreshRun(before, id, executed);
      LiveRows(organizations);
    }

    method IsAllowedDynamic(origin: string, redisAnswers: bool) returns (allowed: bool)
      requires Valid()
      ensures allowed <==> if redisAnswers then origin in redis.members else origin in memoryCache
    {
      if redisAnswers {
        return origin in redis.members;
      }
      return origin in memoryCache && memoryCache[origin];
    }

    /** The Access-Control-Allow-Origin header Handler sets, if any. */
    method AllowOrigin(origin: string, redisAnswers: bool) returns (header: Option<string>)
      requires Valid()
      ensures header ==
        if origin == "" then None
        else if allowAll then Some("*")
        else if origin in staticOrigins || (if redisAnswers then origin in redis.members else origin in memoryCache)
        then Some(origin)
        else None
      ensures origin != "" && !allowAll ==> (header == Some(origin) <==> Allowed(Snapshot(map[]), origin, redisAnswers))
    {
      if origin == "" {
        return None;
      }
      if allowAll {
        return Some("*");
      }
      if origin in staticOrigins && staticOrigins[origin] {
        return Some(origin);
      }
      var dynamic := IsAllowedDynamic(origin, redisAnswers);
      if dynamic {
        return Some(origin);
      }
      return None;
    }

    /** UpdateOrganizationOrigins: a write that matches a row asks for a refresh. */
    method UpdateOrganizationOrigins(orgId: string, origins: seq<string>) returns (refresh: bool)
      modifies this`organizations
      ensures refresh <==> orgId in old(organizations) && !old(organizations)[orgId].deleted
      ensures !refresh ==> organizations == old(organizations)
      ensures refresh ==> organizations == old(organizations)[orgId := Organization(false, Some(origins))]
      ensures refresh ==> forall o :: o in LiveOrigins(organizations) <==>
        o in origins || o in LiveOrigins(old(organizations) - {orgId})
    {
      refresh := orgId in organizations && !organizations[orgId].deleted;
      if refresh {
        var before := organizations;
        organizations := organizations[orgId := organizations[orgId].(origins := Some(origins))];
        ReplacedOrigins(before, orgId, origins);
      }
    }
  }
}
