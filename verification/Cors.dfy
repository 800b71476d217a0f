/** The dynamic CORS cache of `internal/middleware/cors.go`: the database is mirrored into a
    Redis set and a memory map by refreshes that run concurrently with everything else. */
module Cors {
  import opened Basics

  datatype Organization = Organization(deleted: bool, origins: Option<seq<string>>)

  type Table = map<string, Organization>

  /** What loadOriginsFromDB selects: the origins of all organizations that are not deleted. */
  function LiveOrigins(db: Table): set<string> {
    set id, o | id in db && !db[id].deleted && db[id].origins.Some? && o in db[id].origins.value :: o
  }

  /** An origin is live exactly when some organization that is not deleted lists it. */
  lemma LiveIff(db: Table, origin: string)
    ensures origin in LiveOrigins(db) <==>
            exists id :: id in db && !db[id].deleted && db[id].origins.Some? && origin in db[id].origins.value
  {
  }

  /** A deleted organization is as good as absent. */
  lemma DeletedIsAbsent(db: Table, id: string)
    requires id in db && db[id].deleted
    ensures LiveOrigins(db) == LiveOrigins(db - {id})
  {
    var without := db - {id};
    forall o ensures o in LiveOrigins(db) <==> o in LiveOrigins(without) {
      LiveIff(db, o);
      LiveIff(without, o);
      if o in LiveOrigins(db) {
        var other :| other in db && !db[other].deleted && db[other].origins.Some? && o in db[other].origins.value;
        assert other in without && without[other] == db[other];
      }
    }
  }

  // ---- Redis commands ----------------------------------------------------------------

  datatype Command = Del | SAdd(members: set<string>) | Expire

  /** The one key the cache uses. A Redis set without members is an absent key. */
  datatype Redis = Redis(members: set<string>, expires: bool)

  function Execute(r: Redis, c: Command): Redis {
    match c
    case Del => Redis({}, false)
    case SAdd(m) => r.(members := r.members + m)
    case Expire => r.(expires := r.members != {})
  }

  function ExecuteAll(r: Redis, queue: seq<Command>): Redis
    decreases |queue|
  {
    if queue == [] then r else ExecuteAll(Execute(r, queue[0]), queue[1..])
  }

  /** The commands of one refresh. */
  function Pipeline(all: set<string>): seq<Command> {
    [Del] + (if all != {} then [SAdd(all)] else []) + [Expire]
  }

  lemma PipelineStores(r: Redis, all: set<string>)
    ensures ExecuteAll(r, Pipeline(all)) == Redis(all, all != {})
  {
    var empty := Redis({}, false);
    var tail := Pipeline(all)[1..];
    assert ExecuteAll(r, Pipeline(all)) == ExecuteAll(empty, tail);
    if all == {} {
      assert tail == [Expire] && tail[1..] == [];
      assert ExecuteAll(empty, tail) == ExecuteAll(empty, tail[1..]);
    } else {
      assert tail == [SAdd(all), Expire] && tail[1..] == [Expire] && tail[1..][1..] == [];
      var added := Redis(all, false);
      assert Execute(empty, tail[0]) == added;
      assert ExecuteAll(empty, tail) == ExecuteAll(added, tail[1..]);
      assert ExecuteAll(added, tail[1..]) == ExecuteAll(Redis(all, true), []);
    }
  }

  lemma {:induction false} ExecuteAppend(r: Redis, a: seq<Command>, b: seq<Command>)
    ensures ExecuteAll(r, a + b) == ExecuteAll(ExecuteAll(r, a), b)
    decreases |a|
  {
    if a == [] {
      assert a + b == b;
    } else {
      assert (a + b)[1..] == a[1..] + b;
      ExecuteAppend(Execute(r, a[0]), a[1..], b);
    }
  }

  // ---- the interleaved protocol --------------------------------------------------------

  /** One refreshCache goroutine. `queue` holds its commands that have not reached Redis: they
      may still arrive after the goroutine has given up and swapped the memory map. */
  datatype Refresh =
    | Started
    | LoadFailed
    | Writing(all: set<string>, queue: seq<Command>)
    | Swapped(all: set<string>, queue: seq<Command>)

  /** `fixed` holds the configured static origins. */
  datatype State = State(
    fixed: set<string>, db: Table, redis: Redis, redisUp: bool, memory: set<string>,
    refreshes: map<nat, Refresh>)

  datatype Step =
    | WriteDb(db: Table)
    | StartRefresh(id: nat)
    | Load(id: nat, ok: bool)
    | RunCommand(id: nat)
    | Resend(id: nat)
    | LoseCommands(id: nat)
    | Swap(id: nat)
    | ExpireKey
    | SetRedis(up: bool)

  predicate InFlight(s: State, id: nat) {
    id in s.refreshes && (s.refreshes[id].Writing? || s.refreshes[id].Swapped?)
  }

  predicate Enabled(s: State, step: Step) {
    match step
    case StartRefresh(id) => id !in s.refreshes
    case Load(id, _) => id in s.refreshes && s.refreshes[id].Started?
    case RunCommand(id) => s.redisUp && InFlight(s, id) && s.refreshes[id].queue != []
    case Resend(id) => id in s.refreshes && s.refreshes[id].Writing?
    case LoseCommands(id) => InFlight(s, id)
    case Swap(id) => id in s.refreshes && s.refreshes[id].Writing?
    case ExpireKey => s.redis.expires
    case _ => true
  }

  /** One step; a step that is not enabled changes nothing. */
  function Next(s: State, step: Step): State {
    if !Enabled(s, step) then s
    else
      match step
      case WriteDb(db) => s.(db := db)
      case StartRefresh(id) => s.(refreshes := s.refreshes[id := Started])
      case Load(id, ok) =>
        var all := s.fixed + LiveOrigins(s.db);
        s.(refreshes := s.refreshes[id := if ok then Writing(all, Pipeline(all)) else LoadFailed])
      case RunCommand(id) =>
        var f := s.refreshes[id];
        s.(redis := Execute(s.redis, f.queue[0]), refreshes := s.refreshes[id := f.(queue := f.queue[1..])])
      case Resend(id) =>
        var f := s.refreshes[id];
        s.(refreshes := s.refreshes[id := f.(queue := f.queue + Pipeline(f.all))])
      case LoseCommands(id) => s.(refreshes := s.refreshes[id := s.refreshes[id].(queue := [])])
      case Swap(id) =>
        var f := s.refreshes[id];
        s.(memory := f.all, refreshes := s.refreshes[id := Swapped(f.all, f.queue)])
      case ExpireKey => s.(redis := Redis({}, false))
      case SetRedis(up) => s.(redisUp := up)
  }

  function After(s: State, steps: seq<Step>): State {
    if steps == [] then s else Next(After(s, steps[..|steps| - 1]), steps[|steps| - 1])
  }

  predicate Initial(s: State) {
    s.redis == Redis({}, false) && s.memory == {} && s.refreshes == map[]
  }

  function RedisAnswer(s: State, origin: string): bool { origin in s.redis.members }

  function MemoryAnswer(s: State, origin: string): bool { origin in s.memory }

  /** Whether a request's origin gets CORS headers, when `allowAll` is not set; a check may fail
      on its own even while Redis is up. */
  predicate Allowed(s: State, origin: string, redisAnswers: bool) {
    origin in s.fixed || (if redisAnswers then RedisAnswer(s, origin) else MemoryAnswer(s, origin))
  }

  // ---- provenance -----------------------------------------------------------------------

  /** `all` is the static list joined with the live origins of one state of the run so far. */
  ghost predicate Snapshot(s: State, steps: seq<Step>, all: set<string>) {
    exists n: nat :: n <= |steps| && all == s.fixed + LiveOrigins(After(s, steps[..n]).db)
  }

  ghost predicate Known(s: State, steps: seq<Step>, origin: string) {
    origin in s.fixed || exists n: nat :: n <= |steps| && origin in LiveOrigins(After(s, steps[..n]).db)
  }

  ghost predicate CommandKnown(s: State, steps: seq<Step>, c: Command) {
    c.SAdd? ==> Snapshot(s, steps, c.members)
  }

  ghost predicate RefreshKnown(s: State, steps: seq<Step>, f: Refresh) {
    f.Writing? || f.Swapped? ==>
      Snapshot(s, steps, f.all) && forall c :: c in f.queue ==> CommandKnown(s, steps, c)
  }

  ghost predicate Traced(s: State, steps: seq<Step>) {
    var t := After(s, steps);
    && t.fixed == s.fixed
    && (t.memory == {} || Snapshot(s, steps, t.memory))
    && (forall o :: o in t.redis.members ==> Known(s, steps, o))
    && (forall id :: id in t.refreshes ==> RefreshKnown(s, steps, t.refreshes[id]))
  }

  lemma Extend(s: State, steps: seq<Step>, step: Step)
    ensures After(s, steps + [step]) == Next(After(s, steps), step)
    ensures forall all :: Snapshot(s, steps, all) ==> Snapshot(s, steps + [step], all)
    ensures forall o :: Known(s, steps, o) ==> Known(s, steps + [step], o)
    ensures forall f :: RefreshKnown(s, steps, f) ==> RefreshKnown(s, steps + [step], f)
  {
    var longer := steps + [step];
    assert longer[..|steps|] == steps;
    forall n: nat | n <= |steps| ensures longer[..n] == steps[..n] {}
    forall all | Snapshot(s, steps, all) ensures Snapshot(s, longer, all) {
      var n: nat :| n <= |steps| && all == s.fixed + LiveOrigins(After(s, steps[..n]).db);
      assert longer[..n] == steps[..n];
    }
    forall o | Known(s, steps, o) ensures Known(s, longer, o) {
      if o !in s.fixed {
        var n: nat :| n <= |steps| && o in LiveOrigins(After(s, steps[..n]).db);
        assert longer[..n] == steps[..n];
      }
    }
  }

  lemma SnapshotKnown(s: State, steps: seq<Step>, all: set<string>, o: string)
    requires Snapshot(s, steps, all) && o in all
    ensures Known(s, steps, o)
  {
  }

  /** A command in flight adds only known origins to Redis. */
  lemma CommandTraced(s: State, steps: seq<Step>, id: nat)
    requires Traced(s, steps) && InFlight(After(s, steps), id) && After(s, steps).refreshes[id].queue != []
    ensures var t := After(s, steps);
            var f := t.refreshes[id];
            && (forall o :: o in Execute(t.redis, f.queue[0]).members ==> Known(s, steps, o))
            && RefreshKnown(s, steps, f.(queue := f.queue[1..]))
  {
    var t := After(s, steps);
    var f := t.refreshes[id];
    assert CommandKnown(s, steps, f.queue[0]);
    forall o | o in Execute(t.redis, f.queue[0]).members ensures Known(s, steps, o) {
      if o !in t.redis.members {
        SnapshotKnown(s, steps, f.queue[0].members, o);
      }
    }
  }

  lemma StepTraced(s: State, steps: seq<Step>, step: Step)
    requires Traced(s, steps)
    ensures Traced(s, steps + [step])
  {
    Extend(s, steps, step);
    var t := After(s, steps);
    var longer := steps + [step];
    if Enabled(t, step) {
      match step
      case Load(id, ok) =>
        var all := t.fixed + LiveOrigins(t.db);
        assert longer[..|steps|] == steps;
        assert Snapshot(s, longer, all);
      case RunCommand(id) => CommandTraced(s, steps, id);
      case Resend(id) =>
        var f := t.refreshes[id];
        assert RefreshKnown(s, steps, Writing(f.all, f.queue + Pipeline(f.all)));
      case LoseCommands(id) =>
        assert RefreshKnown(s, steps, t.refreshes[id].(queue := []));
      case Swap(id) =>
        assert RefreshKnown(s, steps, t.refreshes[id]);
      case _ =>
    }
  }

  lemma {:induction false} RunTraced(s: State, steps: seq<Step>)
    requires Initial(s)
    ensures Traced(s, steps)
    decreases |steps|
  {
    if steps == [] {
    } else {
      var shorter := steps[..|steps| - 1];
      RunTraced(s, shorter);
      StepTraced(s, shorter, steps[|steps| - 1]);
      assert shorter + [steps[|steps| - 1]] == steps;
    }
  }

  /** Over every interleaving: what is allowed is static or was listed by an organization that was
      not deleted at some point of the run; the memory map is empty or exactly one snapshot of it; and a static
      origin is always allowed. */
  lemma Provenance(s: State, steps: seq<Step>, origin: string, redisAnswers: bool)
    requires Initial(s)
    ensures var t := After(s, steps);
            && (Allowed(t, origin, redisAnswers) && origin !in s.fixed ==>
                  exists n: nat, id :: n <= |steps| &&
                    var db := After(s, steps[..n]).db;
                    id in db && !db[id].deleted && db[id].origins.Some? && origin in db[id].origins.value)
            && (t.memory == {} || Snapshot(s, steps, t.memory))
            && (origin in s.fixed ==> Allowed(t, origin, redisAnswers))
  {
    RunTraced(s, steps);
    var t := After(s, steps);
    if origin in t.memory {
      SnapshotKnown(s, steps, t.memory, origin);
    }
    if Allowed(t, origin, redisAnswers) && origin !in s.fixed {
      var n: nat :| n <= |steps| && origin in LiveOrigins(After(s, steps[..n]).db);
      var db := After(s, steps[..n]).db;
      var id :| id in db && !db[id].deleted && db[id].origins.Some? && origin in db[id].origins.value;
    }
  }
}
