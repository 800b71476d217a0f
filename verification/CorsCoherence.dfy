/** When the two caches of module Cors agree with the database: after any number of overlapping
    refreshes, after an expiry, and around a write. */
module CorsCoherence {
  import opened Basics
  import opened Cors

  /** The refresh is over, and no command of it is still on its way to Redis. */
  predicate Settled(f: Refresh) {
    f.LoadFailed? || (f.Swapped? && f.queue == [])
  }

  predicate Quiet(s: State) {
    forall id :: id in s.refreshes ==> Settled(s.refreshes[id])
  }

  /** No refresh holds loaded origins that have not reached both caches; some may yet have to load. */
  predicate Idle(s: State) {
    forall id :: id in s.refreshes ==> s.refreshes[id].Started? || Settled(s.refreshes[id])
  }

  /** What a refresh that loads now will store. */
  function Current(s: State): set<string> { s.fixed + LiveOrigins(s.db) }

  /** Steps that neither write the database nor expire the key, and lose no command of a refresh
      outside `done`. */
  predicate Calm(step: Step, done: set<nat>) {
    !step.WriteDb? && !step.ExpireKey? && (step.LoseCommands? ==> step.id in done)
  }

  /** Commands that end by storing `all`: a deletion is followed by the addition, and everything by
      an expiry. */
  predicate Orderly(queue: seq<Command>, all: set<string>)
    decreases |queue|
  {
    queue == [] ||
    (&& Orderly(queue[1..], all)
     && (queue[0].Del? && all != {} ==> SAdd(all) in queue[1..])
     && (queue[0].SAdd? ==> queue[0].members == all)
     && (!queue[0].Expire? ==> Expire in queue[1..]))
  }

  lemma PipelineOrderly(all: set<string>)
    ensures Orderly(Pipeline(all), all)
  {
    assert Orderly([Expire], all);
    if all != {} {
      assert [SAdd(all), Expire][1..] == [Expire];
      assert Orderly([SAdd(all), Expire], all);
      assert Pipeline(all)[1..] == [SAdd(all), Expire];
    } else {
      assert Pipeline(all)[1..] == [Expire];
    }
  }

  lemma {:induction false} OrderlyAppend(a: seq<Command>, b: seq<Command>, all: set<string>)
    requires Orderly(a, all) && Orderly(b, all)
    ensures Orderly(a + b, all)
    decreases |a|
  {
    if a == [] {
      assert a + b == b;
    } else {
      assert (a + b)[1..] == a[1..] + b;
      OrderlyAppend(a[1..], b, all);
    }
  }

  lemma {:induction false} OrderlyEndsInExpire(queue: seq<Command>, all: set<string>)
    requires Orderly(queue, all) && queue != []
    ensures Expire in queue
    decreases |queue|
  {
    if queue[0].Expire? {
    } else {
      assert Expire in queue[1..];
    }
  }

  predicate Awaits(s: State, id: nat, c: Command) {
    InFlight(s, id) && c in s.refreshes[id].queue
  }

  /** The refreshes outside `done` carry the current origins, in orderly commands. */
  ghost predicate CarriesCurrent(s: State, done: set<nat>) {
    forall id :: id in s.refreshes ==>
      if id in done then Settled(s.refreshes[id])
      else InFlight(s, id) ==> s.refreshes[id].all == Current(s) && Orderly(s.refreshes[id].queue, Current(s))
  }

  /** Redis holds the current origins and expires, up to commands on their way. */
  ghost predicate RedisFollows(s: State) {
    && s.redis.members <= Current(s)
    && (s.redis.expires ==> s.redis.members != {})
    && (s.redis.members == Current(s) || exists id :: Awaits(s, id, SAdd(Current(s))))
    && (s.redis.expires || Current(s) == {} || exists id :: Awaits(s, id, Expire))
  }

  /** No refresh outside `done` has sent anything. */
  ghost predicate NothingSent(s: State, done: set<nat>) {
    forall id :: id !in done && InFlight(s, id) ==> s.refreshes[id].queue != [] && s.refreshes[id].queue[0] == Del
  }

  ghost predicate NothingSwapped(s: State, done: set<nat>) {
    forall id :: id !in done && id in s.refreshes ==> !s.refreshes[id].Swapped?
  }

  ghost predicate Converging(s: State, done: set<nat>) {
    && CarriesCurrent(s, done)
    && (RedisFollows(s) || NothingSent(s, done))
    && (s.memory == Current(s) || NothingSwapped(s, done))
  }

  /** Both caches answer by the current origins. */
  predicate Coherent(s: State) {
    s.memory == Current(s) && s.redis == Redis(Current(s), Current(s) != {})
  }

  lemma NothingToLose(s: State, i: nat)
    requires i in s.refreshes && Settled(s.refreshes[i])
    ensures Next(s, LoseCommands(i)) == s
  {
    if s.refreshes[i].Swapped? {
      assert s.refreshes[i := Swapped(s.refreshes[i].all, [])] == s.refreshes;
    }
  }

  /** A command that reaches Redis brings it on the way to the current origins, or keeps it there. */
  lemma CommandFollows(s: State, id: nat, done: set<nat>)
    requires CarriesCurrent(s, done) && (RedisFollows(s) || NothingSent(s, done))
    requires Enabled(s, RunCommand(id))
    ensures RedisFollows(Next(s, RunCommand(id)))
  {
    var t, all := Next(s, RunCommand(id)), Current(s);
    var queue := s.refreshes[id].queue;
    assert Orderly(queue, all) && t.refreshes[id].queue == queue[1..];
    match queue[0]
    case Del =>
      assert Awaits(t, id, Expire);
      if all != {} {
        assert Awaits(t, id, SAdd(all));
      }
    case SAdd(m) =>
      assert Awaits(t, id, Expire);
    case Expire =>
      if s.redis.members != all {
        var other :| Awaits(s, other, SAdd(all));
        var rest := t.refreshes[other].queue;
        assert Awaits(t, other, SAdd(all)) && rest != [];
        OrderlyEndsInExpire(rest, all);
        assert Awaits(t, other, Expire);
      }
  }

  /** Redis stays on its way when no awaited command is taken back. */
  lemma OthersAwait(s: State, t: State, id: nat)
    requires s.redis == t.redis && s.fixed == t.fixed && s.db == t.db
    requires forall i :: i != id && i in s.refreshes ==> i in t.refreshes && t.refreshes[i] == s.refreshes[i]
    requires forall c :: Awaits(s, id, c) ==> Awaits(t, id, c)
    ensures RedisFollows(s) ==> RedisFollows(t)
  {
    forall i, c | Awaits(s, i, c) ensures Awaits(t, i, c) {}
  }

  lemma CommandConverges(s: State, id: nat, done: set<nat>)
    requires Converging(s, done) && Enabled(s, RunCommand(id))
    ensures Converging(Next(s, RunCommand(id)), done)
  {
    CommandFollows(s, id, done);
  }

  /** More orderly commands, or the first ones of a refresh, change nothing yet. */
  lemma QueueConverges(s: State, id: nat, queue: seq<Command>, done: set<nat>)
    requires Converging(s, done) && id in s.refreshes && Orderly(queue, Current(s))
    requires s.refreshes[id].Writing? || s.refreshes[id].Started?
    requires if s.refreshes[id].Writing? then s.refreshes[id].queue <= queue else queue != [] && queue[0] == Del
    ensures Converging(s.(refreshes := s.refreshes[id := Writing(Current(s), queue)]), done)
  {
    var t := s.(refreshes := s.refreshes[id := Writing(Current(s), queue)]);
    OthersAwait(s, t, id);
  }

  lemma LoadConverges(s: State, id: nat, ok: bool, done: set<nat>)
    requires Converging(s, done) && Enabled(s, Load(id, ok))
    ensures Converging(Next(s, Load(id, ok)), done)
  {
    if ok {
      PipelineOrderly(Current(s));
      QueueConverges(s, id, Pipeline(Current(s)), done);
    } else {
      OthersAwait(s, Next(s, Load(id, ok)), id);
    }
  }

  lemma ResendConverges(s: State, id: nat, done: set<nat>)
    requires Converging(s, done) && Enabled(s, Resend(id))
    ensures Converging(Next(s, Resend(id)), done)
  {
    var f, all := s.refreshes[id], Current(s);
    PipelineOrderly(all);
    OrderlyAppend(f.queue, Pipeline(all), all);
    QueueConverges(s, id, f.queue + Pipeline(all), done);
  }

  lemma SwapConverges(s: State, id: nat, done: set<nat>)
    requires Converging(s, done) && Enabled(s, Swap(id))
    ensures Converging(Next(s, Swap(id)), done)
  {
    OthersAwait(s, Next(s, Swap(id)), id);
  }

  lemma StartConverges(s: State, id: nat, done: set<nat>)
    requires Converging(s, done) && Enabled(s, StartRefresh(id))
    requires forall i :: i in done ==> i in s.refreshes
    ensures Converging(Next(s, StartRefresh(id)), done)
  {
    OthersAwait(s, Next(s, StartRefresh(id)), id);
  }

  lemma OutageConverges(s: State, up: bool, done: set<nat>)
    requires Converging(s, done)
    ensures Converging(Next(s, SetRedis(up)), done)
  {
    OthersAwait(s, Next(s, SetRedis(up)), 0);
  }

  lemma StepConverges(s: State, step: Step, done: set<nat>)
    requires Converging(s, done) && Calm(step, done)
    requires forall id :: id in done ==> id in s.refreshes
    ensures Converging(Next(s, step), done)
  {
    if Enabled(s, step) {
      match step
      case StartRefresh(id) => StartConverges(s, id, done);
      case Load(id, ok) => LoadConverges(s, id, ok, done);
      case RunCommand(id) => CommandConverges(s, id, done);
      case Resend(id) => ResendConverges(s, id, done);
      case LoseCommands(id) => NothingToLose(s, id);
      case Swap(id) => SwapConverges(s, id, done);
      case SetRedis(up) => OutageConverges(s, up, done);
      case WriteDb(_) =>
      case ExpireKey =>
    }
  }

  /** What no calm step touches. */
  ghost predicate Keeps(s: State, t: State, done: set<nat>) {
    t.db == s.db && t.fixed == s.fixed && forall id :: id in done ==> id in t.refreshes
  }

  lemma StepKeeps(s: State, step: Step, done: set<nat>)
    requires Calm(step, done) && forall id :: id in done ==> id in s.refreshes
    ensures Keeps(s, Next(s, step), done)
  {
  }

  lemma {:induction false} RunConverges(s: State, steps: seq<Step>, done: set<nat>)
    requires Converging(s, done) && forall id :: id in done ==> id in s.refreshes
    requires forall i :: 0 <= i < |steps| ==> Calm(steps[i], done)
    ensures Converging(After(s, steps), done) && Keeps(s, After(s, steps), done)
    decreases |steps|
  {
    if steps == [] {
    } else {
      var shorter, last := steps[..|steps| - 1], steps[|steps| - 1];
      RunConverges(s, shorter, done);
      StepConverges(After(s, shorter), last, done);
      StepKeeps(After(s, shorter), last, done);
    }
  }

  /** Where nothing is in flight any more, one refresh outside `done` suffices for coherence. */
  lemma IdleIsCoherent(s: State, done: set<nat>, id: nat)
    requires Converging(s, done) && Idle(s)
    requires id !in done && id in s.refreshes && s.refreshes[id].Swapped?
    ensures Coherent(s)
  {
    assert !exists i, c :: Awaits(s, i, c);
    assert InFlight(s, id) && s.refreshes[id].queue == [];
  }

  function SettledIds(s: State): set<nat> {
    set id | id in s.refreshes && Settled(s.refreshes[id])
  }

  /** After the last write, from a state in which no loaded origins are on their way, any number of
      refreshes may overlap in any interleaving, with retries and failed loads: once one of them
      has succeeded, both caches hold exactly the static and live origins whenever nothing is in
      flight, as long as the key does not expire and no command is lost. Then either cache knows an
      origin exactly when it is static or an organization that is not deleted lists it. */
  lemma CoherentAfterRefresh(s: State, steps: seq<Step>, id: nat, origin: string)
    requires Idle(s)
    requires forall i :: 0 <= i < |steps| ==> Calm(steps[i], SettledIds(s))
    ensures var t := After(s, steps);
            Idle(t) && id !in SettledIds(s) && id in t.refreshes && t.refreshes[id].Swapped? ==>
              && t.db == s.db && Coherent(t)
              && RedisAnswer(t, origin) == MemoryAnswer(t, origin)
              && (RedisAnswer(t, origin) <==>
                    origin in s.fixed ||
                    exists o :: o in s.db && !s.db[o].deleted && s.db[o].origins.Some? &&
                                origin in s.db[o].origins.value)
  {
    var done, t := SettledIds(s), After(s, steps);
    RunConverges(s, steps, done);
    if Idle(t) && id !in done && id in t.refreshes && t.refreshes[id].Swapped? {
      IdleIsCoherent(t, done, id);
    }
  }

  /** Nothing but a new refresh brings an expired key back: requests do not trigger one. */
  lemma {:induction false} ExpiredStaysEmpty(s: State, steps: seq<Step>)
    requires Quiet(s) && s.redis == Redis({}, false)
    requires forall i :: 0 <= i < |steps| ==> !steps[i].StartRefresh?
    ensures After(s, steps).redis == Redis({}, false) && Quiet(After(s, steps))
    ensures After(s, steps).fixed == s.fixed && After(s, steps).memory == s.memory
    ensures forall origin :: Allowed(After(s, steps), origin, true) <==> origin in s.fixed
    decreases |steps|
  {
    if steps == [] {
    } else {
      ExpiredStaysEmpty(s, steps[..|steps| - 1]);
    }
  }

  /** So from the expiry on, in every run without a new refresh, the caches answer differently for
      exactly the origins the memory map held. */
  lemma ExpiryPartsCaches(s: State, steps: seq<Step>, origin: string)
    requires Quiet(s) && s.redis.expires
    requires forall i :: 0 <= i < |steps| ==> !steps[i].StartRefresh?
    ensures var t := After(Next(s, ExpireKey), steps);
            RedisAnswer(t, origin) == MemoryAnswer(t, origin) <==> origin !in s.memory
  {
    ExpiredStaysEmpty(Next(s, ExpireKey), steps);
  }

  // ---- overlapping refreshes ------------------------------------------------------------

  lemma Continue(s: State, steps: seq<Step>, step: Step) returns (longer: seq<Step>, t: State)
    ensures longer == steps + [step]
    ensures t == After(s, longer) == Next(After(s, steps), step)
  {
    longer := steps + [step];
    assert longer[..|steps|] == steps;
    t := After(s, longer);
  }

  function Commands(id: nat, n: nat): seq<Step> {
    if n == 0 then [] else Commands(id, n - 1) + [RunCommand(id)]
  }

  /** A refresh that has sent its first `n` commands. */
  function Sent(s: State, id: nat, all: set<string>, n: nat): State
    requires n <= |Pipeline(all)|
  {
    s.(redis := ExecuteAll(s.redis, Pipeline(all)[..n]),
       refreshes := s.refreshes[id := Writing(all, Pipeline(all)[n..])])
  }

  lemma ExecuteOneMore(r: Redis, queue: seq<Command>, k: nat)
    requires k < |queue|
    ensures ExecuteAll(r, queue[..k + 1]) == Execute(ExecuteAll(r, queue[..k]), queue[k])
  {
    var before, last := queue[..k], [queue[k]];
    assert queue[..k + 1] == before + last && last[1..] == [];
    ExecuteAppend(r, before, last);
    assert ExecuteAll(ExecuteAll(r, before), last) == ExecuteAll(Execute(ExecuteAll(r, before), queue[k]), last[1..]);
  }

  lemma SendOne(s: State, id: nat, all: set<string>, n: nat)
    requires n < |Pipeline(all)| && s.redisUp
    ensures Next(Sent(s, id, all, n), RunCommand(id)) == Sent(s, id, all, n + 1)
  {
    var p := Pipeline(all);
    assert p[n..][0] == p[n] && p[n..][1..] == p[n + 1..];
    ExecuteOneMore(s.redis, p, n);
    assert s.refreshes[id := Writing(all, p[n..])][id := Writing(all, p[n + 1..])] ==
           s.refreshes[id := Writing(all, p[n + 1..])];
  }

  lemma SendNext(s: State, id: nat, before: State, steps: seq<Step>, all: set<string>, n: nat)
    requires n < |Pipeline(all)| && s.redisUp && After(before, steps) == Sent(s, id, all, n)
    ensures After(before, steps + [RunCommand(id)]) == Sent(s, id, all, n + 1)
  {
    SendOne(s, id, all, n);
    var longer, t := Continue(before, steps, RunCommand(id));
  }

  lemma {:induction false} RunCommands(s: State, id: nat, before: State, steps: seq<Step>, all: set<string>, n: nat)
    requires n <= |Pipeline(all)| && s.redisUp
    requires After(before, steps) == Sent(s, id, all, 0)
    ensures After(before, steps + Commands(id, n)) == Sent(s, id, all, n)
  {
    if n == 0 {
      assert steps + Commands(id, n) == steps;
    } else {
      RunCommands(s, id, before, steps, all, n - 1);
      var sent := steps + Commands(id, n - 1);
      assert steps + Commands(id, n) == sent + [RunCommand(id)];
      SendNext(s, id, before, sent, all, n - 1);
    }
  }

  /** The refresh has loaded and sent nothing yet. */
  predicate Loaded(s: State, id: nat) {
    id in s.refreshes && s.refreshes[id].Writing? && s.refreshes[id].queue == Pipeline(s.refreshes[id].all)
  }

  ghost predicate AllLoaded(s: State) {
    forall id :: id in s.refreshes ==> Settled(s.refreshes[id]) || Loaded(s, id)
  }

  predicate Finishing(step: Step) { step.RunCommand? || step.Swap? }

  ghost predicate OnlyFinishing(steps: seq<Step>) {
    forall step :: step in steps ==> Finishing(step)
  }

  /** Every interleaving that brings all refreshes to their end leaves both caches right. */
  ghost predicate AlwaysEndsCoherent(s: State) {
    forall steps :: OnlyFinishing(steps) && Quiet(After(s, steps)) ==> Coherent(After(s, steps))
  }

  /** The state in which refresh `id` has run to its end without interruption. */
  function Finished(s: State, id: nat): State
    requires Loaded(s, id)
  {
    var all := s.refreshes[id].all;
    s.(redis := Redis(all, all != {}), memory := all, refreshes := s.refreshes[id := Swapped(all, [])])
  }

  lemma {:induction false} CommandsFinish(id: nat, n: nat)
    ensures OnlyFinishing(Commands(id, n))
  {
    if n == 0 {
    } else {
      CommandsFinish(id, n - 1);
    }
  }

  lemma FinishOne(s: State, steps: seq<Step>, id: nat) returns (longer: seq<Step>)
    requires Loaded(After(s, steps), id) && After(s, steps).redisUp && OnlyFinishing(steps)
    ensures After(s, longer) == Finished(After(s, steps), id) && OnlyFinishing(longer)
  {
    var t := After(s, steps);
    var all := t.refreshes[id].all;
    var p := Pipeline(all);
    var n := |p|;
    assert p[0..] == p && p[..0] == [] && p[n..] == [] && p[..n] == p;
    assert t.refreshes == t.refreshes[id := Writing(all, p)];
    assert t == Sent(t, id, all, 0);
    RunCommands(t, id, s, steps, all, n);
    CommandsFinish(id, n);
    PipelineStores(t.redis, all);
    var u: State;
    longer, u := Continue(s, steps + Commands(id, n), Swap(id));
    assert u.refreshes == t.refreshes[id := Swapped(all, [])];
  }

  /** Some interleaving finishes the refreshes `ids` and touches no other. */
  lemma {:induction false} FinishAll(s: State, steps: seq<Step>, ids: set<nat>) returns (longer: seq<Step>)
    requires After(s, steps).redisUp && OnlyFinishing(steps)
    requires forall id :: id in ids ==> Loaded(After(s, steps), id)
    ensures OnlyFinishing(longer)
    ensures var t, u := After(s, steps), After(s, longer);
            && u.redisUp && Current(u) == Current(t) && u.refreshes.Keys == t.refreshes.Keys
            && forall id :: id in t.refreshes ==>
                 if id in ids then Settled(u.refreshes[id]) else u.refreshes[id] == t.refreshes[id]
    decreases ids
  {
    if ids == {} {
      longer := steps;
    } else {
      var id :| id in ids;
      longer := FinishOne(s, steps, id);
      longer := FinishAll(s, longer, ids - {id});
    }
  }

  lemma {:induction false} FinishingKeepsFlight(s: State, steps: seq<Step>, id: nat)
    requires OnlyFinishing(steps) && InFlight(s, id)
    ensures InFlight(After(s, steps), id)
    decreases |steps|
  {
    if steps == [] {
    } else {
      FinishingKeepsFlight(s, steps[..|steps| - 1], id);
      assert Finishing(steps[|steps| - 1]);
    }
  }

  lemma AllCurrentEndsCoherent(s: State, steps: seq<Step>, id: nat)
    requires AllLoaded(s) && Loaded(s, id) && OnlyFinishing(steps) && Quiet(After(s, steps))
    requires forall i :: Loaded(s, i) ==> s.refreshes[i].all == Current(s)
    ensures Coherent(After(s, steps))
  {
    PipelineOrderly(Current(s));
    forall i | 0 <= i < |steps| ensures Calm(steps[i], SettledIds(s)) {
      assert Finishing(steps[i]);
    }
    RunConverges(s, steps, SettledIds(s));
    FinishingKeepsFlight(s, steps, id);
    IdleIsCoherent(After(s, steps), SettledIds(s), id);
  }

  /** A refresh that runs after all others leaves what it loaded, current or not. */
  lemma LastWins(s: State, id: nat) returns (steps: seq<Step>)
    requires AllLoaded(s) && Loaded(s, id) && s.redisUp
    ensures OnlyFinishing(steps) && Quiet(After(s, steps)) && Current(After(s, steps)) == Current(s)
    ensures After(s, steps).memory == After(s, steps).redis.members == s.refreshes[id].all
  {
    var others := set i | i in s.refreshes && Loaded(s, i) && i != id;
    steps := FinishAll(s, [], others);
    steps := FinishOne(s, steps, id);
  }

  /** The exact condition: of any number of refreshes that have loaded and not yet written, every
      interleaving ends with both caches right if and only if each loaded the current origins. */
  lemma OverlapCoherentIff(s: State, id: nat)
    requires AllLoaded(s) && Loaded(s, id) && s.redisUp
    ensures AlwaysEndsCoherent(s) <==> forall i :: Loaded(s, i) ==> s.refreshes[i].all == Current(s)
  {
    if forall i :: Loaded(s, i) ==> s.refreshes[i].all == Current(s) {
      forall steps | OnlyFinishing(steps) && Quiet(After(s, steps)) ensures Coherent(After(s, steps)) {
        AllCurrentEndsCoherent(s, steps, id);
      }
    } else {
      var stale :| Loaded(s, stale) && s.refreshes[stale].all != Current(s);
      var steps := LastWins(s, stale);
      assert !Coherent(After(s, steps));
    }
  }

  /** A refresh whose commands are all lost still replaces the memory map, and ends with Redis as it
      was: the caches then agree exactly if Redis already held what it loaded. */
  lemma LostCommandsPartCaches(s: State, id: nat)
    requires Loaded(s, id) && forall other :: other in s.refreshes && other != id ==> Settled(s.refreshes[other])
    ensures var t := After(s, [LoseCommands(id), Swap(id)]);
            Quiet(t) && t.redis == s.redis && t.memory == s.refreshes[id].all
  {
    var steps, t := Continue(s, [], LoseCommands(id));
    var all := s.refreshes[id].all;
    assert t.refreshes == s.refreshes[id := Writing(all, [])];
    steps, t := Continue(s, steps, Swap(id));
    assert t.refreshes == s.refreshes[id := Swapped(all, [])];
    assert steps == [LoseCommands(id), Swap(id)];
  }

  /** A retry after all commands were lost is as good as no loss. */
  lemma RetryRecovers(s: State, id: nat)
    requires Loaded(s, id)
    ensures After(s, [LoseCommands(id), Resend(id)]) == s
  {
    var steps, t := Continue(s, [], LoseCommands(id));
    var all := s.refreshes[id].all;
    assert t.refreshes == s.refreshes[id := Writing(all, [])];
    steps, t := Continue(s, steps, Resend(id));
    assert [] + Pipeline(all) == Pipeline(all);
    assert t.refreshes == s.refreshes[id := Writing(all, Pipeline(all))] == s.refreshes;
    assert steps == [LoseCommands(id), Resend(id)];
  }

  /** While Redis is down nothing reaches it, whatever the refreshes do; only the expiry of a key that
      has one can change it. */
  lemma {:induction false} OutageFreezesRedis(s: State, steps: seq<Step>)
    requires forall i :: 0 <= i < |steps| ==> steps[i] != SetRedis(true) && (s.redis.expires ==> steps[i] != ExpireKey)
    ensures var t := After(Next(s, SetRedis(false)), steps);
            t.redis == s.redis && !t.redisUp
    decreases |steps|
  {
    if steps == [] {
    } else {
      OutageFreezesRedis(s, steps[..|steps| - 1]);
    }
  }

  // ---- an interleaving around a write ----------------------------------------------------

  function Holding(origin: string): Table {
    map["org" := Organization(false, Some([origin]))]
  }

  lemma HoldingIsLive(origin: string)
    ensures LiveOrigins(Holding(origin)) == {origin} && {} + LiveOrigins(Holding(origin)) == {origin}
  {
    assert origin in Holding(origin)["org"].origins.value;
  }

  /** Two refreshes that loaded before and after a write, with these commands still to send. */
  function Overlapping(x: string, y: string, redis: Redis, qx: seq<Command>, qy: seq<Command>): State {
    State({}, Holding(y), redis, true, {}, map[0 := Writing({x}, qx), 1 := Writing({y}, qy)])
  }

  lemma OverlapLoads(x: string, y: string) returns (s: State, steps: seq<Step>)
    ensures Initial(s) && s.redisUp && s.fixed == {}
    ensures After(s, steps) == Overlapping(x, y, Redis({}, false), Pipeline({x}), Pipeline({y}))
  {
    HoldingIsLive(x);
    HoldingIsLive(y);
    s := State({}, Holding(x), Redis({}, false), true, {}, map[]);
    var t: State;
    steps, t := Continue(s, [], StartRefresh(0));
    steps, t := Continue(s, steps, Load(0, true));
    assert t == s.(refreshes := map[0 := Writing({x}, Pipeline({x}))]);
    steps, t := Continue(s, steps, WriteDb(Holding(y)));
    steps, t := Continue(s, steps, StartRefresh(1));
    steps, t := Continue(s, steps, Load(1, true));
  }

  lemma SendFromFirst(x: string, y: string, redis: Redis, qx: seq<Command>, qy: seq<Command>)
    requires qx != []
    ensures Next(Overlapping(x, y, redis, qx, qy), RunCommand(0)) ==
            Overlapping(x, y, Execute(redis, qx[0]), qx[1..], qy)
  {
    assert Overlapping(x, y, redis, qx, qy).refreshes[0 := Writing({x}, qx[1..])] ==
           map[0 := Writing({x}, qx[1..]), 1 := Writing({y}, qy)];
  }

  lemma SendFromSecond(x: string, y: string, redis: Redis, qx: seq<Command>, qy: seq<Command>)
    requires qy != []
    ensures Next(Overlapping(x, y, redis, qx, qy), RunCommand(1)) ==
            Overlapping(x, y, Execute(redis, qy[0]), qx, qy[1..])
  {
    assert Overlapping(x, y, redis, qx, qy).refreshes[1 := Writing({y}, qy[1..])] ==
           map[0 := Writing({x}, qx), 1 := Writing({y}, qy[1..])];
  }

  /** Each sends its next command in turn. */
  lemma OverlapSends(s: State, steps: seq<Step>, x: string, y: string, redis: Redis, qx: seq<Command>, qy: seq<Command>)
    returns (longer: seq<Step>)
    requires qx != [] && qy != [] && After(s, steps) == Overlapping(x, y, redis, qx, qy)
    ensures After(s, longer) == Overlapping(x, y, Execute(Execute(redis, qx[0]), qy[0]), qx[1..], qy[1..])
  {
    SendFromFirst(x, y, redis, qx, qy);
    SendFromSecond(x, y, Execute(redis, qx[0]), qx[1..], qy);
    var t: State;
    longer, t := Continue(s, steps, RunCommand(0));
    longer, t := Continue(s, longer, RunCommand(1));
  }

  /** Overlap matters: two refreshes around one write can leave an origin in Redis that the
      database no longer has and that the memory map does not hold. */
  lemma OverlapLeavesStaleOrigin(x: string, y: string) returns (s: State, steps: seq<Step>)
    requires x != y
    ensures Initial(s) && s.redisUp && s.fixed == {}
    ensures var t := After(s, steps);
            Quiet(t) && LiveOrigins(t.db) == {y} && t.memory == {y} && t.redis.members == {x, y}
  {
    var px, py := Pipeline({x}), Pipeline({y});
    assert px == [Del, SAdd({x}), Expire] && py == [Del, SAdd({y}), Expire];
    s, steps := OverlapLoads(x, y);
    steps := OverlapSends(s, steps, x, y, Redis({}, false), px, py);
    steps := OverlapSends(s, steps, x, y, Redis({}, false), px[1..], py[1..]);
    steps := OverlapSends(s, steps, x, y, Redis({} + {x} + {y}, false), px[1..][1..], py[1..][1..]);
    HoldingIsLive(y);
    var t: State;
    steps, t := Continue(s, steps, Swap(0));
    steps, t := Continue(s, steps, Swap(1));
  }
}
