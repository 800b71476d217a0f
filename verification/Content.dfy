/** Content items and their collaborators (`internal/handlers/content_handler.go`,
    `internal/queries/content_queries.go`). A request first reads the caller's role and later
    runs its SQL statement; requests interleave between the two. */
module Content {
  import opened Basics

  /** Ids are the uuids the texts denote; a text that denotes none is like an unknown one. */
  type Id = string
  type User = string
  type Org = string

  /** One row of content_items. `published` says published_at is set, `deleted` that deleted_at
      is; `text` stands for the editable columns. */
  datatype Item = Item(owner: User, org: Org, status: string, published: bool, deleted: bool, text: string)

  /** The two tables and the users they refer to; collaborators are keyed by (content_id,
      user_id). */
  datatype Tables = Tables(users: set<User>, items: map<Id, Item>, collaborators: map<(Id, User), string>)

  /** The writing statements, with their arguments. */
  datatype Statement =
    | InsertOwner(id: Id, user: User)
    | InsertCoAuthor(id: Id, user: User)
    | DeleteCollaborator(id: Id, user: User)
    | SoftDelete(id: Id, org: Org)
    | SetStatus(id: Id, org: Org, status: string)
    | SetText(id: Id, org: Org, text: string)

  /** The roles the table's check constraint admits. */
  const ROLES := {"owner", "co-author"}

  const STATUSES := {"draft", "published", "archived", "private", "hidden"}
  /** The statuses the table's check constraint admits. */
  const STORABLE := {"draft", "published", "archived"}

  /** The row a statement's WHERE clause selects: by id, organization, and not deleted. */
  predicate Selects(t: Tables, id: Id, org: Org) {
    id in t.items && t.items[id].org == org && !t.items[id].deleted
  }

  /** Upsert of a collaborator; the foreign keys reject an unknown item or user. */
  function Upsert(t: Tables, id: Id, user: User, role: string): Tables {
    if id in t.items && user in t.users then t.(collaborators := t.collaborators[(id, user) := role]) else t
  }

  /** What a statement does to the tables. A rejected or unmatched statement does nothing. */
  function Execute(t: Tables, st: Statement): Tables {
    match st
    case InsertOwner(id, u) => Upsert(t, id, u, "owner")
    case InsertCoAuthor(id, u) => Upsert(t, id, u, "co-author")
    case DeleteCollaborator(id, u) =>
      if (id, u) in t.collaborators && t.collaborators[(id, u)] != "owner" then
        t.(collaborators := t.collaborators - {(id, u)})
      else t
    case SoftDelete(id, org) =>
      if Selects(t, id, org) then t.(items := t.items[id := t.items[id].(deleted := true)]) else t
    case SetStatus(id, org, status) =>
      if Selects(t, id, org) && status in STORABLE then
        var item := t.items[id];
        t.(items := t.items[id := item.(status := status, published := item.published || status == "published")])
      else t
    case SetText(id, org, text) =>
      if Selects(t, id, org) then t.(items := t.items[id := t.items[id].(text := text)]) else t
  }

  // ---- authorization --------------------------------------------------------------------

  predicate HasRole(t: Tables, id: Id, user: User, role: string) {
    (id, user) in t.collaborators && t.collaborators[(id, user)] == role
  }

  /** contentRole: the collaborator row, or else the item's owner column. None is "not found". */
  function ContentRole(t: Tables, user: User, org: Org, id: Id): Option<string> {
    if (id, user) in t.collaborators && t.collaborators[(id, user)] != "" then Some(t.collaborators[(id, user)])
    else if !Selects(t, id, org) then None
    else Some(if t.items[id].owner == user then "owner" else "")
  }

  /** The role check in front of each statement. Nobody may ask for an owner row. */
  predicate Authorized(t: Tables, st: Statement, user: User, org: Org) {
    var role := ContentRole(t, user, org, st.id);
    match st
    case InsertOwner(_, _) => false
    case InsertCoAuthor(_, u) => role == Some("owner") && u != ""
    case DeleteCollaborator(_, _) => role == Some("owner")
    case SoftDelete(_, o) => role == Some("owner") && o == org
    case SetStatus(_, o, status) => role.Some? && role != Some("") && o == org && status in STATUSES
    case SetText(_, o, _) => role.Some? && role != Some("") && o == org
  }

  // ---- runs -----------------------------------------------------------------------------

  /** `pending` are the statements of requests that have passed their role check. */
  datatype State = State(tables: Tables, pending: multiset<Statement>)

  datatype Step =
    | AddUser(user: User)
    | Create(id: Id, user: User, org: Org, text: string)
    | Check(statement: Statement, user: User, org: Org)
    | Act(statement: Statement)
    | Fail(statement: Statement)

  predicate Initial(s: State) {
    s.tables.items == map[] && s.tables.collaborators == map[] && s.pending == multiset{}
  }

  predicate Enabled(s: State, step: Step) {
    match step
    case AddUser(_) => true
    case Create(id, user, _, _) => id !in s.tables.items && user in s.tables.users
    case Check(st, user, org) => Authorized(s.tables, st, user, org)
    case Act(st) => st in s.pending
    case Fail(st) => st in s.pending
  }

  /** CreateContent inserts the item, and its owner row as a second statement. User rows are never
      removed. */
  function Next(s: State, step: Step): State {
    if !Enabled(s, step) then s
    else
      match step
      case AddUser(user) => s.(tables := s.tables.(users := s.tables.users + {user}))
      case Create(id, user, org, text) =>
        State(s.tables.(items := s.tables.items[id := Item(user, org, "draft", false, false, text)]),
              s.pending + multiset{InsertOwner(id, user)})
      case Check(st, _, _) => s.(pending := s.pending + multiset{st})
      case Act(st) => State(Execute(s.tables, st), s.pending - multiset{st})
      case Fail(st) => s.(pending := s.pending - multiset{st})
  }

  function After(s: State, steps: seq<Step>): State {
    if steps == [] then s else Next(After(s, steps[..|steps| - 1]), steps[|steps| - 1])
  }

  // ---- ownership --------------------------------------------------------------------------

  /** What the foreign keys keep: owners and collaborators are users, and rows belong to items. */
  ghost predicate Referential(t: Tables) {
    && (forall id :: id in t.items ==> t.items[id].owner in t.users)
    && (forall id, u :: (id, u) in t.collaborators ==> id in t.items && u in t.users)
  }

  /** Rows carry one of two roles; an owner row, standing or on its way, names the item's owner; a
      published item has its publication date. */
  ghost predicate Consistent(s: State) {
    var t := s.tables;
    && Referential(t)
    && (forall id, u :: (id, u) in t.collaborators ==>
          && t.collaborators[(id, u)] in ROLES
          && (t.collaborators[(id, u)] == "owner" ==> t.items[id].owner == u))
    && (forall st :: st in s.pending && st.InsertOwner? ==> st.id in t.items && t.items[st.id].owner == st.user)
    && (forall id :: id in t.items && t.items[id].status == "published" ==> t.items[id].published)
  }

  /** Items stay, keep owner, organization and publication date, and once deleted do not change
      at all. */
  ghost predicate Preserves(t: Tables, u: Tables) {
    forall id :: id in t.items ==>
      && id in u.items && u.items[id].owner == t.items[id].owner && u.items[id].org == t.items[id].org
      && (t.items[id].published ==> u.items[id].published)
      && (t.items[id].deleted ==> u.items[id] == t.items[id])
  }

  lemma StepPreserves(s: State, step: Step)
    ensures Preserves(s.tables, Next(s, step).tables)
  {
  }

  lemma StepConsistent(s: State, step: Step)
    requires Consistent(s)
    ensures Consistent(Next(s, step))
  {
    var t := Next(s, step);
    StepPreserves(s, step);
    if Enabled(s, step) {
      match step
      case Act(st) =>
        ExecuteConsistent(s, st);
      case _ =>
        assert t.tables.collaborators == s.tables.collaborators;
    }
  }

  lemma ExecuteReferential(t: Tables, st: Statement)
    requires Referential(t)
    ensures Referential(Execute(t, st))
  {
  }

  lemma ExecuteConsistent(s: State, st: Statement)
    requires Consistent(s) && st in s.pending
    ensures Consistent(State(Execute(s.tables, st), s.pending - multiset{st}))
  {
    var t := Execute(s.tables, st);
    ExecuteReferential(s.tables, st);
    assert forall x :: x in s.pending - multiset{st} ==> x in s.pending;
    match st
    case InsertOwner(id, u) =>
    case InsertCoAuthor(id, u) =>
    case DeleteCollaborator(id, u) =>
    case _ => assert t.collaborators == s.tables.collaborators;
  }

  lemma {:induction false} RunConsistent(s: State, steps: seq<Step>)
    requires Initial(s)
    ensures Consistent(After(s, steps))
    decreases |steps|
  {
    if steps == [] {
    } else {
      RunConsistent(s, steps[..|steps| - 1]);
      StepConsistent(After(s, steps[..|steps| - 1]), steps[|steps| - 1]);
    }
  }

  lemma {:induction false} RunPreserves(s: State, steps: seq<Step>)
    ensures Preserves(s.tables, After(s, steps).tables)
    decreases |steps|
  {
    if steps == [] {
    } else {
      RunPreserves(s, steps[..|steps| - 1]);
      StepPreserves(After(s, steps[..|steps| - 1]), steps[|steps| - 1]);
    }
  }

  /** In every reachable state only an item's unchanging owner can hold its owner row, so there
      is at most one; `published` implies a publication date; removing a collaborator never
      removes an owner row. */
  lemma OwnerRowIsUnique(s: State, steps: seq<Step>, id: Id, u: User, v: User, w: User)
    requires Initial(s)
    ensures var t := After(s, steps).tables;
            && (HasRole(t, id, u, "owner") ==> id in t.items && t.items[id].owner == u)
            && (HasRole(t, id, u, "owner") && HasRole(t, id, v, "owner") ==> u == v)
            && (id in t.items && t.items[id].status == "published" ==> t.items[id].published)
            && (HasRole(t, id, u, "owner") ==> HasRole(Execute(t, DeleteCollaborator(id, w)), id, u, "owner"))
  {
    RunConsistent(s, steps);
  }

  /** A deleted item is never changed again, and owner and organization never change. */
  lemma DeletedIsFinal(s: State, steps: seq<Step>, more: seq<Step>)
    requires Initial(s)
    ensures Preserves(After(s, steps).tables, After(After(s, steps), more).tables)
  {
    RunPreserves(After(s, steps), more);
  }

  // ---- the owner keeps the item, unless invited to it ------------------------------------

  /** The step runs an accepted invitation aimed at the item's own owner. */
  predicate InvitesOwner(s: State, step: Step) {
    && step.Act? && step.statement.InsertCoAuthor? && step.statement in s.pending
    && step.statement.id in s.tables.items
    && s.tables.items[step.statement.id].owner == step.statement.user
  }

  ghost predicate NeverInvitesOwner(s: State, steps: seq<Step>) {
    forall i :: 0 <= i < |steps| ==> !InvitesOwner(After(s, steps[..i]), steps[i])
  }

  /** Any row an owner has on the own item says so. */
  ghost predicate OwnersIntact(t: Tables) {
    forall id :: id in t.items && (id, t.items[id].owner) in t.collaborators ==>
      t.collaborators[(id, t.items[id].owner)] == "owner"
  }

  /** Exactly such a step damages an owner's row. */
  lemma StepKeepsOwnersIff(s: State, step: Step)
    requires Consistent(s) && OwnersIntact(s.tables)
    ensures OwnersIntact(Next(s, step).tables) <==> !InvitesOwner(s, step)
  {
    StepPreserves(s, step);
    if InvitesOwner(s, step) {
      var id := step.statement.id;
      var owner := s.tables.items[id].owner;
      assert Next(s, step).tables.collaborators[(id, owner)] == "co-author";
    } else if Enabled(s, step) && step.Create? {
      assert (step.id, step.user) !in s.tables.collaborators;
    }
  }

  lemma {:induction false} RunKeepsOwners(s: State, steps: seq<Step>)
    requires Initial(s)
    requires NeverInvitesOwner(s, steps)
    ensures OwnersIntact(After(s, steps).tables)
    decreases |steps|
  {
    if steps == [] {
    } else {
      var shorter := steps[..|steps| - 1];
      forall i | 0 <= i < |shorter| ensures shorter[..i] == steps[..i] && shorter[i] == steps[i] {}
      RunKeepsOwners(s, shorter);
      RunConsistent(s, shorter);
      StepKeepsOwnersIff(After(s, shorter), steps[|steps| - 1]);
    }
  }

  /** Over a whole run: every owner's row is intact at every moment exactly when no accepted
      invitation is aimed at an owner. */
  lemma OwnersIntactIff(s: State, steps: seq<Step>)
    requires Initial(s)
    ensures NeverInvitesOwner(s, steps) <==>
            forall n: nat :: n <= |steps| ==> OwnersIntact(After(s, steps[..n]).tables)
  {
    if NeverInvitesOwner(s, steps) {
      forall n: nat | n <= |steps| ensures OwnersIntact(After(s, steps[..n]).tables) {
        forall i | 0 <= i < n ensures steps[..n][..i] == steps[..i] && steps[..n][i] == steps[i] {}
        RunKeepsOwners(s, steps[..n]);
      }
    }
    if forall n: nat :: n <= |steps| ==> OwnersIntact(After(s, steps[..n]).tables) {
      forall i: nat | i < |steps| ensures !InvitesOwner(After(s, steps[..i]), steps[i]) {
        RunConsistent(s, steps[..i]);
        StepKeepsOwnersIff(After(s, steps[..i]), steps[i]);
        assert steps[..i + 1][..i] == steps[..i] && steps[..i + 1][i] == steps[i];
        assert OwnersIntact(After(s, steps[..i + 1]).tables);
      }
    }
  }

  /** And the owner can always do it: on any live item of any such state the owner's invitation of
      the own account is accepted, and running it replaces the owner role by co-author. */
  lemma SelfInviteDemotes(s: State, id: Id)
    requires Consistent(s) && OwnersIntact(s.tables)
    requires id in s.tables.items && !s.tables.items[id].deleted && s.tables.items[id].owner != ""
    ensures var owner, org := s.tables.items[id].owner, s.tables.items[id].org;
            var invite := InsertCoAuthor(id, owner);
            var checked := Next(s, Check(invite, owner, org));
            var t := Next(checked, Act(invite)).tables;
            && ContentRole(s.tables, owner, org, id) == Some("owner")
            && Enabled(s, Check(invite, owner, org)) && InvitesOwner(checked, Act(invite))
            && HasRole(t, id, owner, "co-author") && ContentRole(t, owner, org, id) == Some("co-author")
  {
    var owner, org := s.tables.items[id].owner, s.tables.items[id].org;
    assert Authorized(s.tables, InsertCoAuthor(id, owner), owner, org);
  }

  /** If no invitation aimed at an owner is ever run, every owner has the owner role on every
      live item, whether or not the owner row was inserted at creation. */
  lemma OwnerKeepsRole(s: State, steps: seq<Step>, id: Id)
    requires Initial(s)
    requires NeverInvitesOwner(s, steps)
    ensures var t := After(s, steps).tables;
            id in t.items && !t.items[id].deleted ==>
              ContentRole(t, t.items[id].owner, t.items[id].org, id) == Some("owner")
  {
    RunConsistent(s, steps);
    RunKeepsOwners(s, steps);
  }

  /** In a reachable state the owner of a live item lacks the owner role exactly when the own
      row has been overwritten to co-author, and then nobody has it. */
  lemma OwnerLostIff(s: State, steps: seq<Step>, id: Id)
    requires Initial(s)
    ensures var t := After(s, steps).tables;
            id in t.items && !t.items[id].deleted ==>
              var owner := t.items[id].owner;
              && (ContentRole(t, owner, t.items[id].org, id) != Some("owner") <==> HasRole(t, id, owner, "co-author"))
              && (ContentRole(t, owner, t.items[id].org, id) != Some("owner") ==>
                  forall u, org :: ContentRole(t, u, org, id) != Some("owner"))
  {
    RunConsistent(s, steps);
  }

  /** The owner's row says co-author. */
  predicate Demoted(t: Tables, id: Id) {
    id in t.items && HasRole(t, id, t.items[id].owner, "co-author")
  }

  /** The statement gives a demoted owner the role back: it restores the owner row, or removes the
      row so that the owner column counts again. */
  predicate Restores(t: Tables, id: Id, st: Statement) {
    id in t.items && (st == InsertOwner(id, t.items[id].owner) || st == DeleteCollaborator(id, t.items[id].owner))
  }

  /** The item has lost its owner, and no statement that restores one is under way. */
  ghost predicate Orphaned(s: State, id: Id) {
    Demoted(s.tables, id) && forall st :: st in s.pending ==> !Restores(s.tables, id, st)
  }

  lemma DemotedHasNoOwner(s: State, id: Id)
    requires Consistent(s) && Demoted(s.tables, id)
    ensures forall u, org :: ContentRole(s.tables, u, org, id) != Some("owner")
  {
  }

  lemma NoRestoreIsAuthorized(s: State, id: Id, st: Statement, user: User, org: Org)
    requires Consistent(s) && Demoted(s.tables, id) && Authorized(s.tables, st, user, org)
    ensures !Restores(s.tables, id, st)
  {
    DemotedHasNoOwner(s, id);
  }

  lemma ExecuteKeepsDemoted(t: Tables, id: Id, st: Statement)
    requires Demoted(t, id) && !Restores(t, id, st)
    requires st.InsertOwner? && st.id in t.items ==> t.items[st.id].owner == st.user
    ensures Demoted(Execute(t, st), id) && Execute(t, st).items[id].owner == t.items[id].owner
  {
  }

  lemma StepKeepsOrphan(s: State, step: Step, id: Id)
    requires Consistent(s) && Orphaned(s, id)
    ensures Orphaned(Next(s, step), id)
  {
    var t := Next(s, step);
    if Enabled(s, step) {
      match step
      case Act(st) =>
        ExecuteKeepsDemoted(s.tables, id, st);
        assert forall x :: x in t.pending ==> x in s.pending;
      case Fail(st) =>
        assert forall x :: x in t.pending ==> x in s.pending;
      case Check(st, user, org) =>
        NoRestoreIsAuthorized(s, id, st, user, org);
      case _ =>
    }
  }

  /** From then on, over every further run, nobody can invite, remove a collaborator or delete, and
      nobody has the owner role: the item is orphaned. */
  lemma {:induction false} OrphanedForEver(s: State, id: Id, more: seq<Step>)
    requires Consistent(s) && Orphaned(s, id)
    ensures Consistent(After(s, more)) && Orphaned(After(s, more), id)
    ensures forall u, org :: ContentRole(After(s, more).tables, u, org, id) != Some("owner")
    ensures forall st: Statement, user: User, org: Org ::
      st.id == id && (st.InsertCoAuthor? || st.DeleteCollaborator? || st.SoftDelete?) ==>
        !Authorized(After(s, more).tables, st, user, org)
    decreases |more|
  {
    if more == [] {
    } else {
      var shorter := more[..|more| - 1];
      OrphanedForEver(s, id, shorter);
      StepConsistent(After(s, shorter), more[|more| - 1]);
      StepKeepsOrphan(After(s, shorter), more[|more| - 1], id);
    }
    DemotedHasNoOwner(After(s, more), id);
  }

  /** The demoted owner of a live item has the role. */
  predicate OwnerIsBack(s: State, id: Id) {
    && id in s.tables.items
    && ContentRole(s.tables, s.tables.items[id].owner, s.tables.items[id].org, id) == Some("owner")
  }

  /** A demoted owner can get the role back, in some run, exactly when a restoring statement was
      authorized before the demotion and is still under way. */
  lemma RoleReturnsIff(s: State, id: Id)
    requires Consistent(s) && Demoted(s.tables, id) && !s.tables.items[id].deleted
    ensures (exists more :: OwnerIsBack(After(s, more), id)) <==>
            exists st :: st in s.pending && Restores(s.tables, id, st)
  {
    if st :| st in s.pending && Restores(s.tables, id, st) {
      var more, t := Continue(s, [], Act(st));
      assert OwnerIsBack(t, id);
    } else {
      forall more ensures !OwnerIsBack(After(s, more), id) {
        OrphanedForEver(s, id, more);
      }
    }
  }

  lemma Continue(s: State, steps: seq<Step>, step: Step) returns (longer: seq<Step>, t: State)
    ensures longer == steps + [step]
    ensures t == After(s, longer) == Next(After(s, steps), step)
  {
    longer := steps + [step];
    assert longer[..|steps|] == steps;
    t := After(s, longer);
  }

  /** A new user's creation, its owner row, and the owner's invitation of the own account. */
  function SelfInvite(id: Id, user: User, org: Org): seq<Step> {
    [AddUser(user), Create(id, user, org, ""), Act(InsertOwner(id, user)),
     Check(InsertCoAuthor(id, user), user, org), Act(InsertCoAuthor(id, user))]
  }

  /** A fresh store holding one item, with this role for its owner. */
  function Single(users: set<User>, id: Id, user: User, org: Org, role: string): Tables {
    Tables(users, map[id := Item(user, org, "draft", false, false, "")], map[(id, user) := role])
  }

  lemma CreateOwned(s: State, id: Id, user: User, org: Org) returns (steps: seq<Step>)
    requires Initial(s)
    ensures steps == [AddUser(user), Create(id, user, org, ""), Act(InsertOwner(id, user))]
    ensures After(s, steps) == State(Single(s.tables.users + {user}, id, user, org, "owner"), multiset{})
  {
    var t: State;
    steps, t := Continue(s, [], AddUser(user));
    steps, t := Continue(s, steps, Create(id, user, org, ""));
    steps, t := Continue(s, steps, Act(InsertOwner(id, user)));
  }

  /** These steps orphan the item, for any item, user and organization. */
  lemma SelfInviteSucceeds(s: State, id: Id, user: User, org: Org)
    requires Initial(s) && user != ""
    ensures var t := After(s, SelfInvite(id, user, org));
            Consistent(t) && Orphaned(t, id) && !t.tables.items[id].deleted
  {
    var invite := InsertCoAuthor(id, user);
    var steps := CreateOwned(s, id, user, org);
    var t: State;
    steps, t := Continue(s, steps, Check(invite, user, org));
    assert t == State(Single(s.tables.users + {user}, id, user, org, "owner"), multiset{invite});
    steps, t := Continue(s, steps, Act(invite));
    assert t == State(Single(s.tables.users + {user}, id, user, org, "co-author"), multiset{});
    assert steps == SelfInvite(id, user, org);
    RunConsistent(s, steps);
  }

  // ---- list and lookup ----------------------------------------------------------------------

  /** The items ListContent selects, without a type filter. */
  function ListContent(t: Tables, org: Org, user: User): set<Id> {
    set id | id in t.items && Selects(t, id, org) && (t.items[id].owner == user || (id, user) in t.collaborators)
  }

  /** In every reachable state the list holds exactly the live items of the organization on which
      the lookup gives the user some role. */
  lemma ListAgreesWithLookup(s: State, steps: seq<Step>, org: Org, user: User, id: Id)
    requires Initial(s)
    ensures var t := After(s, steps).tables;
            id in ListContent(t, org, user) <==>
              Selects(t, id, org) && ContentRole(t, user, org, id).Some? && ContentRole(t, user, org, id) != Some("")
  {
    RunConsistent(s, steps);
  }

  // ---- requests end once ------------------------------------------------------------------------

  /** The step puts this statement under way: its role check passes, or it is a creation's own. */
  predicate Begins(s: State, step: Step, st: Statement) {
    Enabled(s, step) &&
    ((step.Check? && step.statement == st) || (step.Create? && InsertOwner(step.id, step.user) == st))
  }

  /** The step runs the statement, or gives it up. */
  predicate Ends(s: State, step: Step, st: Statement) {
    st in s.pending && (step == Act(st) || step == Fail(st))
  }

  function Begun(s: State, steps: seq<Step>, st: Statement): nat {
    if steps == [] then 0
    else
      var shorter := steps[..|steps| - 1];
      Begun(s, shorter, st) + if Begins(After(s, shorter), steps[|steps| - 1], st) then 1 else 0
  }

  function Ended(s: State, steps: seq<Step>, st: Statement): nat {
    if steps == [] then 0
    else
      var shorter := steps[..|steps| - 1];
      Ended(s, shorter, st) + if Ends(After(s, shorter), steps[|steps| - 1], st) then 1 else 0
  }

  /** Over every run: a statement is run or given up once for each time it was authorized, never more
      often, and the difference is what is still pending. */
  lemma {:induction false} RequestsEndOnce(s: State, steps: seq<Step>, st: Statement)
    ensures After(s, steps).pending[st] + Ended(s, steps, st) == s.pending[st] + Begun(s, steps, st)
    decreases |steps|
  {
    if steps == [] {
    } else {
      RequestsEndOnce(s, steps[..|steps| - 1], st);
      PendingStep(After(s, steps[..|steps| - 1]), steps[|steps| - 1], st);
    }
  }

  lemma PendingStep(s: State, step: Step, st: Statement)
    ensures Next(s, step).pending[st] + (if Ends(s, step, st) then 1 else 0) ==
            s.pending[st] + if Begins(s, step, st) then 1 else 0
  {
  }

  // ---- statements take effect -----------------------------------------------------------------

  lemma DeletedIsUnlisted(t: Tables, id: Id)
    requires id in t.items && t.items[id].deleted
    ensures forall org :: !Selects(t, id, org)
    ensures forall org, user :: id !in ListContent(t, org, user)
  {
    forall org, user ensures id !in ListContent(t, org, user) {
      assert !Selects(t, id, org);
    }
  }

  lemma {:induction false} DeletedStays(s: State, id: Id, more: seq<Step>)
    requires id in s.tables.items && s.tables.items[id].deleted
    ensures id in After(s, more).tables.items && After(s, more).tables.items[id] == s.tables.items[id]
    decreases |more|
  {
    if more == [] {
    } else {
      var shorter := more[..|more| - 1];
      DeletedStays(s, id, shorter);
      StepPreserves(After(s, shorter), more[|more| - 1]);
    }
  }

  /** Running a pending deletion of a live item of its organization marks exactly that item, and over
      every further run it stays marked and is found and listed by nobody. */
  lemma DeletionHides(s: State, id: Id, more: seq<Step>, org: Org, user: User)
    requires id in s.tables.items && !s.tables.items[id].deleted
    requires SoftDelete(id, s.tables.items[id].org) in s.pending
    ensures var item := s.tables.items[id];
            var deleted := Next(s, Act(SoftDelete(id, item.org)));
            var t := After(deleted, more).tables;
            && deleted.tables == s.tables.(items := s.tables.items[id := item.(deleted := true)])
            && id in t.items && t.items[id] == item.(deleted := true)
            && !Selects(t, id, org) && id !in ListContent(t, org, user)
  {
    DeletedStays(Next(s, Act(SoftDelete(id, s.tables.items[id].org))), id, more);
  }

  predicate SetsStatus(step: Step, id: Id) {
    step.Act? && step.statement.SetStatus? && step.statement.id == id
  }

  predicate SetsText(step: Step, id: Id) {
    step.Act? && step.statement.SetText? && step.statement.id == id
  }

  /** What a statement leaves of an item's columns. */
  ghost predicate KeepsColumns(before: Item, after: Item, sameStatus: bool, sameText: bool) {
    && (sameStatus ==> after.status == before.status) && (sameText ==> after.text == before.text)
    && (before.published ==> after.published)
  }

  lemma ExecuteKeepsColumns(t: Tables, st: Statement, id: Id)
    requires id in t.items
    ensures var u := Execute(t, st);
      id in u.items &&
      KeepsColumns(t.items[id], u.items[id], !(st.SetStatus? && st.id == id), !(st.SetText? && st.id == id))
  {
  }

  lemma StepKeepsColumns(s: State, step: Step, id: Id)
    requires id in s.tables.items
    ensures var t := Next(s, step).tables;
      id in t.items && KeepsColumns(s.tables.items[id], t.items[id], !SetsStatus(step, id), !SetsText(step, id))
  {
    if step.Act? {
      ExecuteKeepsColumns(s.tables, step.statement, id);
    }
  }

  lemma {:induction false} StatusStays(s: State, id: Id, more: seq<Step>)
    requires id in s.tables.items
    ensures id in After(s, more).tables.items
    ensures (forall step :: step in more ==> !SetsStatus(step, id)) ==>
            After(s, more).tables.items[id].status == s.tables.items[id].status
    ensures s.tables.items[id].published ==> After(s, more).tables.items[id].published
    decreases |more|
  {
    if more == [] {
    } else {
      StatusStays(s, id, more[..|more| - 1]);
      StepKeepsColumns(After(s, more[..|more| - 1]), more[|more| - 1], id);
    }
  }

  lemma {:induction false} TextStays(s: State, id: Id, more: seq<Step>)
    requires id in s.tables.items
    ensures id in After(s, more).tables.items
    ensures (forall step :: step in more ==> !SetsText(step, id)) ==>
            After(s, more).tables.items[id].text == s.tables.items[id].text
    decreases |more|
  {
    if more == [] {
    } else {
      TextStays(s, id, more[..|more| - 1]);
      StepKeepsColumns(After(s, more[..|more| - 1]), more[|more| - 1], id);
    }
  }

  /** Running a pending status change of a live item stores exactly that status, and the publication
      date for the published one; the status stays until the next change, the date for ever. */
  lemma StatusIsStored(s: State, id: Id, status: string, more: seq<Step>)
    requires id in s.tables.items && !s.tables.items[id].deleted
    requires SetStatus(id, s.tables.items[id].org, status) in s.pending
    requires status in {"draft", "published", "archived"}
    ensures var item := s.tables.items[id];
            var changed := Next(s, Act(SetStatus(id, item.org, status)));
            var published := item.published || status == "published";
            var t := After(changed, more).tables;
            && changed.tables ==
               s.tables.(items := s.tables.items[id := item.(status := status, published := published)])
            && id in t.items
            && ((forall step :: step in more ==> !SetsStatus(step, id)) ==> t.items[id].status == status)
            && (published ==> t.items[id].published)
  {
    StatusStays(Next(s, Act(SetStatus(id, s.tables.items[id].org, status))), id, more);
  }

  /** The same for the text. */
  lemma TextIsStored(s: State, id: Id, text: string, more: seq<Step>)
    requires id in s.tables.items && !s.tables.items[id].deleted
    requires SetText(id, s.tables.items[id].org, text) in s.pending
    ensures var item := s.tables.items[id];
            var changed := Next(s, Act(SetText(id, item.org, text)));
            var t := After(changed, more).tables;
            && changed.tables == s.tables.(items := s.tables.items[id := item.(text := text)])
            && id in t.items && ((forall step :: step in more ==> !SetsText(step, id)) ==> t.items[id].text == text)
  {
    TextStays(Next(s, Act(SetText(id, s.tables.items[id].org, text))), id, more);
  }
}
