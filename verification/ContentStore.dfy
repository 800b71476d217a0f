/** The content queries and handlers as methods over the two tables they update. */
module ContentStore {
  import opened Basics
  import opened Content
  import opened Strings

  /** What the two inserts of a creation make of the tables. */
  lemma CreateRun(s: State, id: Id, user: User, org: Org, text: string, ownerRowFails: bool)
    requires id !in s.tables.items && user in s.tables.users
    ensures var own := InsertOwner(id, user);
            var second := if ownerRowFails then Fail(own) else Act(own);
            var created := s.tables.(items := s.tables.items[id := Item(user, org, "draft", false, false, text)]);
            After(s, [Create(id, user, org, text), second]).tables ==
            if ownerRowFails then created else Upsert(created, id, user, "owner")
  {
    var own := InsertOwner(id, user);
    var second := if ownerRowFails then Fail(own) else Act(own);
    var steps, t := Continue(s, [], Create(id, user, org, text));
    steps, t := Continue(s, steps, second);
    assert steps == [Create(id, user, org, text), second];
  }

  class Store {
    /** The ids of the users table. */
    var users: set<User>
    var items: map<Id, Item>
    var collaborators: map<(Id, User), string>

    function Now(): Tables
      reads this
    {
      Tables(users, items, collaborators)
    }

    // ---- queries -------------------------------------------------------------------------

    /** "" when there is no row. */
    method GetCollaboratorRole(id: Id, user: User) returns (role: string)
      ensures role == if (id, user) in collaborators then collaborators[(id, user)] else ""
    {
      role := "";
      if (id, user) in collaborators {
        role := collaborators[(id, user)];
      }
    }

    /** None is "content not found". */
    method GetContent(id: Id, org: Org) returns (item: Option<Item>)
      ensures item == if Selects(Now(), id, org) then Some(items[id]) else None
      ensures item.Some? <==> id in items && items[id].org == org && !items[id].deleted
    {
      item := None;
      if id in items && items[id].org == org && !items[id].deleted {
        item := Some(items[id]);
      }
    }

    /** INSERT ... ON CONFLICT DO UPDATE SET role. The role is constrained; the foreign keys are
        checked only for a new row. The inviter's id is a uuid. */
    method AddCollaborator(id: Id, user: User, role: string, invitedBy: User) returns (ok: bool)
      modifies this`collaborators
      ensures ok <==>
        && role in {"owner", "co-author"}
        && ((id, user) in old(collaborators) || (id in items && user in users && invitedBy in users))
      ensures collaborators == if ok then old(collaborators)[(id, user) := role] else old(collaborators)
    {
      var newRow := (id, user) !in collaborators;
      ok := role in ROLES && !(newRow && (id !in items || user !in users || invitedBy !in users));
      if ok {
        collaborators := collaborators[(id, user) := role];
      }
    }

    method RemoveCollaborator(id: Id, user: User) returns (ok: bool)
      modifies this`collaborators
      ensures Now() == Execute(old(Now()), DeleteCollaborator(id, user))
      ensures ok <==> (id, user) in old(collaborators) && old(collaborators)[(id, user)] != "owner"
      ensures collaborators == if ok then old(collaborators) - {(id, user)} else old(collaborators)
    {
      ok := (id, user) in collaborators && collaborators[(id, user)] != "owner";
      if ok {
        collaborators := collaborators - {(id, user)};
      }
    }

    /** Sets deleted_at of the row the id and organization select; nobody finds or lists it again. */
    method DeleteContent(id: Id, org: Org) returns (ok: bool)
      modifies this`items
      ensures Now() == Execute(old(Now()), SoftDelete(id, org))
      ensures ok <==> id in old(items) && old(items)[id].org == org && !old(items)[id].deleted
      ensures items == if ok then old(items)[id := old(items)[id].(deleted := true)] else old(items)
      ensures ok ==> forall o :: !Selects(Now(), id, o)
      ensures ok ==> forall o, user :: id !in ListContent(Now(), o, user)
    {
      var item := GetContent(id, org);
      ok := item.Some?;
      if ok {
        items := items[id := item.value.(deleted := true)];
        DeletedIsUnlisted(Now(), id);
      }
    }

    /** The clause setting published_at is added only for "published"; the table's check
        constraint refuses two of the statuses the handler accepts. */
    method UpdateContentStatus(id: Id, org: Org, status: string) returns (ok: bool)
      modifies this`items
      ensures Now() == Execute(old(Now()), SetStatus(id, org, status))
      ensures ok <==>
        && id in old(items) && old(items)[id].org == org && !old(items)[id].deleted
        && status in {"draft", "published", "archived"}
      ensures ok ==>
        var was := old(items)[id];
        items == old(items)[id := was.(status := status, published := was.published || status == "published")]
      ensures !ok ==> items == old(items)
    {
      var item := GetContent(id, org);
      ok := item.Some? && status in STORABLE;
      if ok {
        var updated := item.value.(status := status);
        if status == "published" {
          updated := updated.(published := true);
        }
        items := items[id := updated];
      }
    }

    /** Writes the editable columns; refused for columns the table does not admit. */
    method UpdateContent(id: Id, org: Org, text: string, columnsFit: bool) returns (ok: bool)
      modifies this`items
      ensures ok ==> Now() == Execute(old(Now()), SetText(id, org, text))
      ensures ok <==> id in old(items) && old(items)[id].org == org && !old(items)[id].deleted && columnsFit
      ensures items == if ok then old(items)[id := old(items)[id].(text := text)] else old(items)
    {
      var item := GetContent(id, org);
      ok := item.Some? && columnsFit;
      if ok {
        items := items[id := item.value.(text := text)];
      }
    }

    // ---- handlers ------------------------------------------------------------------------

    /** contentRole: fast path by collaborator row, fallback by owner column. */
    method RoleOf(user: User, org: Org, id: Id) returns (role: Option<string>)
      ensures role == ContentRole(Now(), user, org, id)
      ensures role ==
        if (id, user) in collaborators && collaborators[(id, user)] != "" then Some(collaborators[(id, user)])
        else if id !in items || items[id].org != org || items[id].deleted then None
        else Some(if items[id].owner == user then "owner" else "")
    {
      var row := GetCollaboratorRole(id, user);
      if row != "" {
        return Some(row);
      }
      var item := GetContent(id, org);
      if item.None? {
        return None;
      }
      if item.value.owner == user {
        return Some("owner");
      }
      return Some("");
    }

    /** CreateContent under a fresh id; fails for an unknown user, or when the table refuses one of
        the other columns. The owner row may fail to be inserted without failing the request. */
    method CreateContent(id: Id, user: User, org: Org, text: string, columnsFit: bool, ownerRowFails: bool,
                         ghost before: State)
      returns (ok: bool)
      requires id !in items && before.tables == Now()
      modifies this`items, this`collaborators
      ensures ok <==> user in users && columnsFit
      ensures
        var own := InsertOwner(id, user);
        Now() ==
        if ok then After(before, [Create(id, user, org, text), if ownerRowFails then Fail(own) else Act(own)]).tables
        else old(Now())
      ensures ok ==> items == old(items)[id := Item(user, org, "draft", false, false, text)]
      ensures ok && !ownerRowFails ==> collaborators == old(collaborators)[(id, user) := "owner"]
      ensures !ok || ownerRowFails ==> collaborators == old(collaborators)
    {
      ok := user in users && columnsFit;
      if !ok {
        return;
      }
      CreateRun(before, id, user, org, text, ownerRowFails);
      items := items[id := Item(user, org, "draft", false, false, text)];
      if !ownerRowFails {
        var _ := AddCollaborator(id, user, "owner", user);
      }
    }

    /** InviteCollaborator: owner only; any known user, the caller included. */
    method InviteCollaborator(user: User, org: Org, id: Id, invited: User) returns (ok: bool)
      requires Referential(Now())
      modifies this`collaborators
      ensures var st := InsertCoAuthor(id, invited);
              && (ok <==> Authorized(old(Now()), st, user, org) && invited in users)
              && Now() == if Authorized(old(Now()), st, user, org) then Execute(old(Now()), st) else old(Now())
      ensures ok <==> ContentRole(old(Now()), user, org, id) == Some("owner") && invited != "" && invited in users
      ensures collaborators == if ok then old(collaborators)[(id, invited) := "co-author"] else old(collaborators)
    {
      ok := false;
      var role := RoleOf(user, org, id);
      if role.None? || role.value != "owner" || invited == "" {
        return;
      }
      ok := AddCollaborator(id, invited, "co-author", user);
    }

    /** Owner only; the owner's removal of anyone but an owner happens. */
    method RemoveCollaboratorRequest(user: User, org: Org, id: Id, target: User) returns (ok: bool)
      modifies this`collaborators
      ensures var st := DeleteCollaborator(id, target);
              Now() == if Authorized(old(Now()), st, user, org) then Execute(old(Now()), st) else old(Now())
      ensures ok <==>
        && ContentRole(old(Now()), user, org, id) == Some("owner")
        && (id, target) in old(collaborators) && old(collaborators)[(id, target)] != "owner"
      ensures collaborators == if ok then old(collaborators) - {(id, target)} else old(collaborators)
    {
      ok := false;
      var role := RoleOf(user, org, id);
      if role.None? || role.value != "owner" {
        return;
      }
      ok := RemoveCollaborator(id, target);
    }

    /** Anyone with a role; the status is lower-cased first, and may still be one the table refuses. */
    method UpdateStatusRequest(user: User, org: Org, id: Id, requested: string) returns (ok: bool)
      modifies this`items
      ensures var st := SetStatus(id, org, ToLower(requested));
              Now() == if Authorized(old(Now()), st, user, org) then Execute(old(Now()), st) else old(Now())
      ensures ok <==>
        && ContentRole(old(Now()), user, org, id).Some? && ContentRole(old(Now()), user, org, id) != Some("")
        && id in old(items) && old(items)[id].org == org && !old(items)[id].deleted
        && ToLower(requested) in {"draft", "published", "archived"}
      ensures ok ==> items[id].status == ToLower(requested)
      ensures !ok ==> items == old(items)
    {
      ok := false;
      var role := RoleOf(user, org, id);
      if role.None? || role.value == "" {
        return;
      }
      var status := ToLower(requested);
      if status !in {"draft", "published", "archived", "private", "hidden"} {
        return;
      }
      ok := UpdateContentStatus(id, org, status);
    }

    /** Anyone with a role; `text` is the stored item merged with the request. */
    method UpdateContentRequest(user: User, org: Org, id: Id, text: string, columnsFit: bool) returns (ok: bool)
      modifies this`items
      ensures var st := SetText(id, org, text);
              ok ==> Authorized(old(Now()), st, user, org) && Now() == Execute(old(Now()), st)
      ensures ok <==>
        && Authorized(old(Now()), SetText(id, org, text), user, org) && columnsFit
        && id in old(items) && old(items)[id].org == org && !old(items)[id].deleted
      ensures Authorized(old(Now()), SetText(id, org, text), user, org) <==>
        ContentRole(old(Now()), user, org, id).Some? && ContentRole(old(Now()), user, org, id) != Some("")
      ensures items == if ok then old(items)[id := old(items)[id].(text := text)] else old(items)
    {
      ok := false;
      var role := RoleOf(user, org, id);
      if role.None? || role.value == "" {
        return;
      }
      var item := GetContent(id, org);
      if item.None? {
        return;
      }
      ok := UpdateContent(id, org, text, columnsFit);
    }

    method DeleteContentRequest(user: User, org: Org, id: Id) returns (ok: bool)
      modifies this`items
      ensures var st := SoftDelete(id, org);
              Now() == if Authorized(old(Now()), st, user, org) then Execute(old(Now()), st) else old(Now())
      ensures ok <==>
        && ContentRole(old(Now()), user, org, id) == Some("owner")
        && id in old(items) && old(items)[id].org == org && !old(items)[id].deleted
      ensures items == if ok then old(items)[id := old(items)[id].(deleted := true)] else old(items)
      ensures ok ==> forall o, caller :: id !in ListContent(Now(), o, caller)
    {
      ok := false;
      var role := RoleOf(user, org, id);
      if role.None? || role.value != "owner" {
        return;
      }
      ok := DeleteContent(id, org);
    }
  }
}
