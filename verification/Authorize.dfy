/** The three-stage authorization of `internal/services/authz_service.go`. */
module Authorize {
  import opened Basics
  import opened Strings
  import opened Conditions
  import opened Policy
  import Glob

  /** A policy document and the map iteration orders its evaluation happens to use. */
  datatype PolicyRow = PolicyRow(document: Document, orders: seq<MapOrder>)

  datatype Permission = Permission(resourceId: string, permission: string, effect: string)

  datatype Share = Share(resourceId: string, accessLevel: string)

  ghost predicate ValidRows(policies: seq<PolicyRow>) {
    forall p :: p in policies && p.document.Decoded? ==> ValidOrders(p.document.statements, p.orders)
  }

  predicate AuthorizeShare(accessLevel: string, action: string) {
    var level := ToLower(accessLevel);
    if level == "owner" then true
    else if level == "editor" then !Contains(ToLower(action), "delete") && !Contains(ToLower(action), "share")
    else if level == "viewer" then FoldsTo(action, "read") || FoldsTo(action, "list") || FoldsTo(action, "view")
    else false
  }

  // ---- who votes what ----------------------------------------------------------------

  ghost predicate PolicyVotes(rt: Runtime, row: PolicyRow, req: Request, d: Decision)
    requires row.document.Decoded? ==> ValidOrders(row.document.statements, row.orders)
  {
    Policy.Evaluate(rt, row.document, req, row.orders) == Decided(d)
  }

  predicate PermissionApplies(p: Permission, req: Request) {
    p.resourceId == req.resource && Glob.MatchWildcard(p.permission, req.action)
  }

  predicate PermissionDenies(p: Permission, req: Request) {
    PermissionApplies(p, req) && FoldsTo(p.effect, "deny")
  }

  predicate PermissionAllows(p: Permission, req: Request) {
    PermissionApplies(p, req) && FoldsTo(p.effect, "allow")
  }

  predicate ShareAllows(s: Share, req: Request) {
    s.resourceId == req.resource && AuthorizeShare(s.accessLevel, req.action)
  }

  ghost predicate SomeDeny(rt: Runtime, policies: seq<PolicyRow>, permissions: seq<Permission>, req: Request)
    requires ValidRows(policies)
  {
    || (exists p :: p in policies && PolicyVotes(rt, p, req, Deny))
    || (exists p :: p in permissions && PermissionDenies(p, req))
  }

  ghost predicate SomeAllow(rt: Runtime, policies: seq<PolicyRow>, permissions: seq<Permission>, shares: seq<Share>,
                            req: Request)
    requires ValidRows(policies)
  {
    || (exists p :: p in policies && PolicyVotes(rt, p, req, Allow))
    || (exists p :: p in permissions && PermissionAllows(p, req))
    || (exists s :: s in shares && ShareAllows(s, req))
  }

  /** Deny overrides: access needs an allow from some stage and no deny from any. */
  ghost predicate Granted(rt: Runtime, policies: seq<PolicyRow>, permissions: seq<Permission>, shares: seq<Share>,
                          req: Request)
    requires ValidRows(policies)
  {
    SomeAllow(rt, policies, permissions, shares, req) && !SomeDeny(rt, policies, permissions, req)
  }

  /** First loop: a deny ends the whole check, an allow is remembered. */
  method PolicyStage(rt: Runtime, policies: seq<PolicyRow>, req: Request) returns (denied: bool, allowed: bool)
    requires ValidRows(policies)
    ensures denied <==> exists p :: p in policies && PolicyVotes(rt, p, req, Deny)
    ensures !denied ==> (allowed <==> exists p :: p in policies && PolicyVotes(rt, p, req, Allow))
  {
    allowed := false;
    for i := 0 to |policies|
      invariant allowed <==> exists p :: p in policies[..i] && PolicyVotes(rt, p, req, Allow)
      invariant forall p :: p in policies[..i] ==> !PolicyVotes(rt, p, req, Deny)
    {
      var p := policies[i];
      assert policies[..i + 1] == policies[..i] + [p];
      var verdict := Policy.Evaluate(rt, p.document, req, p.orders);
      if verdict == DenyWithError {
        continue;
      }
      if verdict.decision == Deny {
        assert PolicyVotes(rt, p, req, Deny);
        return true, allowed;
      }
      if verdict.decision == Allow {
        assert PolicyVotes(rt, p, req, Allow);
        allowed := true;
      }
    }
    assert policies[..|policies|] == policies;
    denied := false;
  }

  /** Second loop, over the rows of the resource permission table. */
  method PermissionStage(permissions: seq<Permission>, req: Request) returns (denied: bool, allowed: bool)
    ensures denied <==> exists p :: p in permissions && PermissionDenies(p, req)
    ensures !denied ==> (allowed <==> exists p :: p in permissions && PermissionAllows(p, req))
    ensures denied <==>
      exists p :: p in permissions && p.resourceId == req.resource && Glob.MatchWildcard(p.permission, req.action) &&
                  ToLower(p.effect) == "deny"
    ensures !denied ==> (allowed <==>
      exists p :: p in permissions && p.resourceId == req.resource && Glob.MatchWildcard(p.permission, req.action) &&
                  ToLower(p.effect) == "allow")
  {
    EffectSpellings();
    allowed := false;
    for i := 0 to |permissions|
      invariant allowed <==> exists p :: p in permissions[..i] && PermissionAllows(p, req)
      invariant forall p :: p in permissions[..i] ==> !PermissionDenies(p, req)
    {
      var p := permissions[i];
      assert permissions[..i + 1] == permissions[..i] + [p];
      if p.resourceId == req.resource && Glob.MatchWildcard(p.permission, req.action) {
        if FoldsTo(p.effect, "deny") {
          assert PermissionDenies(p, req);
          return true, allowed;
        }
        if FoldsTo(p.effect, "allow") {
          assert PermissionAllows(p, req);
          allowed := true;
        }
      }
    }
    assert permissions[..|permissions|] == permissions;
    denied := false;
  }

  /** Third loop: shares can only allow. */
  method ShareStage(shares: seq<Share>, req: Request) returns (allowed: bool)
    ensures allowed <==> exists s :: s in shares && ShareAllows(s, req)
  {
    allowed := false;
    for i := 0 to |shares|
      invariant allowed <==> exists s :: s in shares[..i] && ShareAllows(s, req)
    {
      var s := shares[i];
      assert shares[..i + 1] == shares[..i] + [s];
      if s.resourceId == req.resource {
        if AuthorizeShare(s.accessLevel, req.action) {
          assert ShareAllows(s, req);
          allowed := true;
        }
      }
    }
    assert shares[..|shares|] == shares;
  }

  /** Authorize. None is a failed fetch; only a failed fetch of the policies is an error. */
  method Authorize(rt: Runtime, policies: Option<seq<PolicyRow>>, permissions: Option<seq<Permission>>,
                   shares: Option<seq<Share>>, req: Request)
    returns (decision: Decision, failed: bool)
    requires policies.Some? ==> ValidRows(policies.value)
    ensures failed <==> policies.None?
    ensures failed ==> decision == Deny
    ensures !failed ==>
      var permissionRows := if permissions.Some? then permissions.value else [];
      var shareRows := if shares.Some? then shares.value else [];
      decision == if Granted(rt, policies.value, permissionRows, shareRows, req) then Allow else Deny
  {
    if policies.None? {
      return Deny, true;
    }
    var finalDecision := NotApplicable;
    var denied, allowed := PolicyStage(rt, policies.value, req);
    if denied {
      return Deny, false;
    }
    if allowed {
      finalDecision := Allow;
    }
    if permissions.Some? {
      denied, allowed := PermissionStage(permissions.value, req);
      if denied {
        return Deny, false;
      }
      if allowed {
        finalDecision := Allow;
      }
    }
    if shares.Some? {
      allowed := ShareStage(shares.value, req);
      if allowed {
        finalDecision := Allow;
      }
    }
    return if finalDecision == NotApplicable then Deny else finalDecision, false;
  }

  // ---- laws ------------------------------------------------------------------------

  /** Without shares, on the rows themselves: access needs a document whose evaluation allows or a
      permission of the resource whose pattern matches the action with effect allow, and no such
      document or permission that denies. */
  lemma GrantedOnRows(rt: Runtime, policies: seq<PolicyRow>, permissions: seq<Permission>, req: Request)
    requires ValidRows(policies)
    ensures Granted(rt, policies, permissions, [], req) <==>
      && (|| (exists p :: p in policies && Policy.Evaluate(rt, p.document, req, p.orders) == Decided(Allow))
          || (exists p :: p in permissions && p.resourceId == req.resource &&
                Glob.MatchWildcard(p.permission, req.action) && ToLower(p.effect) == "allow"))
      && (forall p :: p in policies ==> Policy.Evaluate(rt, p.document, req, p.orders) != Decided(Deny))
      && (forall p :: p in permissions ==>
            !(p.resourceId == req.resource && Glob.MatchWildcard(p.permission, req.action) &&
              ToLower(p.effect) == "deny"))
  {
    EffectSpellings();
  }

  /** One more share of the requested resource. An owner, in any spelling, may do whatever nothing
      denies; an editor what names neither deleting nor sharing; a viewer the three reading actions;
      any other level changes nothing, nor does a share of another resource. */
  lemma ShareDecides(rt: Runtime, policies: seq<PolicyRow>, permissions: seq<Permission>, shares: seq<Share>,
                     s: Share, req: Request)
    requires ValidRows(policies)
    ensures
      var level, denied := ToLower(s.accessLevel), SomeDeny(rt, policies, permissions, req);
      var without := Granted(rt, policies, permissions, shares, req);
      var decision := Granted(rt, policies, permissions, shares + [s], req);
      if s.resourceId != req.resource then decision == without
      else if level == "owner" then decision == !denied
      else if level == "editor" then
        var forbidden := exists i: nat ::
          StandsAt(ToLower(req.action), "delete", i) || StandsAt(ToLower(req.action), "share", i);
        decision == (without || (!denied && !forbidden))
      else if level == "viewer" then
        var viewing := FoldsTo(req.action, "read") || FoldsTo(req.action, "list") || FoldsTo(req.action, "view");
        decision == (without || (!denied && viewing))
      else decision == without
  {
    OneMoreShare(shares, s, req);
    ContainsIff(ToLower(req.action), "delete");
    ContainsIff(ToLower(req.action), "share");
  }

  lemma OneMoreShare(shares: seq<Share>, s: Share, req: Request)
    ensures (exists x :: x in shares + [s] && ShareAllows(x, req)) <==>
            (exists x :: x in shares && ShareAllows(x, req)) || ShareAllows(s, req)
  {
    if ShareAllows(s, req) {
      assert s in shares + [s];
    }
    if x :| x in shares && ShareAllows(x, req) {
      assert x in shares + [s];
    }
  }

  /** A document whose evaluation fails, as that of an undecodable one does, is as good as absent. */
  lemma ErringIsAbsent(rt: Runtime, before: seq<PolicyRow>, row: PolicyRow, after: seq<PolicyRow>,
                       permissions: seq<Permission>, shares: seq<Share>, req: Request)
    requires ValidRows(before + [row] + after)
    requires row.document.Decoded? ==> Policy.Evaluate(rt, row.document, req, row.orders) == DenyWithError
    ensures ValidRows(before + after)
    ensures Granted(rt, before + [row] + after, permissions, shares, req) <==>
            Granted(rt, before + after, permissions, shares, req)
  {
    var more, fewer := before + [row] + after, before + after;
    assert row in more;
    assert forall p :: p in more <==> p in fewer || p == row;
    assert forall d :: !PolicyVotes(rt, row, req, d);
  }

  /** Rows that add no deny keep a grant; rows that add no allow keep a refusal. */
  lemma MoreRows(rt: Runtime, policies: seq<PolicyRow>, permissions: seq<Permission>, shares: seq<Share>,
                 policies': seq<PolicyRow>, permissions': seq<Permission>, shares': seq<Share>, req: Request)
    requires ValidRows(policies) && ValidRows(policies')
    requires forall p :: p in policies ==> p in policies'
    requires forall p :: p in permissions ==> p in permissions'
    requires forall s :: s in shares ==> s in shares'
    ensures
      && Granted(rt, policies, permissions, shares, req)
      && (forall p :: p in policies' && p !in policies ==> !PolicyVotes(rt, p, req, Deny))
      && (forall p :: p in permissions' && p !in permissions ==> !PermissionDenies(p, req))
      ==> Granted(rt, policies', permissions', shares', req)
    ensures
      && !Granted(rt, policies, permissions, shares, req)
      && (forall p :: p in policies' && p !in policies ==> !PolicyVotes(rt, p, req, Allow))
      && (forall p :: p in permissions' && p !in permissions ==> !PermissionAllows(p, req))
      && (forall s :: s in shares' && s !in shares ==> !ShareAllows(s, req))
      ==> !Granted(rt, policies', permissions', shares', req)
  {
  }

  /** The order and multiplicity of the fetched rows are irrelevant. */
  lemma RowOrderIgnored(rt: Runtime, policies: seq<PolicyRow>, permissions: seq<Permission>, shares: seq<Share>,
                        policies': seq<PolicyRow>, permissions': seq<Permission>, shares': seq<Share>, req: Request)
    requires ValidRows(policies) && ValidRows(policies')
    requires multiset(policies) == multiset(policies')
    requires multiset(permissions) == multiset(permissions') && multiset(shares) == multiset(shares')
    ensures Granted(rt, policies, permissions, shares, req) <==> Granted(rt, policies', permissions', shares', req)
  {
    SameMembers(policies, policies');
    SameMembers(permissions, permissions');
    SameMembers(shares, shares');
  }

  /** A viewer's actions are an editor's, and an editor's are an owner's. */
  lemma ShareLadder(action: string)
    ensures AuthorizeShare("viewer", action) ==> AuthorizeShare("editor", action)
    ensures AuthorizeShare("editor", action) ==> AuthorizeShare("owner", action)
  {
    assert ToLower("viewer") == "viewer" && ToLower("editor") == "editor" && ToLower("owner") == "owner";
    ContainsIff(ToLower(action), "delete");
    ContainsIff(ToLower(action), "share");
  }

  /** What an editor may not do: anything whose action names deleting or sharing, in any case. */
  lemma EditorRefusedIff(action: string)
    ensures !AuthorizeShare("editor", action) <==>
            exists i: nat :: StandsAt(ToLower(action), "delete", i) || StandsAt(ToLower(action), "share", i)
  {
    assert ToLower("editor") == "editor";
    ContainsIff(ToLower(action), "delete");
    ContainsIff(ToLower(action), "share");
  }

  /** The levels in rising order; a level that is none of the three gives nothing. */
  function Rank(level: string): nat {
    if ToLower(level) == "owner" then 3
    else if ToLower(level) == "editor" then 2
    else if ToLower(level) == "viewer" then 1
    else 0
  }

  /** However the two levels are spelled, the higher one gives whatever the lower one gives. */
  lemma RankGives(low: string, high: string, action: string)
    requires Rank(low) <= Rank(high) && AuthorizeShare(low, action)
    ensures AuthorizeShare(high, action)
  {
    ShareLadder(action);
    assert ToLower("viewer") == "viewer" && ToLower("editor") == "editor" && ToLower("owner") == "owner";
  }

  /** Raising the level of one share, whatever the spelling of either level, never loses access. */
  lemma RaisingAShare(rt: Runtime, policies: seq<PolicyRow>, permissions: seq<Permission>, shares: seq<Share>,
                      i: nat, level: string, req: Request)
    requires ValidRows(policies) && i < |shares| && Rank(shares[i].accessLevel) <= Rank(level)
    requires Granted(rt, policies, permissions, shares, req)
    ensures Granted(rt, policies, permissions, shares[i := shares[i].(accessLevel := level)], req)
  {
    var raised := shares[i := shares[i].(accessLevel := level)];
    if ShareAllows(shares[i], req) {
      RankGives(shares[i].accessLevel, level, req.action);
    }
    assert ShareAllows(shares[i], req) ==> ShareAllows(raised[i], req);
    if s :| s in shares && ShareAllows(s, req) {
      var k :| 0 <= k < |shares| && shares[k] == s;
      assert raised[k] in raised && ShareAllows(raised[k], req);
    }
  }

  /** When every stored condition is well formed, no decision depends on map iteration. */
  lemma MapOrderIgnored(rt: Runtime, policies: seq<PolicyRow>, again: seq<PolicyRow>, permissions: seq<Permission>,
                        shares: seq<Share>, req: Request)
    requires ValidRows(policies) && ValidRows(again) && |policies| == |again|
    requires forall i :: 0 <= i < |policies| ==> policies[i].document == again[i].document
    requires forall p :: p in policies && p.document.Decoded? ==> WellFormedConditions(p.document.statements)
    ensures Granted(rt, policies, permissions, shares, req) <==> Granted(rt, again, permissions, shares, req)
  {
    VotesCarryOver(rt, policies, again, req, Allow);
    VotesCarryOver(rt, again, policies, req, Allow);
    VotesCarryOver(rt, policies, again, req, Deny);
    VotesCarryOver(rt, again, policies, req, Deny);
  }

  lemma VotesCarryOver(rt: Runtime, a: seq<PolicyRow>, b: seq<PolicyRow>, req: Request, d: Decision)
    requires ValidRows(a) && ValidRows(b) && |a| == |b|
    requires forall i :: 0 <= i < |a| ==> a[i].document == b[i].document
    requires forall i :: 0 <= i < |a| && a[i].document.Decoded? ==> WellFormedConditions(a[i].document.statements)
    ensures (exists p :: p in a && PolicyVotes(rt, p, req, d)) ==> exists p :: p in b && PolicyVotes(rt, p, req, d)
  {
    if p :| p in a && PolicyVotes(rt, p, req, d) {
      var i :| 0 <= i < |a| && a[i] == p;
      assert b[i] in b;
      WellFormedIsDeterministic(rt, p.document.statements, req, p.orders, b[i].orders);
      assert PolicyVotes(rt, b[i], req, d);
    }
  }
}
