/** How far an authorization depends on Go's map iteration: a document in error is skipped, so a
    lost deny or a lost allow changes the answer of the whole check. */
module AuthorizeOrders {
  import opened Basics
  import opened Strings
  import opened Conditions
  import opened Policy
  import opened Authorize
  import Glob

  /** The verdicts a stored document can have. */
  ghost predicate DocumentCan(rt: Runtime, doc: Document, req: Request, v: Verdict) {
    if doc.Decoded? then CanDecide(rt, doc.statements, req, v) else v == DenyWithError
  }

  /** The document can end without the decision `d`. */
  ghost predicate CanAvoid(rt: Runtime, doc: Document, req: Request, d: Decision) {
    exists v :: v != Decided(d) && DocumentCan(rt, doc, req, v)
  }

  /** `rows` evaluate these documents, under some map orders. */
  ghost predicate RowsOf(rows: seq<PolicyRow>, docs: seq<Document>) {
    && |rows| == |docs| && ValidRows(rows)
    && forall i :: 0 <= i < |docs| ==> rows[i].document == docs[i]
  }

  lemma VoteIsPossible(rt: Runtime, row: PolicyRow, req: Request)
    requires row.document.Decoded? ==> ValidOrders(row.document.statements, row.orders)
    ensures DocumentCan(rt, row.document, req, Policy.Evaluate(rt, row.document, req, row.orders))
  {
    if row.document.Decoded? {
      EvaluateCanDecide(rt, row.document.statements, req, row.orders);
    }
  }

  /** A row whose evaluation has a given possible verdict. */
  lemma RowFor(rt: Runtime, doc: Document, req: Request, v: Verdict) returns (row: PolicyRow)
    requires DocumentCan(rt, doc, req, v)
    ensures row.document == doc && (doc.Decoded? ==> ValidOrders(doc.statements, row.orders))
    ensures Policy.Evaluate(rt, doc, req, row.orders) == v
  {
    var orders := [];
    if doc.Decoded? {
      orders := OrdersFor(rt, doc.statements, req, v);
    }
    row := PolicyRow(doc, orders);
  }

  lemma SomeVerdict(rt: Runtime, doc: Document, req: Request) returns (v: Verdict)
    ensures DocumentCan(rt, doc, req, v)
  {
    if doc.Decoded? {
      var orders := SomeOrders(doc.statements);
      v := EvaluateStatements(rt, doc.statements, req, orders);
      EvaluateCanDecide(rt, doc.statements, req, orders);
    } else {
      v := DenyWithError;
    }
  }

  /** Each document votes `prefer` if it can, and otherwise not `avoid` if it can help it. */
  ghost predicate Leans(rt: Runtime, row: PolicyRow, req: Request, prefer: Decision, avoid: Decision)
    requires row.document.Decoded? ==> ValidOrders(row.document.statements, row.orders)
  {
    && (DocumentCan(rt, row.document, req, Decided(prefer)) ==> PolicyVotes(rt, row, req, prefer))
    && (CanAvoid(rt, row.document, req, avoid) ==> !PolicyVotes(rt, row, req, avoid))
  }

  lemma LeaningRow(rt: Runtime, doc: Document, req: Request, prefer: Decision, avoid: Decision) returns (row: PolicyRow)
    requires prefer != avoid
    ensures row.document == doc && (doc.Decoded? ==> ValidOrders(doc.statements, row.orders))
    ensures Leans(rt, row, req, prefer, avoid)
  {
    var v := SomeVerdict(rt, doc, req);
    if DocumentCan(rt, doc, req, Decided(prefer)) {
      v := Decided(prefer);
    } else if CanAvoid(rt, doc, req, avoid) {
      v :| v != Decided(avoid) && DocumentCan(rt, doc, req, v);
    }
    row := RowFor(rt, doc, req, v);
  }

  lemma {:induction false} LeaningRows(rt: Runtime, docs: seq<Document>, req: Request, prefer: Decision,
                                       avoid: Decision)
    returns (rows: seq<PolicyRow>)
    requires prefer != avoid
    ensures RowsOf(rows, docs)
    ensures forall i :: 0 <= i < |rows| ==> Leans(rt, rows[i], req, prefer, avoid)
  {
    if docs == [] {
      rows := [];
    } else {
      var first := LeaningRow(rt, docs[0], req, prefer, avoid);
      var rest := LeaningRows(rt, docs[1..], req, prefer, avoid);
      rows := [first] + rest;
    }
  }

  /** Some map orders grant. */
  ghost predicate CanGrant(rt: Runtime, docs: seq<Document>, permissions: seq<Permission>, shares: seq<Share>,
                           req: Request)
  {
    && (forall p :: p in permissions ==> !PermissionDenies(p, req))
    && (forall doc :: doc in docs ==> CanAvoid(rt, doc, req, Deny))
    && (|| (exists doc :: doc in docs && DocumentCan(rt, doc, req, Decided(Allow)))
        || (exists p :: p in permissions && PermissionAllows(p, req))
        || (exists s :: s in shares && ShareAllows(s, req)))
  }

  /** Some map orders refuse. */
  ghost predicate CanRefuse(rt: Runtime, docs: seq<Document>, permissions: seq<Permission>, shares: seq<Share>,
                            req: Request)
  {
    || (exists p :: p in permissions && PermissionDenies(p, req))
    || (exists doc :: doc in docs && DocumentCan(rt, doc, req, Decided(Deny)))
    || (&& (forall doc :: doc in docs ==> CanAvoid(rt, doc, req, Allow))
        && (forall p :: p in permissions ==> !PermissionAllows(p, req))
        && (forall s :: s in shares ==> !ShareAllows(s, req)))
  }

  lemma GrantIsPossible(rt: Runtime, docs: seq<Document>, rows: seq<PolicyRow>, permissions: seq<Permission>,
                        shares: seq<Share>, req: Request)
    requires RowsOf(rows, docs)
    ensures if Granted(rt, rows, permissions, shares, req) then CanGrant(rt, docs, permissions, shares, req)
            else CanRefuse(rt, docs, permissions, shares, req)
  {
    forall row | row in rows
      ensures row.document in docs
      ensures DocumentCan(rt, row.document, req, Policy.Evaluate(rt, row.document, req, row.orders))
    {
      VoteIsPossible(rt, row, req);
    }
    forall doc | doc in docs
      ensures exists row :: row in rows && row.document == doc
    {
      var i :| 0 <= i < |docs| && docs[i] == doc;
      assert rows[i] in rows;
    }
  }

  lemma GrantingRows(rt: Runtime, docs: seq<Document>, permissions: seq<Permission>, shares: seq<Share>, req: Request)
    returns (rows: seq<PolicyRow>)
    requires CanGrant(rt, docs, permissions, shares, req)
    ensures RowsOf(rows, docs) && Granted(rt, rows, permissions, shares, req)
  {
    rows := LeaningRows(rt, docs, req, Allow, Deny);
    if doc :| doc in docs && DocumentCan(rt, doc, req, Decided(Allow)) {
      var i :| 0 <= i < |docs| && docs[i] == doc;
      assert rows[i] in rows && PolicyVotes(rt, rows[i], req, Allow);
    }
  }

  lemma RefusingRows(rt: Runtime, docs: seq<Document>, permissions: seq<Permission>, shares: seq<Share>, req: Request)
    returns (rows: seq<PolicyRow>)
    requires CanRefuse(rt, docs, permissions, shares, req)
    ensures RowsOf(rows, docs) && !Granted(rt, rows, permissions, shares, req)
  {
    rows := LeaningRows(rt, docs, req, Deny, Allow);
    if doc :| doc in docs && DocumentCan(rt, doc, req, Decided(Deny)) {
      var i :| 0 <= i < |docs| && docs[i] == doc;
      assert rows[i] in rows && PolicyVotes(rt, rows[i], req, Deny);
    }
  }

  /** The answers over all map orders: a grant is possible exactly when no permission denies, every
      document can avoid denying and something can allow; and the answer depends on map order
      exactly when a refusal is possible as well. */
  lemma AnswerDependsOnOrderIff(rt: Runtime, docs: seq<Document>, permissions: seq<Permission>, shares: seq<Share>,
                                req: Request)
    ensures CanGrant(rt, docs, permissions, shares, req) <==>
            exists rows :: RowsOf(rows, docs) && Granted(rt, rows, permissions, shares, req)
    ensures CanRefuse(rt, docs, permissions, shares, req) <==>
            exists rows :: RowsOf(rows, docs) && !Granted(rt, rows, permissions, shares, req)
  {
    if CanGrant(rt, docs, permissions, shares, req) {
      var rows := GrantingRows(rt, docs, permissions, shares, req);
    }
    if CanRefuse(rt, docs, permissions, shares, req) {
      var rows := RefusingRows(rt, docs, permissions, shares, req);
    }
    forall rows | RowsOf(rows, docs)
      ensures if Granted(rt, rows, permissions, shares, req) then CanGrant(rt, docs, permissions, shares, req)
              else CanRefuse(rt, docs, permissions, shares, req)
    {
      GrantIsPossible(rt, docs, rows, permissions, shares, req);
    }
  }

  /** An entry for a key the request does not have, beside an entry that is no map. */
  function MixedCondition(key: string): Json {
    Object(map["StringEquals" := Object(map[key := Null]), "StringLike" := Null])
  }

  /** Under the mixed condition, an allow of everything; behind it, a deny of everything. */
  function GuardedDeny(key: string): Document {
    Decoded([ALLOW_ALL.(condition := Some(MixedCondition(key))), DENY_ALL])
  }

  lemma MixedYields(rt: Runtime, key: string, context: Context)
    requires key !in context
    ensures Yields(rt, MixedCondition(key), context, Unmet)
    ensures Yields(rt, MixedCondition(key), context, Failed(RequirementsNotAMap))
  {
    var m := map[key := Null];
    var fields := MixedCondition(key).fields;
    assert key in m && KeyOutcome(rt, "StringEquals", m, context, key) == Unmet;
    assert fields["StringEquals"] == Object(m) && fields["StringLike"] == Null;
    assert OperatorYields(rt, "StringEquals", fields["StringEquals"], context, Unmet);
    assert OperatorYields(rt, "StringLike", fields["StringLike"], context, Failed(RequirementsNotAMap));
  }

  lemma GuardedDenyCan(rt: Runtime, key: string, req: Request)
    requires key !in req.context
    ensures DocumentCan(rt, GuardedDeny(key), req, Decided(Deny))
    ensures DocumentCan(rt, GuardedDeny(key), req, DenyWithError)
  {
    MixedYields(rt, key, req.context);
    AllMatch(req);
    var statements := GuardedDeny(key).statements;
    assert statements[1..] == [DENY_ALL];
    assert FieldsMatch(statements[0], req) && FieldsMatch(DENY_ALL, req);
    assert FoldsTo("Deny", "deny");
    assert MatchYields(rt, statements[0], req, Unmet);
    assert MatchYields(rt, statements[0], req, Failed(RequirementsNotAMap));
    assert CanDecide(rt, [DENY_ALL], req, Decided(Deny));
  }

  lemma AllowAllCan(rt: Runtime, req: Request)
    ensures DocumentCan(rt, Decoded([ALLOW_ALL]), req, Decided(Allow))
  {
    AllMatch(req);
    assert FoldsTo("Allow", "allow") && !FoldsTo("Allow", "deny");
    assert CanDecide(rt, [ALLOW_ALL], req, Decided(Allow));
  }

  /** A deny lost to an error: beside a document that allows everything, the same stored rows grant
      or refuse one request as the maps happen to be iterated. */
  lemma DenyCanBeLost(rt: Runtime, key: string, req: Request)
    requires key !in req.context
    ensures var docs := [GuardedDeny(key), Decoded([ALLOW_ALL])];
            CanGrant(rt, docs, [], [], req) && CanRefuse(rt, docs, [], [], req)
  {
    var docs := [GuardedDeny(key), Decoded([ALLOW_ALL])];
    GuardedDenyCan(rt, key, req);
    AllowAllCan(rt, req);
    assert docs[0] in docs && docs[1] in docs;
    assert DenyWithError != Decided(Deny) && DocumentCan(rt, docs[0], req, DenyWithError);
    assert Decided(Allow) != Decided(Deny) && DocumentCan(rt, docs[1], req, Decided(Allow));
  }

  lemma AllMatch(req: Request)
    ensures FieldsMatch(ALLOW_ALL, req) && FieldsMatch(DENY_ALL, req)
  {
    var star := List([Text("*")]);
    forall v: string ensures MatchField(star, v) {
      assert star.items[0].Text? && Glob.MatchWildcard(star.items[0].s, v);
    }
  }
}
