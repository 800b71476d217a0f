/** The permission summary of `internal/queries/group_queries.go`: the action patterns of all
    joined policy documents, merged by effect. */
module GroupSummary {
  import opened Basics
  import opened Strings
  import opened Conditions
  import opened Policy
  import Glob

  function TextItems(items: seq<Json>): (r: seq<string>)
    ensures forall a :: a in r <==> exists i :: 0 <= i < |items| && items[i] == Text(a)
  {
    if items == [] then []
    else
      assert items == [items[0]] + items[1..];
      (if items[0].Text? then [items[0].s] else []) + TextItems(items[1..])
  }

  /** The strings of an Action field. */
  function ActionsOf(action: Json): seq<string> {
    match action
    case Text(s) => [s]
    case List(items) => TextItems(items)
    case _ => []
  }

  predicate Readable(doc: Document) {
    !doc.Undecodable?
  }

  /** Some readable row lists the action `a` in a statement with effect `d`. */
  ghost predicate Listed(rows: seq<Document>, d: Decision, a: string) {
    exists doc, st ::
      doc in rows && Readable(doc) && st in doc.statements && EffectOf(st) == Some(d) && a in ActionsOf(st.action)
  }

  /** The same, up to row `i`, and up to statement `j` of that row. */
  ghost predicate ListedUpTo(rows: seq<Document>, i: nat, j: nat, d: Decision, a: string)
    requires i <= |rows|
  {
    || Listed(rows[..i], d, a)
    || (i < |rows| && Readable(rows[i]) && j <= |rows[i].statements| &&
        exists st :: st in rows[i].statements[..j] && EffectOf(st) == Some(d) && a in ActionsOf(st.action))
  }

  method AddAll(actions: set<string>, more: seq<string>) returns (r: set<string>)
    ensures forall a :: a in r <==> a in actions || a in more
  {
    r := actions;
    for k := 0 to |more|
      invariant forall a :: a in r <==> a in actions || a in more[..k]
    {
      r := r + {more[k]};
    }
  }

  /** The keys of a Go map, in an arbitrary order. */
  method Keys(s: set<string>) returns (list: seq<string>)
    ensures Enumerates(list, s) && |list| == |s|
  {
    list := [];
    var rest := s;
    while rest != {}
      invariant rest <= s && Enumerates(list, s - rest) && |list| + |rest| == |s|
      decreases rest
    {
      var a :| a in rest;
      list := list + [a];
      rest := rest - {a};
      assert s - rest == s - (rest + {a}) + {a};
    }
    assert s - rest == s;
  }

  lemma NextStatement(rows: seq<Document>, i: nat, j: nat, d: Decision, a: string)
    requires i < |rows| && Readable(rows[i]) && j < |rows[i].statements|
    ensures ListedUpTo(rows, i, j + 1, d, a) <==>
            ListedUpTo(rows, i, j, d, a) ||
            (EffectOf(rows[i].statements[j]) == Some(d) && a in ActionsOf(rows[i].statements[j].action))
  {
    assert rows[i].statements[..j + 1] == rows[i].statements[..j] + [rows[i].statements[j]];
  }

  lemma NextRow(rows: seq<Document>, i: nat, d: Decision, a: string)
    requires i < |rows|
    ensures Listed(rows[..i + 1], d, a) <==>
            if Readable(rows[i]) then ListedUpTo(rows, i, |rows[i].statements|, d, a) else Listed(rows[..i], d, a)
  {
    assert rows[..i + 1] == rows[..i] + [rows[i]];
    if Readable(rows[i]) {
      assert rows[i].statements[..|rows[i].statements|] == rows[i].statements;
    }
    if Listed(rows[..i + 1], d, a) {
      var doc, st :| doc in rows[..i + 1] && Readable(doc) && st in doc.statements &&
                     EffectOf(st) == Some(d) && a in ActionsOf(st.action);
      assert doc in rows[..i] || doc == rows[i];
    }
  }

  /** GetGroupPermissions, from the joined documents on. Each list holds exactly the listed
      actions of its effect, once each, and the counts are the list lengths. */
  method GetGroupPermissions(rows: seq<Document>)
    returns (allow: seq<string>, deny: seq<string>, allowCount: nat, denyCount: nat)
    ensures forall a :: a in allow <==> Listed(rows, Allow, a)
    ensures forall a :: a in deny <==> Listed(rows, Deny, a)
    ensures forall i, j :: 0 <= i < j < |allow| ==> allow[i] != allow[j]
    ensures forall i, j :: 0 <= i < j < |deny| ==> deny[i] != deny[j]
    ensures allowCount == |allow| && denyCount == |deny|
  {
    var allowActions, denyActions: set<string> := {}, {};
    for i := 0 to |rows|
      invariant forall a :: a in allowActions <==> Listed(rows[..i], Allow, a)
      invariant forall a :: a in denyActions <==> Listed(rows[..i], Deny, a)
    {
      forall d, a ensures Listed(rows[..i + 1], d, a) <==>
        if Readable(rows[i]) then ListedUpTo(rows, i, |rows[i].statements|, d, a) else Listed(rows[..i], d, a)
      {
        NextRow(rows, i, d, a);
      }
      if rows[i].Undecodable? {
        continue;
      }
      for j := 0 to |rows[i].statements|
        invariant forall a :: a in allowActions <==> ListedUpTo(rows, i, j, Allow, a)
        invariant forall a :: a in denyActions <==> ListedUpTo(rows, i, j, Deny, a)
      {
        var st := rows[i].statements[j];
        forall d, a ensures ListedUpTo(rows, i, j + 1, d, a) <==>
          ListedUpTo(rows, i, j, d, a) || (EffectOf(st) == Some(d) && a in ActionsOf(st.action))
        {
          NextStatement(rows, i, j, d, a);
        }
        EffectsDiffer(st);
        var actions := ActionsOf(st.action);
        if FoldsTo(st.effect, "allow") {
          allowActions := AddAll(allowActions, actions);
        } else if FoldsTo(st.effect, "deny") {
          denyActions := AddAll(denyActions, actions);
        }
      }
    }
    assert rows[..|rows|] == rows;
    allow := Keys(allowActions);
    deny := Keys(denyActions);
    allowCount, denyCount := |allow|, |deny|;
  }

  /** No spelling folds to both effects, so testing allow first changes nothing. */
  lemma EffectsDiffer(st: Statement)
    ensures !(FoldsTo(st.effect, "deny") && FoldsTo(st.effect, "allow"))
  {
  }

  // ---- the summary and the evaluator --------------------------------------------------

  lemma FieldNeedsAction(action: Json, value: string) returns (a: string)
    requires MatchField(action, value)
    ensures a in ActionsOf(action) && Glob.MatchWildcard(a, value)
  {
    if action.Text? {
      a := action.s;
    } else {
      var i :| 0 <= i < |action.items| && action.items[i].Text? && Glob.MatchWildcard(action.items[i].s, value);
      a := action.items[i].s;
    }
  }

  /** A field matches exactly when one of its texts does. */
  lemma FieldMatchesIff(field: Json, value: string)
    ensures MatchField(field, value) <==> exists a :: a in ActionsOf(field) && Glob.MatchWildcard(a, value)
  {
    if MatchField(field, value) {
      var a := FieldNeedsAction(field, value);
    }
    if a :| a in ActionsOf(field) && Glob.MatchWildcard(a, value) {
      if field.List? {
        var i :| 0 <= i < |field.items| && field.items[i] == Text(a);
        assert field.items[i].Text? && Glob.MatchWildcard(field.items[i].s, value);
      }
    }
  }

  /** Whatever a joined document decides, for any resource and context, the summary lists an
      action pattern of that effect which matches the requested action. */
  lemma SummaryCoversDecision(rt: Runtime, rows: seq<Document>, doc: Document, req: Request, orders: seq<MapOrder>)
    returns (a: string)
    requires doc in rows && (doc.Decoded? ==> ValidOrders(doc.statements, orders))
    requires Policy.Evaluate(rt, doc, req, orders).Decided?
    requires Policy.Evaluate(rt, doc, req, orders).decision != NotApplicable
    ensures Listed(rows, Policy.Evaluate(rt, doc, req, orders).decision, a)
    ensures Glob.MatchWildcard(a, req.action)
  {
    var d := Policy.Evaluate(rt, doc, req, orders).decision;
    EvaluateIsFirstDecisive(rt, doc.statements, req, orders);
    var i: nat :| FirstAt(rt, doc.statements, req, i) && EffectOf(doc.statements[i]) == Some(d);
    a := FieldNeedsAction(doc.statements[i].action, req.action);
    assert doc.statements[i] in doc.statements;
  }

  /** What is listed, on the stored text: the effect in any spelling, the action alone or in a list,
      of any document the summary can read. */
  lemma ListedOnText(rows: seq<Document>, a: string)
    ensures Listed(rows, Allow, a) <==>
      exists doc, st :: doc in rows && !doc.Undecodable? && st in doc.statements && ToLower(st.effect) == "allow" &&
        (st.action == Text(a) || (st.action.List? && Text(a) in st.action.items))
    ensures Listed(rows, Deny, a) <==>
      exists doc, st :: doc in rows && !doc.Undecodable? && st in doc.statements && ToLower(st.effect) == "deny" &&
        (st.action == Text(a) || (st.action.List? && Text(a) in st.action.items))
  {
    forall st: Statement
      ensures EffectOf(st) == Some(Allow) <==> ToLower(st.effect) == "allow"
      ensures EffectOf(st) == Some(Deny) <==> ToLower(st.effect) == "deny"
      ensures a in ActionsOf(st.action) <==> st.action == Text(a) || (st.action.List? && Text(a) in st.action.items)
    {
      EffectByCase(st);
    }
  }

  /** The summary depends only on which documents are joined, not on their row order. */
  lemma SummaryIgnoresRowOrder(rows: seq<Document>, rows': seq<Document>, d: Decision, a: string)
    requires multiset(rows) == multiset(rows')
    ensures Listed(rows, d, a) <==> Listed(rows', d, a)
  {
    SameMembers(rows, rows');
  }
}
