/** Policy documents of `internal/authz/evaluator.go`: the first statement that matches and
    carries an Allow or Deny effect decides. */
module Policy {
  import opened Basics
  import opened Strings
  import opened Conditions
  import Glob

  datatype Decision = Allow | Deny | NotApplicable

  /** A decision, or Deny together with an error. */
  datatype Verdict = Decided(decision: Decision) | DenyWithError

  /** A null or missing condition is None. */
  datatype Statement = Statement(effect: string, action: Json, resource: Json, condition: Option<Json>)

  /** A stored document: text neither reader can decode, text only the group summary's smaller
      structure accepts, or text both decode. */
  datatype Document = Undecodable | SummaryOnly(statements: seq<Statement>) | Decoded(statements: seq<Statement>)

  datatype Request = Request(action: string, resource: string, context: Context)

  predicate MatchField(field: Json, value: string) {
    match field
    case Text(s) => Glob.MatchWildcard(s, value)
    case List(items) => exists i :: 0 <= i < |items| && items[i].Text? && Glob.MatchWildcard(items[i].s, value)
    case _ => false
  }

  /** The decision an effect stands for; any other spelling stands for none. */
  function EffectOf(st: Statement): Option<Decision> {
    if FoldsTo(st.effect, "deny") then Some(Deny)
    else if FoldsTo(st.effect, "allow") then Some(Allow)
    else None
  }

  /** The two effects are told apart by their lower case. */
  lemma EffectSpellings()
    ensures forall s :: FoldsTo(s, "deny") <==> ToLower(s) == "deny"
    ensures forall s :: FoldsTo(s, "allow") <==> ToLower(s) == "allow"
  {
    forall s
      ensures (FoldsTo(s, "deny") <==> ToLower(s) == "deny") && (FoldsTo(s, "allow") <==> ToLower(s) == "allow")
    {
      FoldsIsLower(s, "deny");
      FoldsIsLower(s, "allow");
    }
  }

  /** So the case of an effect does not matter: "deny" denies, "allow" allows, in any spelling, and
      nothing else does either. */
  lemma EffectByCase(st: Statement)
    ensures EffectOf(st) ==
            if ToLower(st.effect) == "deny" then Some(Deny)
            else if ToLower(st.effect) == "allow" then Some(Allow)
            else None
  {
    EffectSpellings();
  }

  predicate FieldsMatch(st: Statement, req: Request) {
    MatchField(st.action, req.action) && MatchField(st.resource, req.resource)
  }

  ghost predicate ValidOrders(statements: seq<Statement>, orders: seq<MapOrder>) {
    && |orders| == |statements|
    && forall i :: 0 <= i < |statements| && statements[i].condition.Some? ==>
         ValidOrder(statements[i].condition.value, orders[i])
  }

  function Matches(rt: Runtime, st: Statement, req: Request, order: MapOrder): Outcome
    requires st.condition.Some? ==> ValidOrder(st.condition.value, order)
  {
    if !FieldsMatch(st, req) then Unmet
    else if st.condition.Some? then Conditions.Evaluate(rt, st.condition.value, req.context, order)
    else Met
  }

  function EvaluateStatements(rt: Runtime, statements: seq<Statement>, req: Request, orders: seq<MapOrder>): Verdict
    requires ValidOrders(statements, orders)
  {
    if statements == [] then Decided(NotApplicable)
    else
      match Matches(rt, statements[0], req, orders[0])
      case Failed(_) => DenyWithError
      case Met =>
        if EffectOf(statements[0]).Some? then Decided(EffectOf(statements[0]).value)
        else EvaluateStatements(rt, statements[1..], req, orders[1..])
      case Unmet => EvaluateStatements(rt, statements[1..], req, orders[1..])
  }

  /** Evaluator.Evaluate; `orders` are the map iteration orders of this evaluation. */
  function Evaluate(rt: Runtime, doc: Document, req: Request, orders: seq<MapOrder>): Verdict
    requires doc.Decoded? ==> ValidOrders(doc.statements, orders)
  {
    if doc.Decoded? then EvaluateStatements(rt, doc.statements, req, orders) else DenyWithError
  }

  // ---- verdicts without map orders ----------------------------------------------------

  /** The outcomes matching one statement can have. */
  ghost predicate MatchYields(rt: Runtime, st: Statement, req: Request, r: Outcome) {
    if !FieldsMatch(st, req) then r == Unmet
    else if st.condition.Some? then Yields(rt, st.condition.value, req.context, r)
    else r == Met
  }

  /** The verdicts a list of statements can have. */
  ghost predicate CanDecide(rt: Runtime, statements: seq<Statement>, req: Request, v: Verdict) {
    if statements == [] then v == Decided(NotApplicable)
    else
      var st := statements[0];
      || (v == DenyWithError && exists e :: MatchYields(rt, st, req, Failed(e)))
      || (EffectOf(st).Some? && v == Decided(EffectOf(st).value) && MatchYields(rt, st, req, Met))
      || ((MatchYields(rt, st, req, Unmet) || (EffectOf(st).None? && MatchYields(rt, st, req, Met)))
          && CanDecide(rt, statements[1..], req, v))
  }

  lemma {:induction false} EvaluateCanDecide(rt: Runtime, statements: seq<Statement>, req: Request,
                                             orders: seq<MapOrder>)
    requires ValidOrders(statements, orders)
    ensures CanDecide(rt, statements, req, EvaluateStatements(rt, statements, req, orders))
  {
    if statements == [] {
    } else {
      var st := statements[0];
      if FieldsMatch(st, req) && st.condition.Some? {
        EvaluateYields(rt, st.condition.value, req.context, orders[0]);
      }
      var m := Matches(rt, st, req, orders[0]);
      assert MatchYields(rt, st, req, m);
      EvaluateCanDecide(rt, statements[1..], req, orders[1..]);
    }
  }

  lemma MatchOrderFor(rt: Runtime, st: Statement, req: Request, r: Outcome) returns (order: MapOrder)
    requires MatchYields(rt, st, req, r)
    ensures st.condition.Some? ==> ValidOrder(st.condition.value, order)
    ensures Matches(rt, st, req, order) == r
  {
    if st.condition.None? {
      order := MapOrder([], map[]);
    } else if FieldsMatch(st, req) {
      order := OrderFor(rt, st.condition.value, req.context, r);
    } else {
      order := SomeOrder(st.condition.value);
    }
  }

  lemma SomeOrder(condition: Json) returns (order: MapOrder)
    ensures ValidOrder(condition, order)
  {
    if condition.Object? {
      var m := condition.fields;
      order := MapOrder(AnyOrder(m.Keys), map op | op in m && m[op].Object? :: AnyOrder(m[op].fields.Keys));
    } else {
      order := MapOrder([], map[]);
    }
  }

  lemma SomeOrders(statements: seq<Statement>) returns (orders: seq<MapOrder>)
    ensures ValidOrders(statements, orders)
  {
    orders := [];
    if statements == [] {
    } else {
      var rest := SomeOrders(statements[1..]);
      var first := MapOrder([], map[]);
      if statements[0].condition.Some? {
        first := SomeOrder(statements[0].condition.value);
      }
      orders := [first] + rest;
    }
  }

  lemma {:induction false} OrdersFor(rt: Runtime, statements: seq<Statement>, req: Request, v: Verdict)
    returns (orders: seq<MapOrder>)
    requires CanDecide(rt, statements, req, v)
    ensures ValidOrders(statements, orders) && EvaluateStatements(rt, statements, req, orders) == v
  {
    if statements == [] {
      orders := [];
    } else {
      var st := statements[0];
      var r: Outcome;
      var rest: seq<MapOrder>;
      if v == DenyWithError && exists e :: MatchYields(rt, st, req, Failed(e)) {
        var e :| MatchYields(rt, st, req, Failed(e));
        r := Failed(e);
        rest := SomeOrders(statements[1..]);
      } else if EffectOf(st).Some? && v == Decided(EffectOf(st).value) && MatchYields(rt, st, req, Met) {
        r := Met;
        rest := SomeOrders(statements[1..]);
      } else {
        r := if MatchYields(rt, st, req, Unmet) then Unmet else Met;
        rest := OrdersFor(rt, statements[1..], req, v);
      }
      var first := MatchOrderFor(rt, st, req, r);
      orders := [first] + rest;
      assert orders[1..] == rest;
    }
  }

  /** The verdicts over all map orders are exactly those `CanDecide` describes. */
  lemma VerdictsExactly(rt: Runtime, statements: seq<Statement>, req: Request, v: Verdict)
    ensures CanDecide(rt, statements, req, v) <==>
            exists orders :: ValidOrders(statements, orders) && EvaluateStatements(rt, statements, req, orders) == v
  {
    if CanDecide(rt, statements, req, v) {
      var orders := OrdersFor(rt, statements, req, v);
    }
    forall orders | ValidOrders(statements, orders) && EvaluateStatements(rt, statements, req, orders) == v
      ensures CanDecide(rt, statements, req, v)
    {
      EvaluateCanDecide(rt, statements, req, orders);
    }
  }

  /** A statement whose action or resource does not match is as good as absent: wherever it
      stands, and whatever its condition, the verdicts are those without it. */
  lemma {:induction false} UnmatchedIsAbsent(rt: Runtime, before: seq<Statement>, st: Statement, after: seq<Statement>,
                                             req: Request, v: Verdict)
    requires !MatchField(st.action, req.action) || !MatchField(st.resource, req.resource)
    ensures CanDecide(rt, before + [st] + after, req, v) <==> CanDecide(rt, before + after, req, v)
    decreases |before|
  {
    var full := before + [st] + after;
    if before == [] {
      assert full[0] == st && full[1..] == after && before + after == after;
    } else {
      var less := before + after;
      assert full[0] == before[0] == less[0];
      assert full[1..] == before[1..] + [st] + after && less[1..] == before[1..] + after;
      UnmatchedIsAbsent(rt, before[1..], st, after, req, v);
    }
  }

  /** A statement that matches and whose condition is met decides by the spelling of its effect, and
      with any other effect leaves the decision to the rest. */
  lemma HeadDecides(rt: Runtime, st: Statement, rest: seq<Statement>, req: Request, orders: seq<MapOrder>)
    requires ValidOrders([st] + rest, orders)
    requires MatchField(st.action, req.action) && MatchField(st.resource, req.resource)
    requires st.condition.Some? ==> Conditions.Evaluate(rt, st.condition.value, req.context, orders[0]) == Met
    ensures ValidOrders(rest, orders[1..])
    ensures EvaluateStatements(rt, [st] + rest, req, orders) ==
            if ToLower(st.effect) == "deny" then Decided(Deny)
            else if ToLower(st.effect) == "allow" then Decided(Allow)
            else EvaluateStatements(rt, rest, req, orders[1..])
  {
    var all := [st] + rest;
    assert all[0] == st && all[1..] == rest;
    assert forall i :: 0 <= i < |rest| ==> rest[i] == all[i + 1];
    EffectByCase(st);
  }

  lemma SomeMatch(rt: Runtime, st: Statement, req: Request) returns (r: Outcome)
    ensures MatchYields(rt, st, req, r)
  {
    r := Unmet;
    if !FieldsMatch(st, req) {
    } else if st.condition.Some? {
      var order := SomeOrder(st.condition.value);
      EvaluateYields(rt, st.condition.value, req.context, order);
      r := Conditions.Evaluate(rt, st.condition.value, req.context, order);
    } else {
      r := Met;
    }
  }

  /** A statement with another effect can only fail: without an error of its condition the verdicts
      are those without it, wherever it stands. */
  lemma {:induction false} OtherEffectIsAbsent(rt: Runtime, before: seq<Statement>, st: Statement,
                                               after: seq<Statement>, req: Request, v: Verdict)
    requires ToLower(st.effect) != "deny" && ToLower(st.effect) != "allow"
    requires forall e :: !MatchYields(rt, st, req, Failed(e))
    ensures CanDecide(rt, before + [st] + after, req, v) <==> CanDecide(rt, before + after, req, v)
    decreases |before|
  {
    var full := before + [st] + after;
    if before == [] {
      assert full[0] == st && full[1..] == after && before + after == after;
      EffectByCase(st);
      var r := SomeMatch(rt, st, req);
      assert r == Met || r == Unmet;
    } else {
      var less := before + after;
      assert full[0] == before[0] == less[0];
      assert full[1..] == before[1..] + [st] + after && less[1..] == before[1..] + after;
      OtherEffectIsAbsent(rt, before[1..], st, after, req, v);
    }
  }

  /** Another spelling of an effect with the same lower case leaves the verdicts unchanged. */
  lemma {:induction false} RespelledEffect(rt: Runtime, statements: seq<Statement>, i: nat, effect: string,
                                           req: Request, v: Verdict)
    requires i < |statements| && ToLower(effect) == ToLower(statements[i].effect)
    ensures CanDecide(rt, statements[i := statements[i].(effect := effect)], req, v) <==>
            CanDecide(rt, statements, req, v)
  {
    var respelled := statements[i].(effect := effect);
    var other := statements[i := respelled];
    if i == 0 {
      EffectByCase(statements[0]);
      EffectByCase(respelled);
      assert other[0] == respelled && other[1..] == statements[1..];
      assert forall r :: MatchYields(rt, respelled, req, r) <==> MatchYields(rt, statements[0], req, r);
    } else {
      assert other[0] == statements[0] && other[1..] == statements[1..][i - 1 := respelled];
      RespelledEffect(rt, statements[1..], i - 1, effect, req, v);
    }
  }

  // ---- the decision of a document -----------------------------------------------------

  /** The statement matches the request, all its conditions being met. */
  ghost predicate Applies(rt: Runtime, st: Statement, req: Request) {
    MatchYields(rt, st, req, Met)
  }

  ghost predicate Decisive(rt: Runtime, st: Statement, req: Request) {
    Applies(rt, st, req) && EffectOf(st).Some?
  }

  /** Statement `i` is the first decisive one. */
  ghost predicate FirstAt(rt: Runtime, statements: seq<Statement>, req: Request, i: nat) {
    && i < |statements|
    && Decisive(rt, statements[i], req)
    && forall j :: 0 <= j < i ==> !Decisive(rt, statements[j], req)
  }

  /** `d` is the effect of the first decisive statement. */
  ghost predicate FirstDecisive(rt: Runtime, statements: seq<Statement>, req: Request, d: Decision) {
    if d == NotApplicable then forall st :: st in statements ==> !Decisive(rt, st, req)
    else exists i: nat :: FirstAt(rt, statements, req, i) && EffectOf(statements[i]) == Some(d)
  }

  lemma FirstDecisiveHead(rt: Runtime, statements: seq<Statement>, req: Request, d: Decision)
    requires statements != [] && Decisive(rt, statements[0], req)
    ensures FirstDecisive(rt, statements, req, d) <==> EffectOf(statements[0]) == Some(d)
  {
    assert FirstAt(rt, statements, req, 0);
    assert statements[0] in statements;
  }

  lemma FirstDecisiveTail(rt: Runtime, statements: seq<Statement>, req: Request, d: Decision)
    requires statements != [] && !Decisive(rt, statements[0], req)
    requires FirstDecisive(rt, statements[1..], req, d)
    ensures FirstDecisive(rt, statements, req, d)
  {
    var rest := statements[1..];
    if d == NotApplicable {
      assert statements == [statements[0]] + rest;
    } else {
      var i: nat :| FirstAt(rt, rest, req, i) && EffectOf(rest[i]) == Some(d);
      forall j | 0 <= j < i + 1 ensures !Decisive(rt, statements[j], req) {
        assert j > 0 ==> statements[j] == rest[j - 1];
      }
      assert FirstAt(rt, statements, req, i + 1);
    }
  }

  /** An evaluation without an error returns the effect of the first decisive statement,
      whatever the map orders. */
  lemma {:induction false} EvaluateIsFirstDecisive(rt: Runtime, statements: seq<Statement>, req: Request,
                                                   orders: seq<MapOrder>)
    requires ValidOrders(statements, orders)
    requires EvaluateStatements(rt, statements, req, orders).Decided?
    ensures FirstDecisive(rt, statements, req, EvaluateStatements(rt, statements, req, orders).decision)
  {
    if statements == [] {
    } else {
      var st := statements[0];
      if FieldsMatch(st, req) && st.condition.Some? {
        BooleanIgnoresOrder(rt, st.condition.value, req.context, orders[0]);
      }
      var d := EvaluateStatements(rt, statements, req, orders).decision;
      if Decisive(rt, st, req) {
        FirstDecisiveHead(rt, statements, req, d);
      } else {
        EvaluateIsFirstDecisive(rt, statements[1..], req, orders[1..]);
        FirstDecisiveTail(rt, statements, req, d);
      }
    }
  }

  lemma FirstDecisiveUnique(rt: Runtime, statements: seq<Statement>, req: Request, d: Decision, e: Decision)
    requires FirstDecisive(rt, statements, req, d) && FirstDecisive(rt, statements, req, e)
    ensures d == e
  {
  }

  predicate WellFormedConditions(statements: seq<Statement>) {
    forall st :: st in statements && st.condition.Some? ==> WellFormed(st.condition.value)
  }

  /** With supported operators everywhere the decision never depends on map order. */
  lemma {:induction false} WellFormedDecides(rt: Runtime, statements: seq<Statement>, req: Request,
                                             orders: seq<MapOrder>)
    requires ValidOrders(statements, orders) && WellFormedConditions(statements)
    ensures EvaluateStatements(rt, statements, req, orders).Decided?
  {
    if statements == [] {
    } else {
      var st := statements[0];
      if FieldsMatch(st, req) && st.condition.Some? {
        WellFormedHasNoError(rt, st.condition.value, req.context, orders[0]);
      }
      WellFormedDecides(rt, statements[1..], req, orders[1..]);
    }
  }

  lemma WellFormedIsDeterministic(rt: Runtime, statements: seq<Statement>, req: Request,
                                  o1: seq<MapOrder>, o2: seq<MapOrder>)
    requires ValidOrders(statements, o1) && ValidOrders(statements, o2) && WellFormedConditions(statements)
    ensures EvaluateStatements(rt, statements, req, o1) == EvaluateStatements(rt, statements, req, o2)
    ensures EvaluateStatements(rt, statements, req, o1).Decided?
  {
    WellFormedDecides(rt, statements, req, o1);
    WellFormedDecides(rt, statements, req, o2);
    EvaluateIsFirstDecisive(rt, statements, req, o1);
    EvaluateIsFirstDecisive(rt, statements, req, o2);
    FirstDecisiveUnique(rt, statements, req, EvaluateStatements(rt, statements, req, o1).decision,
                        EvaluateStatements(rt, statements, req, o2).decision);
  }

  // ---- the order of statements ---------------------------------------------------------

  ghost predicate OneEffect(rt: Runtime, statements: seq<Statement>, req: Request) {
    forall a, b :: a in statements && b in statements && Decisive(rt, a, req) && Decisive(rt, b, req) ==>
      EffectOf(a) == EffectOf(b)
  }

  lemma {:induction false} FirstDecisiveExists(rt: Runtime, statements: seq<Statement>, req: Request)
    returns (d: Decision)
    ensures FirstDecisive(rt, statements, req, d)
  {
    if statements == [] {
      d := NotApplicable;
    } else {
      d := FirstDecisiveExists(rt, statements[1..], req);
      if Decisive(rt, statements[0], req) {
        d := EffectOf(statements[0]).value;
        FirstDecisiveHead(rt, statements, req, d);
      } else {
        FirstDecisiveTail(rt, statements, req, d);
      }
    }
  }

  /** Statement order matters exactly when two applicable statements disagree. */
  lemma ReorderingIgnoredIff(rt: Runtime, statements: seq<Statement>, req: Request)
    ensures OneEffect(rt, statements, req) <==>
            forall p, d, e ::
              && multiset(p) == multiset(statements)
              && FirstDecisive(rt, statements, req, d) && FirstDecisive(rt, p, req, e)
              ==> d == e
  {
    if OneEffect(rt, statements, req) {
      forall p, d, e |
        multiset(p) == multiset(statements) && FirstDecisive(rt, statements, req, d) && FirstDecisive(rt, p, req, e)
        ensures d == e
      {
        SameMembers(p, statements);
      }
    } else {
      var a, b :| a in statements && b in statements && Decisive(rt, a, req) && Decisive(rt, b, req) &&
        EffectOf(a) != EffectOf(b);
      var d := FirstDecisiveExists(rt, statements, req);
      var x := if EffectOf(a) == Some(d) then b else a;
      var p := MoveToFront(statements, x);
      FirstDecisiveHead(rt, p, req, EffectOf(x).value);
    }
  }

  lemma SameMembers<T>(p: seq<T>, q: seq<T>)
    requires multiset(p) == multiset(q)
    ensures forall x :: x in p <==> x in q
  {
    forall x ensures x in p <==> x in q {
      assert x in p <==> x in multiset(p);
      assert x in q <==> x in multiset(q);
    }
  }

  lemma MoveToFront<T>(s: seq<T>, x: T) returns (p: seq<T>)
    requires x in s
    ensures multiset(p) == multiset(s) && p != [] && p[0] == x
  {
    var i :| 0 <= i < |s| && s[i] == x;
    p := [x] + (s[..i] + s[i + 1..]);
    assert s == s[..i] + [x] + s[i + 1..];
  }

  /** A deny statement overrides exactly when no applicable allow precedes all applicable denies. */
  lemma DenyWinsIff(rt: Runtime, statements: seq<Statement>, req: Request)
    ensures FirstDecisive(rt, statements, req, Deny) <==>
            exists i: nat ::
              && 0 <= i < |statements| && Applies(rt, statements[i], req) && EffectOf(statements[i]) == Some(Deny)
              && forall j :: 0 <= j < i ==> !(Applies(rt, statements[j], req) && EffectOf(statements[j]) == Some(Allow))
  {
    if i: nat :|
      && i < |statements| && Applies(rt, statements[i], req) && EffectOf(statements[i]) == Some(Deny)
      && forall j :: 0 <= j < i ==> !(Applies(rt, statements[j], req) && EffectOf(statements[j]) == Some(Allow))
    {
      EarliestDeny(rt, statements, req, i);
    }
  }

  lemma {:induction false} EarliestDeny(rt: Runtime, statements: seq<Statement>, req: Request, i: nat)
    requires i < |statements| && Applies(rt, statements[i], req) && EffectOf(statements[i]) == Some(Deny)
    requires forall j :: 0 <= j < i ==> !(Applies(rt, statements[j], req) && EffectOf(statements[j]) == Some(Allow))
    ensures FirstDecisive(rt, statements, req, Deny)
  {
    if exists j :: 0 <= j < i && Decisive(rt, statements[j], req) {
      var j :| 0 <= j < i && Decisive(rt, statements[j], req);
      EarliestDeny(rt, statements, req, j);
    } else {
      assert FirstAt(rt, statements, req, i);
    }
  }

  const ALLOW_ALL := Statement("Allow", List([Text("*")]), List([Text("*")]), None)
  const DENY_ALL := Statement("Deny", List([Text("*")]), List([Text("*")]), None)

  /** The bootstrap administrator document allows every request; with a deny after it, the
      deny is never reached, so inside one document deny does not override. */
  lemma AllowAllDecides(rt: Runtime, req: Request)
    ensures FirstDecisive(rt, [ALLOW_ALL], req, Allow)
    ensures FirstDecisive(rt, [ALLOW_ALL, DENY_ALL], req, Allow) && Decisive(rt, DENY_ALL, req)
  {
    var star := List([Text("*")]);
    forall v: string ensures MatchField(star, v) {
      assert star.items[0].Text? && Glob.MatchWildcard(star.items[0].s, v);
    }
    assert FoldsTo("Allow", "allow") && !FoldsTo("Allow", "deny") && FoldsTo("Deny", "deny");
    FirstDecisiveHead(rt, [ALLOW_ALL], req, Allow);
    FirstDecisiveHead(rt, [ALLOW_ALL, DENY_ALL], req, Allow);
  }
}
