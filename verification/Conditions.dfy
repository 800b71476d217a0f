/** Condition evaluation of `internal/authz/conditions.go`. Go iterates its maps in an
    arbitrary order, so an evaluation takes the two iteration orders as arguments, and the
    set of outcomes over all orders is characterised without them. */
module Conditions {
  import opened Basics
  import opened Strings
  import Glob

  /** A value decoded from JSON. */
  datatype Json =
    | Null
    | Boolean(b: bool)
    | Number(n: real)
    | Text(s: string)
    | List(items: seq<Json>)
    | Object(fields: map<string, Json>)

  /** Library calls kept as parameters: fmt.Sprintf("%v"), strings.EqualFold on two arbitrary
      texts, and the address test built on net.ParseCIDR and net.ParseIP. */
  datatype Runtime = Runtime(
    show: Json -> string,
    equalFold: (string, string) -> bool,
    ipMatch: (string, string) -> bool)

  datatype ConditionError = NotAMap | RequirementsNotAMap | UnsupportedOperator(name: string)

  /** The returned pair: true, false, or false with an error. */
  datatype Outcome = Met | Unmet | Failed(error: ConditionError)

  function Answer(b: bool): Outcome { if b then Met else Unmet }

  const OPERATORS := {
    "StringEquals", "StringNotEquals", "StringEqualsIgnoreCase", "StringLike",
    "Bool", "NumericEquals", "IpAddress"
  }

  function ApplyOperator(rt: Runtime, operator: string, expected: Json, actual: Json): (r: Outcome)
    ensures r.Failed? <==> operator !in OPERATORS
    ensures r.Failed? ==> r.error == UnsupportedOperator(operator)
  {
    var e, a := rt.show(expected), rt.show(actual);
    if operator == "StringEquals" then Answer(e == a)
    else if operator == "StringNotEquals" then Answer(e != a)
    else if operator == "StringEqualsIgnoreCase" then Answer(rt.equalFold(e, a))
    else if operator == "StringLike" then Answer(Glob.MatchWildcard(e, a))
    else if operator == "Bool" then
      if expected.Boolean? && actual.Boolean? then Answer(expected.b == actual.b) else Answer(e == a)
    else if operator == "NumericEquals" then Answer(e == a)
    else if operator == "IpAddress" then Answer(rt.ipMatch(e, a))
    else Failed(UnsupportedOperator(operator))
  }

  /** How the operators relate: the negated one is the complement, the numeric one compares text,
      Bool compares truth values where both are given, and a like without wildcards is equality. */
  lemma OperatorLaws(rt: Runtime, expected: Json, actual: Json)
    ensures var equal := ApplyOperator(rt, "StringEquals", expected, actual);
      && (ApplyOperator(rt, "StringNotEquals", expected, actual) == Met <==> equal == Unmet)
      && ApplyOperator(rt, "NumericEquals", expected, actual) == equal
      && (expected.Boolean? && actual.Boolean? ==>
            (ApplyOperator(rt, "Bool", expected, actual) == Met <==> expected == actual))
      && (!(expected.Boolean? && actual.Boolean?) ==> ApplyOperator(rt, "Bool", expected, actual) == equal)
      && ('*' !in rt.show(expected) && '?' !in rt.show(expected) ==>
            ApplyOperator(rt, "StringLike", expected, actual) == equal)
      && ('\n' !in rt.show(actual) ==>
            (ApplyOperator(rt, "StringLike", expected, actual) == Met <==>
             Glob.InGlob(rt.show(expected), rt.show(actual), Glob.AnyChar)))
  {
    var e, a := rt.show(expected), rt.show(actual);
    if '*' !in e && '?' !in e {
      Glob.LiteralPattern(e, a);
    }
    if '\n' !in a {
      Glob.PlainGlobOnOneLine(e, a);
    }
  }

  type Context = map<string, Json>

  /** One pass over the keys of a requirements map, in the order given. */
  function EvaluateKeys(rt: Runtime, operator: string, requirements: map<string, Json>, context: Context,
                        order: seq<string>): Outcome
    requires forall k :: k in order ==> k in requirements
  {
    if order == [] then Met
    else
      var key := order[0];
      if key !in context then Unmet
      else
        match ApplyOperator(rt, operator, requirements[key], context[key])
        case Failed(e) => Failed(e)
        case Unmet => Unmet
        case Met => EvaluateKeys(rt, operator, requirements, context, order[1..])
  }

  function EvaluateOperator(rt: Runtime, operator: string, requirements: Json, context: Context,
                            order: seq<string>): Outcome
    requires requirements.Object? ==> forall k :: k in order ==> k in requirements.fields
  {
    if requirements.Object? then EvaluateKeys(rt, operator, requirements.fields, context, order)
    else Failed(RequirementsNotAMap)
  }

  /** Iteration orders of one evaluation: of the operators, and of each operator's keys. */
  datatype MapOrder = MapOrder(operators: seq<string>, keys: map<string, seq<string>>)

  ghost predicate ValidInner(fields: map<string, Json>, keys: map<string, seq<string>>) {
    forall op :: op in fields && fields[op].Object? ==> op in keys && Enumerates(keys[op], fields[op].fields.Keys)
  }

  ghost predicate ValidOrder(condition: Json, order: MapOrder) {
    condition.Object? ==>
      Enumerates(order.operators, condition.fields.Keys) && ValidInner(condition.fields, order.keys)
  }

  function EvaluateOperators(rt: Runtime, fields: map<string, Json>, context: Context,
                                   operators: seq<string>, keys: map<string, seq<string>>): Outcome
    requires forall op :: op in operators ==> op in fields
    requires ValidInner(fields, keys)
  {
    if operators == [] then Met
    else
      var op := operators[0];
      var order := if fields[op].Object? then keys[op] else [];
      match EvaluateOperator(rt, op, fields[op], context, order)
      case Failed(e) => Failed(e)
      case Unmet => Unmet
      case Met => EvaluateOperators(rt, fields, context, operators[1..], keys)
  }

  /** ConditionEvaluator.Evaluate for one choice of iteration orders. */
  function Evaluate(rt: Runtime, condition: Json, context: Context, order: MapOrder): Outcome
    requires ValidOrder(condition, order)
  {
    if condition.Object? then EvaluateOperators(rt, condition.fields, context, order.operators, order.keys)
    else Failed(NotAMap)
  }

  // ---- outcomes without an order -----------------------------------------------------

  /** What one key of a requirements map says: missing from the context counts as false. */
  function KeyOutcome(rt: Runtime, operator: string, requirements: map<string, Json>, context: Context,
                      key: string): Outcome
    requires key in requirements
  {
    if key in context then ApplyOperator(rt, operator, requirements[key], context[key]) else Unmet
  }

  /** The outcomes one operator entry can have. */
  ghost predicate OperatorYields(rt: Runtime, operator: string, requirements: Json, context: Context, r: Outcome) {
    if !requirements.Object? then r == Failed(RequirementsNotAMap)
    else if r == Met then
      forall k :: k in requirements.fields ==> KeyOutcome(rt, operator, requirements.fields, context, k) == Met
    else
      exists k :: k in requirements.fields && KeyOutcome(rt, operator, requirements.fields, context, k) == r
  }

  /** The outcomes a whole condition can have. */
  ghost predicate Yields(rt: Runtime, condition: Json, context: Context, r: Outcome) {
    if !condition.Object? then r == Failed(NotAMap)
    else if r == Met then
      forall op :: op in condition.fields ==> OperatorYields(rt, op, condition.fields[op], context, r)
    else
      exists op :: op in condition.fields && OperatorYields(rt, op, condition.fields[op], context, r)
  }

  /** Every operator is supported and carries a map of requirements. */
  predicate WellFormed(condition: Json) {
    && condition.Object?
    && forall op :: op in condition.fields ==> op in OPERATORS && condition.fields[op].Object?
  }

  lemma {:induction false} KeysYield(rt: Runtime, operator: string, m: map<string, Json>, context: Context,
                                     order: seq<string>)
    requires forall k :: k in order ==> k in m
    ensures var r := EvaluateKeys(rt, operator, m, context, order);
            if r == Met then forall k :: k in order ==> KeyOutcome(rt, operator, m, context, k) == Met
            else exists k :: k in order && KeyOutcome(rt, operator, m, context, k) == r
  {
    if order == [] {
    } else {
      KeysYield(rt, operator, m, context, order[1..]);
      assert KeyOutcome(rt, operator, m, context, order[0]) == Met ||
             KeyOutcome(rt, operator, m, context, order[0]) == EvaluateKeys(rt, operator, m, context, order);
      assert order == [order[0]] + order[1..];
    }
  }

  lemma {:induction false} OperatorsYield(rt: Runtime, m: map<string, Json>, context: Context, operators: seq<string>,
                                          keys: map<string, seq<string>>)
    requires forall op :: op in operators ==> op in m
    requires ValidInner(m, keys)
    ensures var r := EvaluateOperators(rt, m, context, operators, keys);
            if r == Met then forall op :: op in operators ==> OperatorYields(rt, op, m[op], context, Met)
            else exists op :: op in operators && OperatorYields(rt, op, m[op], context, r)
  {
    if operators == [] {
    } else {
      var op := operators[0];
      OperatorsYield(rt, m, context, operators[1..], keys);
      if m[op].Object? {
        KeysYield(rt, op, m[op].fields, context, keys[op]);
      }
      assert operators == [op] + operators[1..];
    }
  }

  /** An enumeration that starts with a chosen element. */
  lemma FirstInOrder(x: string, s: set<string>) returns (order: seq<string>)
    requires x in s
    ensures Enumerates(order, s) && order != [] && order[0] == x
  {
    order := [x] + AnyOrder(s - {x});
  }

  /** Some order of an operator's keys produces each outcome the entry can have. */
  lemma KeyOrderFor(rt: Runtime, operator: string, m: map<string, Json>, context: Context, r: Outcome)
    returns (order: seq<string>)
    requires OperatorYields(rt, operator, Object(m), context, r)
    ensures Enumerates(order, m.Keys) && EvaluateKeys(rt, operator, m, context, order) == r
  {
    if r == Met {
      order := AnyOrder(m.Keys);
      KeysYield(rt, operator, m, context, order);
    } else {
      var k :| k in m && KeyOutcome(rt, operator, m, context, k) == r;
      order := FirstInOrder(k, m.Keys);
    }
  }

  /** Every outcome of an evaluation is one the condition can have. */
  lemma EvaluateYields(rt: Runtime, condition: Json, context: Context, order: MapOrder)
    requires ValidOrder(condition, order)
    ensures Yields(rt, condition, context, Evaluate(rt, condition, context, order))
  {
    if condition.Object? {
      OperatorsYield(rt, condition.fields, context, order.operators, order.keys);
    }
  }

  /** And each of those outcomes is produced by some pair of iteration orders. */
  lemma OrderFor(rt: Runtime, condition: Json, context: Context, r: Outcome) returns (order: MapOrder)
    requires Yields(rt, condition, context, r)
    ensures ValidOrder(condition, order) && Evaluate(rt, condition, context, order) == r
  {
    if !condition.Object? {
      order := MapOrder([], map[]);
      return;
    }
    var m := condition.fields;
    var keys := map op | op in m && m[op].Object? :: AnyOrder(m[op].fields.Keys);
    if r == Met {
      order := MapOrder(AnyOrder(m.Keys), keys);
      OperatorsYield(rt, m, context, order.operators, order.keys);
      TrueExcludesOthers(rt, condition, context);
    } else {
      var op :| op in m && OperatorYields(rt, op, m[op], context, r);
      var operators := FirstInOrder(op, m.Keys);
      if m[op].Object? {
        var first := KeyOrderFor(rt, op, m[op].fields, context, r);
        keys := keys[op := first];
      }
      order := MapOrder(operators, keys);
    }
  }

  lemma TrueExcludesOthers(rt: Runtime, condition: Json, context: Context)
    requires Yields(rt, condition, context, Met)
    ensures forall r :: Yields(rt, condition, context, r) ==> r == Met
  {
  }

  /** The outcomes over all map orders are exactly those `Yields` describes. */
  lemma OutcomesExactly(rt: Runtime, condition: Json, context: Context, r: Outcome)
    ensures Yields(rt, condition, context, r) <==>
            exists order :: ValidOrder(condition, order) && Evaluate(rt, condition, context, order) == r
  {
    if Yields(rt, condition, context, r) {
      var order := OrderFor(rt, condition, context, r);
    }
    forall order | ValidOrder(condition, order) && Evaluate(rt, condition, context, order) == r
      ensures Yields(rt, condition, context, r)
    {
      EvaluateYields(rt, condition, context, order);
    }
  }

  /** The boolean part never depends on the order: it is true exactly when every listed key
      is present and satisfied. */
  lemma BooleanIgnoresOrder(rt: Runtime, condition: Json, context: Context, order: MapOrder)
    requires ValidOrder(condition, order)
    ensures Evaluate(rt, condition, context, order) == Met <==> Yields(rt, condition, context, Met)
  {
    EvaluateYields(rt, condition, context, order);
    if Yields(rt, condition, context, Met) {
      TrueExcludesOthers(rt, condition, context);
    }
  }

  /** A condition of one operator with one key. */
  function Entry(operator: string, key: string, expected: Json): Json {
    Object(map[operator := Object(map[key := expected])])
  }

  lemma EntryOutcome(rt: Runtime, operator: string, key: string, expected: Json, context: Context, order: MapOrder)
    requires ValidOrder(Entry(operator, key, expected), order)
    ensures Evaluate(rt, Entry(operator, key, expected), context, order) ==
            if key in context then ApplyOperator(rt, operator, expected, context[key]) else Unmet
  {
    var condition, m := Entry(operator, key, expected), map[key := expected];
    var r := Evaluate(rt, condition, context, order);
    EvaluateYields(rt, condition, context, order);
    assert condition.fields[operator] == Object(m) && operator in condition.fields && key in m;
    assert OperatorYields(rt, operator, Object(m), context, r);
    assert KeyOutcome(rt, operator, m, context, key) == r;
  }

  /** What each operator asks, under every map order: the key must be there, and then its shown text
      must be the expected one, other than it, equal to it but for case, in its glob's language, or
      an address the expected network admits; truth values compare as such. Wildcards in the
      expected text mean nothing but to the like. An unknown operator fails. */
  lemma OperatorsMean(rt: Runtime, operator: string, key: string, expected: Json, context: Context, order: MapOrder)
    requires ValidOrder(Entry(operator, key, expected), order)
    ensures var r := Evaluate(rt, Entry(operator, key, expected), context, order);
      if key !in context then r == Unmet
      else
        var actual := context[key];
        var e, a := rt.show(expected), rt.show(actual);
        && (operator == "StringEquals" ==> r == Answer(e == a))
        && (operator == "StringNotEquals" ==> r == Answer(e != a))
        && (operator == "StringEqualsIgnoreCase" ==> r == Answer(rt.equalFold(e, a)))
        && (operator == "StringLike" ==> r == Answer(e == "*" || Glob.InGlob(e, a, Glob.NotNewline)))
        && (operator == "Bool" ==>
              r == Answer(if expected.Boolean? && actual.Boolean? then expected == actual else e == a))
        && (operator == "NumericEquals" ==> r == Answer(e == a))
        && (operator == "IpAddress" ==> r == Answer(rt.ipMatch(e, a)))
        && (r.Failed? <==> operator !in {
              "StringEquals", "StringNotEquals", "StringEqualsIgnoreCase", "StringLike",
              "Bool", "NumericEquals", "IpAddress"})
  {
    EntryOutcome(rt, operator, key, expected, context, order);
    if key in context {
      Glob.MatchWildcardIsGlob(rt.show(expected), rt.show(context[key]));
    }
  }

  /** Equality but for case, as an equivalence that accepts texts of equal lower case. */
  ghost predicate IgnoresCase(rt: Runtime) {
    && (forall x, y :: ToLower(x) == ToLower(y) ==> rt.equalFold(x, y))
    && (forall x, y, z :: rt.equalFold(x, y) && rt.equalFold(y, z) ==> rt.equalFold(x, z))
  }

  /** Then the case of the text in the request never changes the outcome. */
  lemma CaseIsIgnored(rt: Runtime, key: string, expected: Json, context: Context, respelled: Context,
                      o1: MapOrder, o2: MapOrder)
    requires IgnoresCase(rt) && key in context && key in respelled
    requires ToLower(rt.show(context[key])) == ToLower(rt.show(respelled[key]))
    requires ValidOrder(Entry("StringEqualsIgnoreCase", key, expected), o1)
    requires ValidOrder(Entry("StringEqualsIgnoreCase", key, expected), o2)
    ensures Evaluate(rt, Entry("StringEqualsIgnoreCase", key, expected), context, o1) ==
            Evaluate(rt, Entry("StringEqualsIgnoreCase", key, expected), respelled, o2)
    ensures ToLower(rt.show(expected)) == ToLower(rt.show(context[key])) ==>
            Evaluate(rt, Entry("StringEqualsIgnoreCase", key, expected), context, o1) == Met
  {
    OperatorsMean(rt, "StringEqualsIgnoreCase", key, expected, context, o1);
    OperatorsMean(rt, "StringEqualsIgnoreCase", key, expected, respelled, o2);
    assert rt.equalFold(rt.show(context[key]), rt.show(respelled[key]));
    assert rt.equalFold(rt.show(respelled[key]), rt.show(context[key]));
  }

  /** Well-formed conditions have no error, and one outcome whatever the order. */
  lemma WellFormedIgnoresOrder(rt: Runtime, condition: Json, context: Context, o1: MapOrder, o2: MapOrder)
    requires WellFormed(condition) && ValidOrder(condition, o1) && ValidOrder(condition, o2)
    ensures !Evaluate(rt, condition, context, o1).Failed?
    ensures Evaluate(rt, condition, context, o1) == Evaluate(rt, condition, context, o2)
  {
    BooleanIgnoresOrder(rt, condition, context, o1);
    BooleanIgnoresOrder(rt, condition, context, o2);
    WellFormedHasNoError(rt, condition, context, o1);
    WellFormedHasNoError(rt, condition, context, o2);
  }

  lemma WellFormedHasNoError(rt: Runtime, condition: Json, context: Context, order: MapOrder)
    requires WellFormed(condition) && ValidOrder(condition, order)
    ensures !Evaluate(rt, condition, context, order).Failed?
  {
    EvaluateYields(rt, condition, context, order);
  }

  /** Some entry of the condition is simply unmet. */
  ghost predicate HasFalse(rt: Runtime, condition: Json, context: Context) {
    && condition.Object?
    && exists op :: op in condition.fields && condition.fields[op].Object? &&
         exists k :: k in condition.fields[op].fields &&
           KeyOutcome(rt, op, condition.fields[op].fields, context, k) == Unmet
  }

  /** Some entry of the condition is in error: not a map, or an unsupported operator with a
      key the context has. */
  ghost predicate HasError(condition: Json, context: Context) {
    || !condition.Object?
    || exists op :: op in condition.fields &&
         (condition.fields[op].Object? ==>
            op !in OPERATORS && exists k :: k in condition.fields[op].fields && k in context)
  }

  /** Whether evaluation fails depends on the map order exactly when an unmet entry and an
      erroneous entry stand in the same condition. */
  lemma FailureDependsOnOrderIff(rt: Runtime, condition: Json, context: Context)
    ensures HasFalse(rt, condition, context) && HasError(condition, context) <==>
            exists o1, o2 ::
              && ValidOrder(condition, o1) && ValidOrder(condition, o2)
              && Evaluate(rt, condition, context, o1).Failed? && !Evaluate(rt, condition, context, o2).Failed?
  {
    if HasFalse(rt, condition, context) && HasError(condition, context) {
      var bad := ErrorOf(rt, condition, context);
      assert Yields(rt, condition, context, Unmet);
      var o1 := OrderFor(rt, condition, context, Failed(bad));
      var o2 := OrderFor(rt, condition, context, Unmet);
    }
    forall o1, o2 |
      && ValidOrder(condition, o1) && ValidOrder(condition, o2)
      && Evaluate(rt, condition, context, o1).Failed? && !Evaluate(rt, condition, context, o2).Failed?
      ensures HasFalse(rt, condition, context) && HasError(condition, context)
    {
      EvaluateYields(rt, condition, context, o1);
      EvaluateYields(rt, condition, context, o2);
      if Evaluate(rt, condition, context, o2) == Met {
        TrueExcludesOthers(rt, condition, context);
      } else {
        var r := Evaluate(rt, condition, context, o2);
        assert r == Unmet;
        FalseIsUnmet(rt, condition, context);
        ErrorIsErroneous(rt, condition, context, Evaluate(rt, condition, context, o1).error);
      }
    }
  }

  lemma FalseIsUnmet(rt: Runtime, condition: Json, context: Context)
    requires Yields(rt, condition, context, Unmet)
    ensures HasFalse(rt, condition, context)
  {
    var op :| op in condition.fields && OperatorYields(rt, op, condition.fields[op], context, Unmet);
    var m := condition.fields[op].fields;
    var k :| k in m && KeyOutcome(rt, op, m, context, k) == Unmet;
  }

  lemma ErrorIsErroneous(rt: Runtime, condition: Json, context: Context, e: ConditionError)
    requires Yields(rt, condition, context, Failed(e))
    ensures HasError(condition, context)
  {
    if condition.Object? {
      var op :| op in condition.fields && OperatorYields(rt, op, condition.fields[op], context, Failed(e));
      if condition.fields[op].Object? {
        var m := condition.fields[op].fields;
        var k :| k in m && KeyOutcome(rt, op, m, context, k) == Failed(e);
      }
    }
  }

  lemma ErrorOf(rt: Runtime, condition: Json, context: Context) returns (e: ConditionError)
    requires HasError(condition, context)
    ensures Yields(rt, condition, context, Failed(e))
  {
    if !condition.Object? {
      e := NotAMap;
    } else {
      var op :| op in condition.fields &&
         (condition.fields[op].Object? ==>
            op !in OPERATORS && exists k :: k in condition.fields[op].fields && k in context);
      if condition.fields[op].Object? {
        e := UnsupportedOperator(op);
        var k :| k in condition.fields[op].fields && k in context;
        assert KeyOutcome(rt, op, condition.fields[op].fields, context, k) == Failed(e);
      } else {
        e := RequirementsNotAMap;
      }
      assert OperatorYields(rt, op, condition.fields[op], context, Failed(e));
    }
  }
}
