/** Filtering, counting and paging of audit events: `ListAuditEvents` of
    `internal/queries/audit_queries.go`, which renders the set fields of its parameters into a
    WHERE clause with positional arguments. */
module AuditQuery {
  import opened Basics
  import opened Strings
  import opened Sql
  import Paging

  /** Unset texts are empty; unset times are nil. */
  datatype Params = Params(
    organizationId: string, principalId: string, action: string, resourceType: string,
    result: string, severity: string, startTime: Option<int>, endTime: Option<int>,
    limit: int, offset: int)

  /** A stored audit event. Organizations and principals are uuids, kept as the numbers they
      denote; three columns are nullable. */
  datatype AuditEvent = AuditEvent(
    id: string, organizationId: nat, principalId: Option<nat>, action: string,
    resourceType: Option<string>, result: string, severity: Option<string>, timestamp: int)

  /** The labels of the enumeration `result` belongs to. */
  const RESULTS := {"success", "failure", "error"}

  /** The filtered columns of the audit_events table. */
  function AuditSchema(uuid: string -> Option<nat>): Schema {
    Schema(
      map[
        "organization_id" := UuidKind,
        "principal_id" := UuidKind,
        "action" := TextKind,
        "resource_type" := TextKind,
        "result" := EnumKind(RESULTS),
        "severity" := TextKind,
        "timestamp" := TimeKind
      ],
      uuid)
  }

  function NullableText(s: Option<string>): Option<Value> {
    if s.None? then None else Some(Text(s.value))
  }

  function NullableUuid(u: Option<nat>): Option<Value> {
    if u.None? then None else Some(Uuid(u.value))
  }

  /** The event as a row of that table. */
  function AsRow(e: AuditEvent): Row {
    map[
      "organization_id" := Some(Uuid(e.organizationId)),
      "principal_id" := NullableUuid(e.principalId),
      "action" := Some(Text(e.action)),
      "resource_type" := NullableText(e.resourceType),
      "result" := Some(Text(e.result)),
      "severity" := NullableText(e.severity),
      "timestamp" := Some(Time(e.timestamp))
    ]
  }

  /** The parameters the database accepts: it reads the uuids, the result is one of its labels,
      and no text holds the character it cannot store. */
  predicate WellTyped(uuid: string -> Option<nat>, p: Params) {
    && (p.organizationId != "" ==> uuid(p.organizationId).Some?)
    && (p.principalId != "" ==> uuid(p.principalId).Some?)
    && (p.result != "" ==> p.result in RESULTS)
    && '\0' !in p.action && '\0' !in p.resourceType && '\0' !in p.severity
  }

  /** What the parameters ask for, said directly. */
  predicate Wanted(uuid: string -> Option<nat>, p: Params, e: AuditEvent) {
    && (p.organizationId != "" ==> uuid(p.organizationId) == Some(e.organizationId))
    && (p.principalId != "" ==> e.principalId.Some? && uuid(p.principalId) == e.principalId)
    && (p.action != "" ==> e.action == p.action)
    && (p.resourceType != "" ==> e.resourceType == Some(p.resourceType))
    && (p.result != "" ==> e.result == p.result)
    && (p.severity != "" ==> e.severity == Some(p.severity))
    && (p.startTime.Some? ==> e.timestamp >= p.startTime.value)
    && (p.endTime.Some? ==> e.timestamp <= p.endTime.value)
  }

  /** The conditions behind the rendered text. */
  function TextCondition(column: string, value: string): seq<Condition> {
    if value == "" then [] else [Condition(column, "=", Text(value))]
  }

  function TimeCondition(op: string, value: Option<int>): seq<Condition> {
    if value.None? then [] else [Condition("timestamp", op, Time(value.value))]
  }

  function Conditions(p: Params): seq<Condition> {
    TextCondition("organization_id", p.organizationId)
    + TextCondition("principal_id", p.principalId)
    + TextCondition("action", p.action)
    + TextCondition("resource_type", p.resourceType)
    + TextCondition("result", p.result)
    + TextCondition("severity", p.severity)
    + TimeCondition(">=", p.startTime)
    + TimeCondition("<=", p.endTime)
  }

  /** The builder's variables, against the conditions added so far. */
  ghost predicate Built(conditions: seq<Condition>, pieces: seq<string>, args: seq<Value>, argIndex: nat) {
    pieces == Pieces(conditions) && args == Args(conditions) && argIndex == |conditions| + 1
  }

  lemma AddCondition(conditions: seq<Condition>, c: Condition)
    ensures Pieces(conditions + [c]) ==
            Pieces(conditions) + [c.column + " " + c.op + " " + Placeholder(|conditions| + 1)]
    ensures Args(conditions + [c]) == Args(conditions) + [c.value]
  {
    PiecesSnoc(conditions, c);
    ArgsSnoc(conditions, c);
    JoinThree(c.column, c.op, Placeholder(|conditions| + 1));
  }

  lemma EqualsText(column: string, k: nat)
    ensures column + " = $" + Itoa(k) == column + " " + "=" + " " + Placeholder(k)
  {
    assert " = $" == " " + "=" + " " + "$";
  }

  /** One optional text filter of the builder. */
  method AppendText(column: string, value: string, pieces: seq<string>, args: seq<Value>, argIndex: nat,
                    ghost before: seq<Condition>)
    returns (pieces': seq<string>, args': seq<Value>, argIndex': nat)
    requires Built(before, pieces, args, argIndex)
    ensures Built(before + TextCondition(column, value), pieces', args', argIndex')
  {
    pieces', args', argIndex' := pieces, args, argIndex;
    if value != "" {
      AddCondition(before, Condition(column, "=", Text(value)));
      EqualsText(column, argIndex');
      pieces' := pieces' + [column + " = $" + Itoa(argIndex')];
      args' := args' + [Text(value)];
      argIndex' := argIndex' + 1;
    } else {
      assert before + [] == before;
    }
  }

  /** One optional bound on the timestamp. */
  method AppendTime(op: string, value: Option<int>, pieces: seq<string>, args: seq<Value>, argIndex: nat,
                    ghost before: seq<Condition>)
    returns (pieces': seq<string>, args': seq<Value>, argIndex': nat)
    requires Built(before, pieces, args, argIndex)
    ensures Built(before + TimeCondition(op, value), pieces', args', argIndex')
  {
    pieces', args', argIndex' := pieces, args, argIndex;
    if value.Some? {
      AddCondition(before, Condition("timestamp", op, Time(value.value)));
      pieces' := pieces' + ["timestamp" + " " + op + " " + Placeholder(argIndex')];
      args' := args' + [Time(value.value)];
      argIndex' := argIndex' + 1;
    } else {
      assert before + [] == before;
    }
  }

  /** The clause, its arguments and the next free placeholder. */
  method BuildWhere(p: Params) returns (clause: string, args: seq<Value>, argIndex: nat)
    ensures clause == Join(Pieces(Conditions(p)), " AND ")
    ensures args == Args(Conditions(p)) && argIndex == |args| + 1
  {
    var pieces := ["1=1"];
    args, argIndex := [], 1;
    ghost var done: seq<Condition> := [];
    pieces, args, argIndex := AppendText("organization_id", p.organizationId, pieces, args, argIndex, done);
    done := done + TextCondition("organization_id", p.organizationId);
    pieces, args, argIndex := AppendText("principal_id", p.principalId, pieces, args, argIndex, done);
    done := done + TextCondition("principal_id", p.principalId);
    pieces, args, argIndex := AppendText("action", p.action, pieces, args, argIndex, done);
    done := done + TextCondition("action", p.action);
    pieces, args, argIndex := AppendText("resource_type", p.resourceType, pieces, args, argIndex, done);
    done := done + TextCondition("resource_type", p.resourceType);
    pieces, args, argIndex := AppendText("result", p.result, pieces, args, argIndex, done);
    done := done + TextCondition("result", p.result);
    pieces, args, argIndex := AppendText("severity", p.severity, pieces, args, argIndex, done);
    done := done + TextCondition("severity", p.severity);
    pieces, args, argIndex := AppendTime(">=", p.startTime, pieces, args, argIndex, done);
    done := done + TimeCondition(">=", p.startTime);
    pieces, args, argIndex := AppendTime("<=", p.endTime, pieces, args, argIndex, done);
    done := done + TimeCondition("<=", p.endTime);
    assert done == Conditions(p);
    clause := Join(pieces, " AND ");
  }

  /** A property of every condition is one of the conditions of each field. */
  lemma FieldByField(p: Params, good: Condition -> bool)
    ensures (forall c :: c in Conditions(p) ==> good(c)) <==>
      && (p.organizationId != "" ==> good(Condition("organization_id", "=", Text(p.organizationId))))
      && (p.principalId != "" ==> good(Condition("principal_id", "=", Text(p.principalId))))
      && (p.action != "" ==> good(Condition("action", "=", Text(p.action))))
      && (p.resourceType != "" ==> good(Condition("resource_type", "=", Text(p.resourceType))))
      && (p.result != "" ==> good(Condition("result", "=", Text(p.result))))
      && (p.severity != "" ==> good(Condition("severity", "=", Text(p.severity))))
      && (p.startTime.Some? ==> good(Condition("timestamp", ">=", Time(p.startTime.value))))
      && (p.endTime.Some? ==> good(Condition("timestamp", "<=", Time(p.endTime.value))))
  {
    InGroups(p);
    TextAll("organization_id", p.organizationId, good);
    TextAll("principal_id", p.principalId, good);
    TextAll("action", p.action, good);
    TextAll("resource_type", p.resourceType, good);
    TextAll("result", p.result, good);
    TextAll("severity", p.severity, good);
    TimeAll(">=", p.startTime, good);
    TimeAll("<=", p.endTime, good);
  }

  lemma TextAll(column: string, value: string, good: Condition -> bool)
    ensures (forall c :: c in TextCondition(column, value) ==> good(c)) <==>
            (value != "" ==> good(Condition(column, "=", Text(value))))
  {
    var c := Condition(column, "=", Text(value));
    assert value != "" ==> TextCondition(column, value) == [c];
    assert c in [c];
  }

  lemma TimeAll(op: string, value: Option<int>, good: Condition -> bool)
    ensures (forall c :: c in TimeCondition(op, value) ==> good(c)) <==>
            (value.Some? ==> good(Condition("timestamp", op, Time(value.value))))
  {
    if value.Some? {
      var c := Condition("timestamp", op, Time(value.value));
      assert TimeCondition(op, value) == [c] && c in [c];
    }
  }

  lemma InGroups(p: Params)
    ensures forall c :: c in Conditions(p) <==>
      || c in TextCondition("organization_id", p.organizationId)
      || c in TextCondition("principal_id", p.principalId)
      || c in TextCondition("action", p.action)
      || c in TextCondition("resource_type", p.resourceType)
      || c in TextCondition("result", p.result)
      || c in TextCondition("severity", p.severity)
      || c in TimeCondition(">=", p.startTime)
      || c in TimeCondition("<=", p.endTime)
  {
  }

  lemma ColumnsArePlain(v: Value)
    ensures Writable(Condition("organization_id", "=", v)) && Writable(Condition("principal_id", "=", v))
    ensures Writable(Condition("action", "=", v)) && Writable(Condition("resource_type", "=", v))
    ensures Writable(Condition("result", "=", v)) && Writable(Condition("severity", "=", v))
    ensures Writable(Condition("timestamp", ">=", v)) && Writable(Condition("timestamp", "<=", v))
  {
  }

  lemma ColumnsAreWritable(p: Params)
    ensures forall c :: c in Conditions(p) ==> Writable(c)
  {
    FieldByField(p, c => Writable(c));
    ColumnsArePlain(Text(p.organizationId));
    ColumnsArePlain(Text(p.principalId));
    ColumnsArePlain(Text(p.action));
    ColumnsArePlain(Text(p.resourceType));
    ColumnsArePlain(Text(p.result));
    ColumnsArePlain(Text(p.severity));
    ColumnsArePlain(Time(Instant(p.startTime)));
    ColumnsArePlain(Time(Instant(p.endTime)));
  }

  /** What binding makes of a condition on a uuid, a text and the enumerated column. */
  function BoundUuid(uuid: string -> Option<nat>, column: string, s: string): Option<Condition> {
    if uuid(s).None? then None else Some(Condition(column, "=", Uuid(uuid(s).value)))
  }

  function BoundText(column: string, s: string): Option<Condition> {
    if '\0' in s then None else Some(Condition(column, "=", Text(s)))
  }

  function BoundResult(s: string): Option<Condition> {
    if s in RESULTS then Some(Condition("result", "=", Text(s))) else None
  }

  lemma BindColumns(uuid: string -> Option<nat>, s: string, t: int)
    ensures var schema := AuditSchema(uuid);
      && Bind(schema, Condition("organization_id", "=", Text(s))) == BoundUuid(uuid, "organization_id", s)
      && Bind(schema, Condition("principal_id", "=", Text(s))) == BoundUuid(uuid, "principal_id", s)
      && Bind(schema, Condition("action", "=", Text(s))) == BoundText("action", s)
      && Bind(schema, Condition("resource_type", "=", Text(s))) == BoundText("resource_type", s)
      && Bind(schema, Condition("result", "=", Text(s))) == BoundResult(s)
      && Bind(schema, Condition("severity", "=", Text(s))) == BoundText("severity", s)
      && Bind(schema, Condition("timestamp", ">=", Time(t))) == Some(Condition("timestamp", ">=", Time(t)))
      && Bind(schema, Condition("timestamp", "<=", Time(t))) == Some(Condition("timestamp", "<=", Time(t)))
  {
  }

  /** The bound conditions on the columns of an event. */
  lemma RowHolds(e: AuditEvent, v: Value)
    ensures var row := AsRow(e);
      && (Holds(Condition("organization_id", "=", v), row) <==> v == Uuid(e.organizationId))
      && (Holds(Condition("principal_id", "=", v), row) <==> NullableUuid(e.principalId) == Some(v))
      && (Holds(Condition("action", "=", v), row) <==> v == Text(e.action))
      && (Holds(Condition("resource_type", "=", v), row) <==> NullableText(e.resourceType) == Some(v))
      && (Holds(Condition("result", "=", v), row) <==> v == Text(e.result))
      && (Holds(Condition("severity", "=", v), row) <==> NullableText(e.severity) == Some(v))
      && (v.Time? ==> (Holds(Condition("timestamp", ">=", v), row) <==> e.timestamp >= v.t))
      && (v.Time? ==> (Holds(Condition("timestamp", "<=", v), row) <==> e.timestamp <= v.t))
  {
  }

  /** Binding and holding, for one text or instant on each column. */
  lemma ColumnsHold(uuid: string -> Option<nat>, e: AuditEvent, s: string, t: int)
    ensures var schema, row := AuditSchema(uuid), AsRow(e);
      && (HoldsBound(schema, Condition("organization_id", "=", Text(s)), row) <==> uuid(s) == Some(e.organizationId))
      && (HoldsBound(schema, Condition("principal_id", "=", Text(s)), row) <==>
            e.principalId.Some? && uuid(s) == e.principalId)
      && (HoldsBound(schema, Condition("action", "=", Text(s)), row) <==> '\0' !in s && e.action == s)
      && (HoldsBound(schema, Condition("resource_type", "=", Text(s)), row) <==>
            '\0' !in s && e.resourceType == Some(s))
      && (HoldsBound(schema, Condition("result", "=", Text(s)), row) <==> s in RESULTS && e.result == s)
      && (HoldsBound(schema, Condition("severity", "=", Text(s)), row) <==> '\0' !in s && e.severity == Some(s))
      && (HoldsBound(schema, Condition("timestamp", ">=", Time(t)), row) <==> e.timestamp >= t)
      && (HoldsBound(schema, Condition("timestamp", "<=", Time(t)), row) <==> e.timestamp <= t)
  {
    BindColumns(uuid, s, t);
    RowHolds(e, Text(s));
    RowHolds(e, Time(t));
    if uuid(s).Some? {
      RowHolds(e, Uuid(uuid(s).value));
    }
  }

  function Instant(t: Option<int>): int { if t.Some? then t.value else 0 }

  /** Whether a text or instant can be bound on each column. */
  lemma ColumnsBind(uuid: string -> Option<nat>, s: string, t: int)
    ensures var schema := AuditSchema(uuid);
      && (Bind(schema, Condition("organization_id", "=", Text(s))).Some? <==> uuid(s).Some?)
      && (Bind(schema, Condition("principal_id", "=", Text(s))).Some? <==> uuid(s).Some?)
      && (Bind(schema, Condition("action", "=", Text(s))).Some? <==> '\0' !in s)
      && (Bind(schema, Condition("resource_type", "=", Text(s))).Some? <==> '\0' !in s)
      && (Bind(schema, Condition("result", "=", Text(s))).Some? <==> s in RESULTS)
      && (Bind(schema, Condition("severity", "=", Text(s))).Some? <==> '\0' !in s)
      && Bind(schema, Condition("timestamp", ">=", Time(t))).Some?
      && Bind(schema, Condition("timestamp", "<=", Time(t))).Some?
  {
    BindColumns(uuid, s, t);
  }

  lemma BindsIff(uuid: string -> Option<nat>, p: Params)
    ensures (forall c :: c in Conditions(p) ==> Bind(AuditSchema(uuid), c).Some?) <==> WellTyped(uuid, p)
  {
    FieldByField(p, c => Bind(AuditSchema(uuid), c).Some?);
    ColumnsBind(uuid, p.organizationId, 0);
    ColumnsBind(uuid, p.principalId, 0);
    ColumnsBind(uuid, p.action, 0);
    ColumnsBind(uuid, p.resourceType, 0);
    ColumnsBind(uuid, p.result, Instant(p.startTime));
    ColumnsBind(uuid, p.severity, Instant(p.endTime));
  }

  lemma HoldsIff(uuid: string -> Option<nat>, p: Params, e: AuditEvent)
    requires WellTyped(uuid, p)
    ensures (forall c :: c in Conditions(p) ==> HoldsBound(AuditSchema(uuid), c, AsRow(e))) <==> Wanted(uuid, p, e)
  {
    FieldByField(p, c => HoldsBound(AuditSchema(uuid), c, AsRow(e)));
    ColumnsHold(uuid, e, p.organizationId, 0);
    ColumnsHold(uuid, e, p.principalId, 0);
    ColumnsHold(uuid, e, p.action, 0);
    ColumnsHold(uuid, e, p.resourceType, 0);
    ColumnsHold(uuid, e, p.result, Instant(p.startTime));
    ColumnsHold(uuid, e, p.severity, Instant(p.endTime));
  }

  /** For every combination of set fields the rendered clause, read as SQL with its positional
      arguments and whatever follows them, is accepted exactly for well-typed parameters, and
      then selects exactly the wanted events. */
  lemma RenderedClauseMeansFilter(uuid: string -> Option<nat>, p: Params, further: seq<Value>)
    ensures
      var bound := Where(AuditSchema(uuid), Join(Pieces(Conditions(p)), " AND "), Args(Conditions(p)) + further);
      && (bound.Some? <==> WellTyped(uuid, p))
      && (bound.Some? ==> forall e :: AllHold(bound.value, AsRow(e)) <==> Wanted(uuid, p, e))
  {
    var schema := AuditSchema(uuid);
    ColumnsAreWritable(p);
    ClauseMeansConditions(schema, Conditions(p), Args(Conditions(p)) + further);
    BindAllMeans(schema, Conditions(p));
    BindsIff(uuid, p);
    if WellTyped(uuid, p) {
      forall e ensures AllHold(BindAll(schema, Conditions(p)).value, AsRow(e)) <==> Wanted(uuid, p, e) {
        HoldsIff(uuid, p, e);
      }
    }
  }

  function WantedEvents(uuid: string -> Option<nat>, p: Params, table: seq<AuditEvent>): seq<AuditEvent> {
    if table == [] then []
    else (if Wanted(uuid, p, table[0]) then [table[0]] else []) + WantedEvents(uuid, p, table[1..])
  }

  /** The labels are three, and each test of the parameters matters on its own. */
  lemma WellTypedOnFields(uuid: string -> Option<nat>, p: Params)
    ensures WellTyped(uuid, p) <==>
      && (p.organizationId == "" || uuid(p.organizationId).Some?)
      && (p.principalId == "" || uuid(p.principalId).Some?)
      && (p.result == "" || p.result == "success" || p.result == "failure" || p.result == "error")
      && '\0' !in p.action && '\0' !in p.resourceType && '\0' !in p.severity
  {
  }

  /** The rows `good` accepts, in order. */
  ghost function RowsWhere(table: seq<AuditEvent>, good: AuditEvent -> bool): seq<AuditEvent> {
    if table == [] then [] else (if good(table[0]) then [table[0]] else []) + RowsWhere(table[1..], good)
  }

  /** The wanted events are the rows that match each set field, and every unset field is ignored. */
  lemma {:induction false} WantedOnFields(uuid: string -> Option<nat>, p: Params, table: seq<AuditEvent>,
                                          good: AuditEvent -> bool)
    requires forall e :: good(e) <==>
      && (p.organizationId == "" || uuid(p.organizationId) == Some(e.organizationId))
      && (p.principalId == "" || (e.principalId.Some? && uuid(p.principalId) == e.principalId))
      && (p.action == "" || e.action == p.action)
      && (p.resourceType == "" || e.resourceType == Some(p.resourceType))
      && (p.result == "" || e.result == p.result)
      && (p.severity == "" || e.severity == Some(p.severity))
      && (p.startTime.None? || p.startTime.value <= e.timestamp)
      && (p.endTime.None? || e.timestamp <= p.endTime.value)
    ensures WantedEvents(uuid, p, table) == RowsWhere(table, good)
  {
    if table == [] {
    } else {
      WantedOnFields(uuid, p, table[1..], good);
    }
  }

  /** The rows that satisfy the bound conditions. */
  function Filter(table: seq<AuditEvent>, conditions: seq<Condition>): seq<AuditEvent> {
    if table == [] then []
    else (if AllHold(conditions, AsRow(table[0])) then [table[0]] else []) + Filter(table[1..], conditions)
  }

  /** What the database selects for a clause; None is an SQL error, whatever the table holds. */
  function Select(schema: Schema, table: seq<AuditEvent>, clause: string, args: seq<Value>): Option<seq<AuditEvent>> {
    match Where(schema, clause, args)
    case None => None
    case Some(conditions) => Some(Filter(table, conditions))
  }

  lemma {:induction false} FilterIsWanted(uuid: string -> Option<nat>, p: Params, table: seq<AuditEvent>,
                                          conditions: seq<Condition>)
    requires forall e :: AllHold(conditions, AsRow(e)) <==> Wanted(uuid, p, e)
    ensures Filter(table, conditions) == WantedEvents(uuid, p, table)
  {
    if table == [] {
    } else {
      FilterIsWanted(uuid, p, table[1..], conditions);
    }
  }

  lemma SelectIsWanted(uuid: string -> Option<nat>, p: Params, table: seq<AuditEvent>, further: seq<Value>)
    ensures Select(AuditSchema(uuid), table, Join(Pieces(Conditions(p)), " AND "), Args(Conditions(p)) + further) ==
            if WellTyped(uuid, p) then Some(WantedEvents(uuid, p, table)) else None
  {
    var bound := Where(AuditSchema(uuid), Join(Pieces(Conditions(p)), " AND "), Args(Conditions(p)) + further);
    RenderedClauseMeansFilter(uuid, p, further);
    if WellTyped(uuid, p) {
      FilterIsWanted(uuid, p, table, bound.value);
    }
  }

  lemma TailText(p: string, q: string)
    ensures Join(["LIMIT", p, "OFFSET", q], " ") == "LIMIT " + p + " OFFSET " + q
  {
    var tokens := ["LIMIT", p, "OFFSET", q];
    assert tokens[1..] == [p, "OFFSET", q];
    JoinThree(p, "OFFSET", q);
    assert Join(tokens, " ") == "LIMIT" + " " + (p + " " + "OFFSET" + " " + q);
    assert "LIMIT " == "LIMIT" + " " && " OFFSET " == " " + "OFFSET" + " ";
  }

  /** LIMIT and OFFSET name the last two arguments. */
  lemma TailMeansLimitOffset(args: seq<Value>, limit: int, offset: int)
    ensures LimitOffset("LIMIT " + Placeholder(|args| + 1) + " OFFSET " + Placeholder(|args| + 2),
                        args + [Number(limit), Number(offset)]) == Some((limit, offset))
  {
    var all := args + [Number(limit), Number(offset)];
    var p, q := Placeholder(|args| + 1), Placeholder(|args| + 2);
    var tokens := ["LIMIT", p, "OFFSET", q];
    TailText(p, q);
    PlaceholderHasNoSpace(|args| + 1);
    PlaceholderHasNoSpace(|args| + 2);
    assert ' ' !in "LIMIT" && ' ' !in "OFFSET";
    SplitOfJoin(tokens, ' ');
    PlaceholderMeans(|args| + 1, all);
    PlaceholderMeans(|args| + 2, all);
  }

  /** One way ORDER BY timestamp DESC may arrange the selected rows; ties fall in any order. */
  ghost predicate NewestFirst(order: seq<AuditEvent> -> seq<AuditEvent>) {
    forall s :: multiset(order(s)) == multiset(s) &&
      forall i, j :: 0 <= i < j < |order(s)| ==> order(s)[i].timestamp >= order(s)[j].timestamp
  }

  /** The page asked for, before its rows are scanned. */
  function WantedPage(uuid: string -> Option<nat>, p: Params, table: seq<AuditEvent>,
                      order: seq<AuditEvent> -> seq<AuditEvent>): seq<AuditEvent>
  {
    var limit := if p.limit <= 0 then 50 else p.limit;
    var offset := if p.offset < 0 then 0 else p.offset;
    Paging.Page(order(WantedEvents(uuid, p, table)), offset, limit)
  }

  /** Row `k` of the page: a limit below 1 counts as 50, an offset below 0 as 0. */
  lemma PageOnFields(uuid: string -> Option<nat>, p: Params, table: seq<AuditEvent>,
                     order: seq<AuditEvent> -> seq<AuditEvent>, k: nat)
    ensures
      var page, sorted := WantedPage(uuid, p, table, order), order(WantedEvents(uuid, p, table));
      var limit := if p.limit >= 1 then p.limit else 50;
      var offset := if p.offset >= 0 then p.offset else 0;
      && (k < |page| <==> k < limit && offset + k < |sorted|)
      && (k < |page| ==> page[k] == sorted[offset + k])
  {
  }

  datatype Listing = Failed | Listed(events: seq<AuditEvent>, total: nat)

  /** Scanning the page: a NULL severity does not fit the field it is read into. */
  method ScanRows(rows: seq<AuditEvent>) returns (events: seq<AuditEvent>, ok: bool)
    ensures ok <==> forall e :: e in rows ==> e.severity.Some?
    ensures ok ==> events == rows
  {
    events := [];
    for i := 0 to |rows|
      invariant events == rows[..i]
      invariant forall e :: e in rows[..i] ==> e.severity.Some?
    {
      assert rows[..i + 1] == rows[..i] + [rows[i]];
      if rows[i].severity.None? {
        assert rows[i] in rows;
        return events, false;
      }
      events := events + [rows[i]];
    }
    assert rows[..|rows|] == rows;
    ok := true;
  }

  /** ListAuditEvents. It fails exactly when a set organization or principal is not a uuid, a set
      result is not a label, a text holds the unstorable character, or the page holds an event
      without severity. Otherwise the total counts the wanted events, and the page is the clamped
      slice of their ordered list. */
  method ListAuditEvents(uuid: string -> Option<nat>, params: Params, table: seq<AuditEvent>,
                         order: seq<AuditEvent> -> seq<AuditEvent>)
    returns (r: Listing)
    requires NewestFirst(order)
    ensures r.Failed? <==>
      !WellTyped(uuid, params) || exists e :: e in WantedPage(uuid, params, table, order) && e.severity.None?
    ensures r.Listed? ==>
      r.total == |WantedEvents(uuid, params, table)| && r.events == WantedPage(uuid, params, table, order)
  {
    var schema := AuditSchema(uuid);
    var clause, args, argIndex := BuildWhere(params);
    SelectIsWanted(uuid, params, table, []);
    assert Args(Conditions(params)) + [] == args;
    var counted := Select(schema, table, clause, args);
    if counted.None? {
      return Failed;
    }
    var limit := if params.limit <= 0 then 50 else params.limit;
    var offset := if params.offset < 0 then 0 else params.offset;
    var tail := "LIMIT " + Placeholder(argIndex) + " OFFSET " + Placeholder(argIndex + 1);
    TailMeansLimitOffset(args, limit, offset);
    SelectIsWanted(uuid, params, table, [Number(limit), Number(offset)]);
    args := args + [Number(limit), Number(offset)];
    var selected := Select(schema, table, clause, args);
    var window := LimitOffset(tail, args);
    if selected.None? || window.None? {
      return Failed;
    }
    var rows := Paging.Page(order(selected.value), window.value.1, window.value.0);
    var events, ok := ScanRows(rows);
    if !ok {
      return Failed;
    }
    return Listed(events, |counted.value|);
  }
}
