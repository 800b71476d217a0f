/** The compliance report of `internal/queries/audit_queries.go`: a GROUP BY query folded into
    counters and a category map. */
module Compliance {
  import opened Basics

  /** The columns of an audit event the report counts by. The severity may be NULL. */
  datatype Event = Event(result: string, severity: Option<string>, action: string)

  /** A row of the grouped query. */
  datatype Group = Group(result: string, severity: Option<string>, count: nat)

  datatype Key = Key(result: string, severity: Option<string>)

  function KeyOf(e: Event): Key { Key(e.result, e.severity) }

  function GroupKey(g: Group): Key { Key(g.result, g.severity) }

  /** The WHERE clause of the grouped query. */
  predicate IsSecurityEvent(e: Event) {
    || e.result == "failure"
    || e.severity in {Some("HIGH"), Some("CRITICAL")}
    || e.action in {"failed_login", "unauthorized_access", "privilege_escalation"}
  }

  function SecurityEvents(events: seq<Event>): (r: seq<Event>)
    ensures |r| <= |events|
    ensures forall e :: e in r <==> e in events && IsSecurityEvent(e)
  {
    if events == [] then []
    else
      assert events == [events[0]] + events[1..];
      (if IsSecurityEvent(events[0]) then [events[0]] else []) + SecurityEvents(events[1..])
  }

  /** The keys of the category map: "policy", "critical", "high_risk" and "general". */
  datatype Category = PolicyViolation | CriticalSeverity | HighRisk | General

  /** The category a group row is counted under. */
  function CategoryOf(k: Key): Category {
    if k.result == "failure" then PolicyViolation
    else if k.severity == Some("CRITICAL") then CriticalSeverity
    else if k.severity == Some("HIGH") then HighRisk
    else General
  }

  /** Which keys a count is about. */
  datatype Selection = Any | Exactly(key: Key) | Critical | High | Failure | InCategory(category: Category)

  predicate Picks(p: Selection, k: Key) {
    match p
    case Any => true
    case Exactly(key) => k == key
    case Critical => k.severity == Some("CRITICAL")
    case High => k.severity == Some("HIGH")
    case Failure => k.result == "failure"
    case InCategory(c) => CategoryOf(k) == c
  }

  /** How many events have a key that `p` picks. */
  function Count(events: seq<Event>, p: Selection): nat {
    if events == [] then 0 else (if Picks(p, KeyOf(events[0])) then 1 else 0) + Count(events[1..], p)
  }

  /** GROUP BY result, severity: one row for each key that occurs, in any order, with its count. */
  ghost predicate GroupsOf(groups: seq<Group>, events: seq<Event>) {
    && (forall i, j :: 0 <= i < j < |groups| ==> GroupKey(groups[i]) != GroupKey(groups[j]))
    && (forall g :: g in groups ==> g.count == Count(events, Exactly(GroupKey(g))) > 0)
    && (forall e :: e in events ==> exists g :: g in groups && GroupKey(g) == KeyOf(e))
  }

  /** The counts of the rows whose key `p` picks. */
  function Sum(groups: seq<Group>, p: Selection): nat {
    if groups == [] then 0
    else
      var last := groups[|groups| - 1];
      Sum(groups[..|groups| - 1], p) + if Picks(p, GroupKey(last)) then last.count else 0
  }

  function Get(m: map<Category, nat>, c: Category): nat { if c in m then m[c] else 0 }

  datatype Summary = Summary(
    totalChecks: int, passedChecks: int, failedChecks: int,
    criticalViolations: nat, highRiskEvents: nat, policyViolations: nat,
    violationsByCategory: map<Category, nat>)

  lemma SumSnoc(groups: seq<Group>, i: nat, p: Selection)
    requires i < |groups|
    ensures Sum(groups[..i + 1], p) ==
            Sum(groups[..i], p) + if Picks(p, GroupKey(groups[i])) then groups[i].count else 0
  {
    assert groups[..i + 1][..i] == groups[..i];
  }

  /** Counting one more row under its category. */
  lemma CategoryStep(m: map<Category, nat>, groups: seq<Group>, i: nat, category: Category)
    requires i < |groups| && category == CategoryOf(GroupKey(groups[i]))
    requires forall c :: Get(m, c) == Sum(groups[..i], InCategory(c))
    ensures forall c ::
      Get(m[category := Get(m, category) + groups[i].count], c) == Sum(groups[..i + 1], InCategory(c))
  {
    forall c
      ensures Get(m[category := Get(m, category) + groups[i].count], c) == Sum(groups[..i + 1], InCategory(c))
    {
      SumSnoc(groups, i, InCategory(c));
    }
  }

  /** The counters are sums over the group rows. */
  ghost predicate Tallied(s: Summary, groups: seq<Group>, totalEvents: nat) {
    && s.totalChecks == totalEvents && s.failedChecks == Sum(groups, Any)
    && s.passedChecks == totalEvents - s.failedChecks
    && s.criticalViolations == Sum(groups, Critical)
    && s.highRiskEvents == Sum(groups, High)
    && s.policyViolations == Sum(groups, Failure)
    && forall c :: Get(s.violationsByCategory, c) == Sum(groups, InCategory(c))
  }

  /** The report's counters, from the group rows and the number of all events; None if a row does
      not scan: a NULL severity does not fit the field it is read into. */
  method Summarize(groups: seq<Group>, totalEvents: nat) returns (r: Option<Summary>)
    ensures r.None? <==> exists g :: g in groups && g.severity.None?
    ensures r.Some? ==> Tallied(r.value, groups, totalEvents)
  {
    var critical, high, policy, total := 0, 0, 0, 0;
    var byCategory: map<Category, nat> := map[];
    for i := 0 to |groups|
      invariant forall g :: g in groups[..i] ==> g.severity.Some?
      invariant total == Sum(groups[..i], Any)
      invariant critical == Sum(groups[..i], Critical)
      invariant high == Sum(groups[..i], High)
      invariant policy == Sum(groups[..i], Failure)
      invariant forall c :: Get(byCategory, c) == Sum(groups[..i], InCategory(c))
    {
      var g := groups[i];
      assert groups[..i + 1] == groups[..i] + [g];
      if g.severity.None? {
        assert g in groups;
        return None;
      }
      SumSnoc(groups, i, Any);
      SumSnoc(groups, i, Critical);
      SumSnoc(groups, i, High);
      SumSnoc(groups, i, Failure);
      var category := General;
      if g.severity.value == "CRITICAL" {
        critical := critical + g.count;
        category := CriticalSeverity;
      } else if g.severity.value == "HIGH" {
        high := high + g.count;
        category := HighRisk;
      }
      if g.result == "failure" {
        policy := policy + g.count;
        category := PolicyViolation;
      }
      CategoryStep(byCategory, groups, i, category);
      byCategory := byCategory[category := Get(byCategory, category) + g.count];
      total := total + g.count;
    }
    assert groups[..|groups|] == groups;
    r := Some(Summary(totalEvents, totalEvents - total, total, critical, high, policy, byCategory));
  }

  // ---- conservation -----------------------------------------------------------------------

  /** What the rows would sum to if each were recounted on `events`. */
  function Recount(groups: seq<Group>, events: seq<Event>, p: Selection): nat {
    if groups == [] then 0
    else
      var last := groups[|groups| - 1];
      Recount(groups[..|groups| - 1], events, p) +
        if Picks(p, GroupKey(last)) then Count(events, Exactly(GroupKey(last))) else 0
  }

  lemma {:induction false} RecountEmpty(groups: seq<Group>, p: Selection)
    ensures Recount(groups, [], p) == 0
    decreases |groups|
  {
    if groups == [] {
    } else {
      RecountEmpty(groups[..|groups| - 1], p);
    }
  }

  predicate HasKey(groups: seq<Group>, k: Key) {
    exists i :: 0 <= i < |groups| && GroupKey(groups[i]) == k
  }

  /** One more event is counted once, by the one row with its key. */
  lemma {:induction false} RecountOneMore(groups: seq<Group>, e: Event, events: seq<Event>, p: Selection)
    requires forall i, j :: 0 <= i < j < |groups| ==> GroupKey(groups[i]) != GroupKey(groups[j])
    ensures Recount(groups, [e] + events, p) ==
            Recount(groups, events, p) + if HasKey(groups, KeyOf(e)) && Picks(p, KeyOf(e)) then 1 else 0
    decreases |groups|
  {
    if groups == [] {
    } else {
      var n := |groups|;
      var shorter, last := groups[..n - 1], groups[n - 1];
      RecountOneMore(shorter, e, events, p);
      assert ([e] + events)[1..] == events;
      assert HasKey(groups, KeyOf(e)) <==> HasKey(shorter, KeyOf(e)) || GroupKey(last) == KeyOf(e) by {
        if HasKey(shorter, KeyOf(e)) {
          var i :| 0 <= i < n - 1 && GroupKey(shorter[i]) == KeyOf(e);
          assert groups[i] == shorter[i];
        }
        if HasKey(groups, KeyOf(e)) {
          var i :| 0 <= i < n && GroupKey(groups[i]) == KeyOf(e);
          assert i < n - 1 ==> shorter[i] == groups[i];
        }
      }
      if GroupKey(last) == KeyOf(e) {
        assert forall i :: 0 <= i < n - 1 ==> GroupKey(shorter[i]) != KeyOf(e);
      }
    }
  }

  lemma {:induction false} RecountIsCount(groups: seq<Group>, events: seq<Event>, p: Selection)
    requires forall i, j :: 0 <= i < j < |groups| ==> GroupKey(groups[i]) != GroupKey(groups[j])
    requires forall e :: e in events ==> HasKey(groups, KeyOf(e))
    ensures Recount(groups, events, p) == Count(events, p)
    decreases |events|
  {
    if events == [] {
      RecountEmpty(groups, p);
    } else {
      RecountIsCount(groups, events[1..], p);
      RecountOneMore(groups, events[0], events[1..], p);
      assert events == [events[0]] + events[1..];
    }
  }

  lemma {:induction false} SumIsRecount(groups: seq<Group>, events: seq<Event>, p: Selection)
    requires forall g :: g in groups ==> g.count == Count(events, Exactly(GroupKey(g)))
    ensures Sum(groups, p) == Recount(groups, events, p)
    decreases |groups|
  {
    if groups == [] {
    } else {
      SumIsRecount(groups[..|groups| - 1], events, p);
    }
  }

  /** The group rows partition the events: any sum over rows counts events, each once. */
  lemma SumCountsEvents(groups: seq<Group>, events: seq<Event>, p: Selection)
    requires GroupsOf(groups, events)
    ensures Sum(groups, p) == Count(events, p)
  {
    SumIsRecount(groups, events, p);
    forall e | e in events ensures HasKey(groups, KeyOf(e)) {
      var g :| g in groups && GroupKey(g) == KeyOf(e);
      var i :| 0 <= i < |groups| && groups[i] == g;
    }
    RecountIsCount(groups, events, p);
  }

  lemma {:induction false} CountBounds(events: seq<Event>)
    ensures Count(events, Any) == |events|
    ensures Count(events, Critical) + Count(events, High) <= |events|
    ensures Count(events, Failure) == Count(events, InCategory(PolicyViolation))
    ensures Count(events, InCategory(PolicyViolation)) + Count(events, InCategory(CriticalSeverity)) +
            Count(events, InCategory(HighRisk)) + Count(events, InCategory(General)) == |events|
  {
    if events == [] {
    } else {
      CountBounds(events[1..]);
    }
  }

  /** What the report promises of its counters, `total` being the number of checks. */
  ghost predicate CountersRight(s: Summary, security: seq<Event>, total: nat) {
    && s.totalChecks == total && s.failedChecks == |security|
    && s.passedChecks + s.failedChecks == s.totalChecks && s.passedChecks >= 0
    && s.criticalViolations == Count(security, Critical)
    && s.highRiskEvents == Count(security, High)
    && s.criticalViolations + s.highRiskEvents <= s.failedChecks
    && s.policyViolations == Count(security, Failure)
  }

  /** And of its category map: the four categories partition the security events. */
  ghost predicate CategoriesRight(s: Summary, security: seq<Event>) {
    var m := s.violationsByCategory;
    && s.policyViolations == Get(m, PolicyViolation)
    && s.failedChecks == Get(m, PolicyViolation) + Get(m, CriticalSeverity) + Get(m, HighRisk) + Get(m, General)
    && forall c :: Get(m, c) == Count(security, InCategory(c))
  }

  lemma TallyCounts(s: Summary, groups: seq<Group>, security: seq<Event>, total: nat)
    requires Tallied(s, groups, total) && GroupsOf(groups, security) && |security| <= total
    ensures CountersRight(s, security, total)
  {
    SumCountsEvents(groups, security, Any);
    SumCountsEvents(groups, security, Critical);
    SumCountsEvents(groups, security, High);
    SumCountsEvents(groups, security, Failure);
    CountBounds(security);
  }

  lemma TallyCategories(s: Summary, groups: seq<Group>, security: seq<Event>, total: nat)
    requires Tallied(s, groups, total) && GroupsOf(groups, security)
    ensures CategoriesRight(s, security)
  {
    CategorySums(groups, security);
    SumCountsEvents(groups, security, Any);
    SumCountsEvents(groups, security, Failure);
    CountBounds(security);
    MapPartitions(s.violationsByCategory, security);
  }

  lemma MapPartitions(m: map<Category, nat>, security: seq<Event>)
    requires forall c :: Get(m, c) == Count(security, InCategory(c))
    ensures Get(m, PolicyViolation) == Count(security, Failure)
    ensures |security| == Get(m, PolicyViolation) + Get(m, CriticalSeverity) + Get(m, HighRisk) + Get(m, General)
  {
    CountBounds(security);
    assert Get(m, PolicyViolation) == Count(security, InCategory(PolicyViolation));
    assert Get(m, CriticalSeverity) == Count(security, InCategory(CriticalSeverity));
    assert Get(m, HighRisk) == Count(security, InCategory(HighRisk));
    assert Get(m, General) == Count(security, InCategory(General));
  }

  lemma CategorySums(groups: seq<Group>, security: seq<Event>)
    requires GroupsOf(groups, security)
    ensures forall c :: Sum(groups, InCategory(c)) == Count(security, InCategory(c))
  {
    forall c ensures Sum(groups, InCategory(c)) == Count(security, InCategory(c)) {
      SumCountsEvents(groups, security, InCategory(c));
    }
  }

  /** Passed checks in percent; zero when there is nothing to check. */
  method ComplianceScore(passed: nat, total: nat) returns (score: real)
    requires passed <= total
    ensures score * total as real == passed as real * 100.0
    ensures 0.0 <= score <= 100.0
    ensures score == 100.0 <==> passed == total > 0
  {
    if total == 0 {
      return 0.0;
    }
    var q := passed as real / total as real;
    assert q * total as real == passed as real;
    assert 0.0 <= q <= 1.0;
    score := q * 100.0;
  }

  datatype ComplianceReport = Failed | Generated(summary: Summary, score: real)

  /** A row without severity stands for events without severity. */
  lemma NullGroupIff(groups: seq<Group>, events: seq<Event>)
    requires GroupsOf(groups, events)
    ensures (exists g :: g in groups && g.severity.None?) <==> exists e :: e in events && e.severity.None?
  {
    if g :| g in groups && g.severity.None? {
      CountedIsThere(events, GroupKey(g));
    }
    if e :| e in events && e.severity.None? {
      var g :| g in groups && GroupKey(g) == KeyOf(e);
    }
  }

  lemma {:induction false} CountedIsThere(events: seq<Event>, k: Key)
    requires Count(events, Exactly(k)) > 0
    ensures exists e :: e in events && KeyOf(e) == k
  {
    if KeyOf(events[0]) == k {
    } else {
      CountedIsThere(events[1..], k);
    }
  }

  /** A row of the audit_events table; the organization is a uuid, kept as the number it denotes. */
  datatype Stored = Stored(organizationId: nat, timestamp: int, event: Event)

  /** The report's parameters, the period's defaults filled in; no organization is the empty text. */
  datatype Params = Params(organizationId: string, startTime: int, endTime: int)

  /** The database accepts the organization: unset, or the text of a uuid. */
  predicate Accepted(uuid: string -> Option<nat>, p: Params) {
    p.organizationId != "" ==> uuid(p.organizationId).Some?
  }

  /** The base conditions of both queries. */
  predicate InScope(uuid: string -> Option<nat>, p: Params, row: Stored) {
    && p.startTime <= row.timestamp <= p.endTime
    && (p.organizationId != "" ==> uuid(p.organizationId) == Some(row.organizationId))
  }

  function Scope(uuid: string -> Option<nat>, p: Params, table: seq<Stored>): (r: seq<Event>)
    ensures forall e :: e in r <==> exists row :: row in table && InScope(uuid, p, row) && row.event == e
  {
    if table == [] then []
    else
      assert table == [table[0]] + table[1..];
      (if InScope(uuid, p, table[0]) then [table[0].event] else []) + Scope(uuid, p, table[1..])
  }

  /** The row is one of those the grouped query counts. */
  predicate IsCounted(uuid: string -> Option<nat>, p: Params, row: Stored) {
    InScope(uuid, p, row) && IsSecurityEvent(row.event)
  }

  /** The row is counted, under this selection. */
  predicate Hits(uuid: string -> Option<nat>, p: Params, row: Stored, what: Selection) {
    IsCounted(uuid, p, row) && Picks(what, KeyOf(row.event))
  }

  lemma CountStep(uuid: string -> Option<nat>, p: Params, row: Stored, rest: seq<Stored>, what: Selection)
    ensures Count(SecurityEvents(Scope(uuid, p, [row] + rest)), what) ==
            Count(SecurityEvents(Scope(uuid, p, rest)), what) + if Hits(uuid, p, row, what) then 1 else 0
  {
    var events := Scope(uuid, p, rest);
    assert ([row] + rest)[1..] == rest;
    if InScope(uuid, p, row) {
      assert Scope(uuid, p, [row] + rest) == [row.event] + events;
      SecurityStep(row.event, events, what);
    } else {
      assert Scope(uuid, p, [row] + rest) == events;
    }
  }

  lemma SecurityStep(e: Event, events: seq<Event>, what: Selection)
    ensures Count(SecurityEvents([e] + events), what) ==
            Count(SecurityEvents(events), what) + if IsSecurityEvent(e) && Picks(what, KeyOf(e)) then 1 else 0
  {
    var rest := SecurityEvents(events);
    assert ([e] + events)[1..] == events;
    if IsSecurityEvent(e) {
      assert SecurityEvents([e] + events) == [e] + rest;
      assert ([e] + rest)[1..] == rest;
    } else {
      assert SecurityEvents([e] + events) == rest;
    }
  }

  /** How many rows `good` accepts. */
  ghost function CountWhere(table: seq<Stored>, good: Stored -> bool): nat {
    if table == [] then 0 else (if good(table[0]) then 1 else 0) + CountWhere(table[1..], good)
  }

  /** Counting events is counting rows. */
  lemma {:induction false} CountIsWhere(uuid: string -> Option<nat>, p: Params, table: seq<Stored>, what: Selection,
                                        good: Stored -> bool)
    requires forall row :: good(row) <==> Hits(uuid, p, row, what)
    ensures Count(SecurityEvents(Scope(uuid, p, table)), what) == CountWhere(table, good)
    decreases |table|
  {
    if table == [] {
    } else {
      CountIsWhere(uuid, p, table[1..], what, good);
      assert table == [table[0]] + table[1..];
      CountStep(uuid, p, table[0], table[1..], what);
    }
  }

  /** The checks are the rows of the period and organization; any other row leaves the report alone. */
  lemma {:induction false} ChecksAreRows(uuid: string -> Option<nat>, p: Params, table: seq<Stored>,
                                         good: Stored -> bool)
    requires forall row :: good(row) <==>
      && p.startTime <= row.timestamp <= p.endTime
      && (p.organizationId == "" || uuid(p.organizationId) == Some(row.organizationId))
    ensures |Scope(uuid, p, table)| == CountWhere(table, good)
    decreases |table|
  {
    if table == [] {
    } else {
      ChecksAreRows(uuid, p, table[1..], good);
      assert table == [table[0]] + table[1..];
    }
  }

  lemma HitsOnFields(uuid: string -> Option<nat>, p: Params, row: Stored)
    ensures Hits(uuid, p, row, Any) <==>
      && p.startTime <= row.timestamp <= p.endTime
      && (p.organizationId == "" || uuid(p.organizationId) == Some(row.organizationId))
      && (|| row.event.result == "failure"
          || row.event.severity == Some("HIGH") || row.event.severity == Some("CRITICAL")
          || row.event.action == "failed_login" || row.event.action == "unauthorized_access"
          || row.event.action == "privilege_escalation")
    ensures Hits(uuid, p, row, Critical) <==> Hits(uuid, p, row, Any) && row.event.severity == Some("CRITICAL")
    ensures Hits(uuid, p, row, High) <==> Hits(uuid, p, row, Any) && row.event.severity == Some("HIGH")
    ensures Hits(uuid, p, row, Failure) <==> Hits(uuid, p, row, Any) && row.event.result == "failure"
    ensures Hits(uuid, p, row, InCategory(PolicyViolation)) <==> Hits(uuid, p, row, Failure)
    ensures Hits(uuid, p, row, InCategory(CriticalSeverity)) <==>
            Hits(uuid, p, row, Critical) && row.event.result != "failure"
    ensures Hits(uuid, p, row, InCategory(HighRisk)) <==>
            Hits(uuid, p, row, High) && row.event.result != "failure"
  {
  }

  /** The failed checks are those of them that record a failure, a severe event or one of three
      actions. */
  lemma FailedChecksAreRows(uuid: string -> Option<nat>, p: Params, table: seq<Stored>, good: Stored -> bool)
    requires forall row :: good(row) <==>
      && p.startTime <= row.timestamp <= p.endTime
      && (p.organizationId == "" || uuid(p.organizationId) == Some(row.organizationId))
      && (|| row.event.result == "failure"
          || row.event.severity == Some("HIGH") || row.event.severity == Some("CRITICAL")
          || row.event.action == "failed_login" || row.event.action == "unauthorized_access"
          || row.event.action == "privilege_escalation")
    ensures |SecurityEvents(Scope(uuid, p, table))| == CountWhere(table, good)
  {
    forall row ensures good(row) <==> Hits(uuid, p, row, Any) {
      HitsOnFields(uuid, p, row);
    }
    CountIsWhere(uuid, p, table, Any, good);
    CountBounds(SecurityEvents(Scope(uuid, p, table)));
  }

  /** And the counters and categories are those of the failed checks with the severity or result. */
  lemma CountersAreRows(uuid: string -> Option<nat>, p: Params, table: seq<Stored>,
                        critical: Stored -> bool, high: Stored -> bool, failure: Stored -> bool)
    requires forall row :: critical(row) <==> IsCounted(uuid, p, row) && row.event.severity == Some("CRITICAL")
    requires forall row :: high(row) <==> IsCounted(uuid, p, row) && row.event.severity == Some("HIGH")
    requires forall row :: failure(row) <==> IsCounted(uuid, p, row) && row.event.result == "failure"
    ensures var security := SecurityEvents(Scope(uuid, p, table));
      && Count(security, Critical) == CountWhere(table, critical) && Count(security, High) == CountWhere(table, high)
      && Count(security, Failure) == Count(security, InCategory(PolicyViolation)) == CountWhere(table, failure)
      && Count(security, InCategory(CriticalSeverity)) == CountWhere(table, row => critical(row) && !failure(row))
      && Count(security, InCategory(HighRisk)) == CountWhere(table, row => high(row) && !failure(row))
  {
    forall row
      ensures critical(row) <==> Hits(uuid, p, row, Critical)
      ensures high(row) <==> Hits(uuid, p, row, High)
      ensures failure(row) <==> Hits(uuid, p, row, Failure)
      ensures failure(row) <==> Hits(uuid, p, row, InCategory(PolicyViolation))
      ensures critical(row) && !failure(row) <==> Hits(uuid, p, row, InCategory(CriticalSeverity))
      ensures high(row) && !failure(row) <==> Hits(uuid, p, row, InCategory(HighRisk))
    {
      HitsOnFields(uuid, p, row);
    }
    CountIsWhere(uuid, p, table, Critical, critical);
    CountIsWhere(uuid, p, table, High, high);
    CountIsWhere(uuid, p, table, Failure, failure);
    CountIsWhere(uuid, p, table, InCategory(PolicyViolation), failure);
    CountIsWhere(uuid, p, table, InCategory(CriticalSeverity), row => critical(row) && !failure(row));
    CountIsWhere(uuid, p, table, InCategory(HighRisk), row => high(row) && !failure(row));
  }

  /** The report over a table snapshot, the total being counted on the same snapshot or a later
      one with no fewer events in scope. It fails exactly when a set organization is not a uuid, or a
      security event of the organization and period has no severity. Otherwise, whatever the order of
      the group rows, each counter is a number of security events; the categories partition them, and
      the score is a percentage. */
  method GenerateComplianceReport(uuid: string -> Option<nat>, p: Params, table: seq<Stored>, later: seq<Stored>,
                                  groups: seq<Group>)
    returns (r: ComplianceReport)
    requires Accepted(uuid, p) ==> GroupsOf(groups, SecurityEvents(Scope(uuid, p, table)))
    requires |Scope(uuid, p, table)| <= |Scope(uuid, p, later)|
    ensures r.Failed? <==>
      || (p.organizationId != "" && uuid(p.organizationId).None?)
      || exists row :: row in table && IsCounted(uuid, p, row) && row.event.severity.None?
    ensures r.Generated? ==>
      var security, total := SecurityEvents(Scope(uuid, p, table)), |Scope(uuid, p, later)|;
      && CountersRight(r.summary, security, total)
      && CategoriesRight(r.summary, security)
      && 0.0 <= r.score <= 100.0
      && (r.score == 100.0 <==> security == [] && total > 0)
  {
    if p.organizationId != "" && uuid(p.organizationId).None? {
      return Failed;
    }
    var security, total := SecurityEvents(Scope(uuid, p, table)), |Scope(uuid, p, later)|;
    NullGroupIff(groups, security);
    NullInScopeIff(uuid, p, table);
    var s := Summarize(groups, total);
    if s.None? {
      return Failed;
    }
    TallyCounts(s.value, groups, security, total);
    TallyCategories(s.value, groups, security, total);
    var score := ComplianceScore(s.value.passedChecks, s.value.totalChecks);
    return Generated(s.value, score);
  }

  lemma NullInScopeIff(uuid: string -> Option<nat>, p: Params, table: seq<Stored>)
    ensures (exists e :: e in SecurityEvents(Scope(uuid, p, table)) && e.severity.None?) <==>
            exists row :: row in table && IsCounted(uuid, p, row) && row.event.severity.None?
  {
    if row :| row in table && IsCounted(uuid, p, row) && row.event.severity.None? {
      assert row.event in SecurityEvents(Scope(uuid, p, table));
    }
  }

  // ---- the schema's severities ----------------------------------------------------------

  /** The report compares with upper-case severities, which no stored event has: over any stored
      table both severity counters are zero, and the critical and high-risk categories empty. */
  lemma {:induction false} SeverityCountersAreZero(events: seq<Event>)
    requires forall e :: e in events && e.severity.Some? ==> 
      e.severity.value in {"debug", "info", "warn", "error", "critical"}
    ensures Count(events, Critical) == 0 && Count(events, High) == 0
    ensures Count(events, InCategory(CriticalSeverity)) == 0 && Count(events, InCategory(HighRisk)) == 0
  {
    if events == [] {
    } else {
      assert events[0] in events;
      SeverityCountersAreZero(events[1..]);
    }
  }
}
