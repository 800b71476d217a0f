/** A small reading of SQL conditions: text such as `a = $1 AND b >= $2`, taken apart at spaces,
    its positional arguments converted to the types of their columns, and evaluated on a row. */
module Sql {
  import opened Basics
  import opened Strings

  /** A stored value or an argument. A stored uuid is the number it denotes; an argument for a
      uuid or an enumeration is sent as text. */
  datatype Value = Text(s: string) | Uuid(u: nat) | Time(t: int) | Number(n: int)

  /** A row gives each column a value, or NULL. */
  type Row = map<string, Option<Value>>

  datatype Kind = TextKind | UuidKind | EnumKind(labels: set<string>) | TimeKind

  /** The types of a table's columns, and how the database reads the text of a uuid. */
  datatype Schema = Schema(columns: map<string, Kind>, uuid: string -> Option<nat>)

  // ---- decimal numbers -----------------------------------------------------------------

  function Digit(d: nat): char
    requires d < 10
  {
    ('0' as int + d) as char
  }

  /** fmt's %d for a number that is not negative. */
  function Itoa(n: nat): (s: string)
    ensures s != "" && forall c :: c in s ==> '0' <= c <= '9'
  {
    (if n < 10 then "" else Itoa(n / 10)) + [Digit(n % 10)]
  }

  function ParseNat(s: string): Option<nat> {
    if s == "" then Some(0)
    else
      var c := s[|s| - 1];
      if !('0' <= c <= '9') then None
      else
        match ParseNat(s[..|s| - 1])
        case None => None
        case Some(n) => Some(10 * n + (c as int - '0' as int))
  }

  lemma {:induction false} ParseOfItoa(n: nat)
    ensures ParseNat(Itoa(n)) == Some(n)
  {
    var s := Itoa(n);
    if n < 10 {
      assert s[..|s| - 1] == "";
    } else {
      ParseOfItoa(n / 10);
      assert s[..|s| - 1] == Itoa(n / 10);
    }
  }

  // ---- conditions ------------------------------------------------------------------------

  /** The argument a placeholder token such as `$3` refers to. */
  function Argument(token: string, args: seq<Value>): Option<Value> {
    if |token| < 2 || token[0] != '$' then None
    else
      match ParseNat(token[1..])
      case None => None
      case Some(k) => if 1 <= k <= |args| then Some(args[k - 1]) else None
  }

  /** A column compared with a value. */
  datatype Condition = Condition(column: string, op: string, value: Value)

  /** An argument as a value of the column's type; None if the database rejects it. */
  function Convert(schema: Schema, kind: Kind, arg: Value): Option<Value> {
    match kind
    case TextKind => if arg.Text? && '\0' !in arg.s then Some(arg) else None
    case EnumKind(labels) => if arg.Text? && arg.s in labels then Some(arg) else None
    case TimeKind => if arg.Time? then Some(arg) else None
    case UuidKind =>
      if arg.Text? && schema.uuid(arg.s).Some? then Some(Uuid(schema.uuid(arg.s).value)) else None
  }

  /** The condition with its argument converted; None if it is ill-formed or ill-typed. Only
      times are ordered here. */
  function Bind(schema: Schema, c: Condition): Option<Condition> {
    if c.column !in schema.columns then None
    else
      var kind := schema.columns[c.column];
      var value := Convert(schema, kind, c.value);
      if value.Some? && (c.op == "=" || (kind.TimeKind? && (c.op == ">=" || c.op == "<="))) then
        Some(Condition(c.column, c.op, value.value))
      else None
  }

  function Both(first: Option<Condition>, rest: Option<seq<Condition>>): Option<seq<Condition>> {
    if first.None? || rest.None? then None else Some([first.value] + rest.value)
  }

  /** A condition given by its three tokens. */
  function Read(schema: Schema, column: string, op: string, token: string, args: seq<Value>): Option<Condition> {
    match Argument(token, args)
    case None => None
    case Some(v) => Bind(schema, Condition(column, op, v))
  }

  /** The conjunction given by its tokens, with all arguments bound; None if it is rejected. This
      happens before any row is looked at. */
  function Prepare(schema: Schema, tokens: seq<string>, args: seq<Value>): Option<seq<Condition>>
    decreases |tokens|
  {
    if tokens == ["1=1"] then Some([])
    else if |tokens| >= 2 && tokens[0] == "1=1" && tokens[1] == "AND" then Prepare(schema, tokens[2..], args)
    else if |tokens| < 3 then None
    else
      var first := Read(schema, tokens[0], tokens[1], tokens[2], args);
      if |tokens| == 3 then Both(first, Some([]))
      else if tokens[3] != "AND" then None
      else Both(first, Prepare(schema, tokens[4..], args))
  }

  /** The WHERE clause `text` and its arguments. */
  function Where(schema: Schema, text: string, args: seq<Value>): Option<seq<Condition>> {
    Prepare(schema, Split(text, ' '), args)
  }

  /** A bound condition on a row. NULL compares with nothing. */
  predicate Holds(c: Condition, row: Row) {
    c.column in row && row[c.column].Some? &&
      var v := row[c.column].value;
      if c.op == "=" then v == c.value
      else v.Time? && c.value.Time? && if c.op == ">=" then v.t >= c.value.t else v.t <= c.value.t
  }

  predicate AllHold(conditions: seq<Condition>, row: Row) {
    forall c :: c in conditions ==> Holds(c, row)
  }

  /** `LIMIT $i OFFSET $j`: the two arguments it names. */
  function LimitOffset(text: string, args: seq<Value>): Option<(int, int)> {
    var tokens := Split(text, ' ');
    if |tokens| != 4 || tokens[0] != "LIMIT" || tokens[2] != "OFFSET" then None
    else
      match (Argument(tokens[1], args), Argument(tokens[3], args))
      case (Some(Number(l)), Some(Number(o))) => Some((l, o))
      case _ => None
  }

  // ---- rendered conditions -----------------------------------------------------------------

  function Placeholder(k: nat): string { "$" + Itoa(k) }

  /** The tokens of the `k`-th condition. */
  function Tokens(c: Condition, k: nat): seq<string> {
    [c.column, c.op, Placeholder(k)]
  }

  /** The conditions as text pieces numbered from 1, after the neutral `1=1`. */
  function Pieces(conditions: seq<Condition>): (r: seq<string>)
    ensures r != []
  {
    if conditions == [] then ["1=1"]
    else
      var n := |conditions|;
      Pieces(conditions[..n - 1]) + [Join(Tokens(conditions[n - 1], n), " ")]
  }

  lemma PiecesSnoc(conditions: seq<Condition>, c: Condition)
    ensures Pieces(conditions + [c]) == Pieces(conditions) + [Join(Tokens(c, |conditions| + 1), " ")]
  {
    var more := conditions + [c];
    var n := |more|;
    assert more[..n - 1] == conditions && more[n - 1] == c;
    assert Pieces(more) == Pieces(more[..n - 1]) + [Join(Tokens(more[n - 1], n), " ")];
  }

  lemma ArgsSnoc(conditions: seq<Condition>, c: Condition)
    ensures Args(conditions + [c]) == Args(conditions) + [c.value]
  {
  }

  function Args(conditions: seq<Condition>): (r: seq<Value>)
    ensures |r| == |conditions|
    ensures forall k :: 0 <= k < |conditions| ==> r[k] == conditions[k].value
  {
    seq(|conditions|, k requires 0 <= k < |conditions| => conditions[k].value)
  }

  /** The condition can be written down. */
  predicate Writable(c: Condition) {
    ' ' !in c.column && ' ' !in c.op && c.column != "1=1"
  }

  /** The tokens of conditions `from` on, each behind an AND. */
  function TokensFrom(conditions: seq<Condition>, from: nat): seq<string>
    requires from <= |conditions|
    decreases |conditions| - from
  {
    if from == |conditions| then []
    else ["AND"] + Tokens(conditions[from], from + 1) + TokensFrom(conditions, from + 1)
  }

  lemma {:induction false} TokensSnoc(conditions: seq<Condition>, from: nat)
    requires from < |conditions|
    ensures var n := |conditions|;
            TokensFrom(conditions, from) ==
            TokensFrom(conditions[..n - 1], from) + ["AND"] + Tokens(conditions[n - 1], n)
    decreases |conditions| - from
  {
    if from + 1 == |conditions| {
    } else {
      TokensSnoc(conditions, from + 1);
    }
  }

  lemma JoinAnd(head: seq<string>, last: seq<string>)
    requires head != [] && last != []
    ensures Join(head + (["AND"] + last), " ") == Join(head, " ") + " AND " + Join(last, " ")
  {
    JoinAppend(head, ["AND"] + last, " ");
    JoinAppend(["AND"], last, " ");
    assert Join(["AND"], " ") == "AND";
    assert " AND " == " " + "AND" + " ";
    var h, l := Join(head, " "), Join(last, " ");
    assert h + " " + ("AND" + " " + l) == h + (" " + "AND" + " ") + l;
  }

  lemma JoinPiece(pieces: seq<string>, piece: string)
    requires pieces != []
    ensures Join(pieces + [piece], " AND ") == Join(pieces, " AND ") + " AND " + piece
  {
    JoinAppend(pieces, [piece], " AND ");
    assert Join([piece], " AND ") == piece;
  }

  /** The joined pieces read, as text, like the flat token list. */
  lemma {:induction false} JoinedPieces(conditions: seq<Condition>)
    ensures Join(Pieces(conditions), " AND ") == Join(["1=1"] + TokensFrom(conditions, 0), " ")
  {
    if conditions == [] {
      assert ["1=1"] + TokensFrom(conditions, 0) == ["1=1"];
    } else {
      var n := |conditions|;
      var before, c := conditions[..n - 1], conditions[n - 1];
      assert before + [c] == conditions;
      JoinedPieces(before);
      PiecesSnoc(before, c);
      var last := Tokens(c, n);
      var head := ["1=1"] + TokensFrom(before, 0);
      JoinPiece(Pieces(before), Join(last, " "));
      JoinAnd(head, last);
      TokensSnoc(conditions, 0);
      assert ["1=1"] + TokensFrom(conditions, 0) == head + (["AND"] + last);
    }
  }

  lemma PlaceholderHasNoSpace(k: nat)
    ensures ' ' !in Placeholder(k)
  {
    assert forall c :: c in Itoa(k) ==> c != ' ';
  }

  lemma {:induction false} TokensHaveNoSpace(conditions: seq<Condition>, from: nat)
    requires from <= |conditions| && forall c :: c in conditions ==> Writable(c)
    ensures forall t :: t in TokensFrom(conditions, from) ==> ' ' !in t
    decreases |conditions| - from
  {
    if from == |conditions| {
    } else {
      PlaceholderHasNoSpace(from + 1);
      assert Writable(conditions[from]) && ' ' !in "AND";
      TokensHaveNoSpace(conditions, from + 1);
    }
  }

  lemma SplitPieces(conditions: seq<Condition>)
    requires forall c :: c in conditions ==> Writable(c)
    ensures Split(Join(Pieces(conditions), " AND "), ' ') == ["1=1"] + TokensFrom(conditions, 0)
  {
    JoinedPieces(conditions);
    TokensHaveNoSpace(conditions, 0);
    SplitOfJoin(["1=1"] + TokensFrom(conditions, 0), ' ');
  }

  lemma PlaceholderMeans(k: nat, args: seq<Value>)
    requires 1 <= k <= |args|
    ensures Argument(Placeholder(k), args) == Some(args[k - 1])
  {
    ParseOfItoa(k);
    assert Placeholder(k)[1..] == Itoa(k);
  }

  /** The conditions bound one by one, each with its own value. */
  function BindAll(schema: Schema, conditions: seq<Condition>): Option<seq<Condition>> {
    if conditions == [] then Some([]) else Both(Bind(schema, conditions[0]), BindAll(schema, conditions[1..]))
  }

  predicate HoldsBound(schema: Schema, c: Condition, row: Row) {
    Bind(schema, c).Some? && Holds(Bind(schema, c).value, row)
  }

  lemma AllHoldCons(first: Condition, rest: seq<Condition>, row: Row)
    ensures AllHold([first] + rest, row) <==> Holds(first, row) && AllHold(rest, row)
  {
    assert forall c :: c in [first] + rest <==> c == first || c in rest;
  }

  /** Binding fails as soon as one condition is rejected, and otherwise keeps every one. */
  lemma {:induction false} BindAllMeans(schema: Schema, conditions: seq<Condition>)
    ensures var bound := BindAll(schema, conditions);
            && (bound.Some? <==> forall c :: c in conditions ==> Bind(schema, c).Some?)
            && (bound.Some? ==> forall row ::
                  AllHold(bound.value, row) <==> forall c :: c in conditions ==> HoldsBound(schema, c, row))
  {
    if conditions == [] {
    } else {
      var first, rest := conditions[0], conditions[1..];
      assert conditions == [first] + rest;
      BindAllMeans(schema, rest);
      var bound := BindAll(schema, conditions);
      if bound.Some? {
        forall row
          ensures AllHold(bound.value, row) <==> forall c :: c in conditions ==> HoldsBound(schema, c, row)
        {
          AllHoldCons(Bind(schema, first).value, BindAll(schema, rest).value, row);
          assert first in conditions && Bind(schema, first).Some?;
          assert forall c :: c in conditions <==> c == first || c in rest;
        }
      }
    }
  }

  lemma PrepareStep(schema: Schema, a: string, b: string, c: string, rest: seq<string>, args: seq<Value>)
    requires a != "1=1" && (rest != [] ==> rest[0] == "AND")
    ensures Prepare(schema, [a, b, c] + rest, args) ==
            Both(Read(schema, a, b, c, args), if rest == [] then Some([]) else Prepare(schema, rest[1..], args))
  {
    var tokens := [a, b, c] + rest;
    assert tokens[0] == a && tokens[1] == b && tokens[2] == c;
    if rest != [] {
      assert tokens[3] == "AND" && tokens[4..] == rest[1..];
    }
  }

  lemma {:induction false} TailMeans(schema: Schema, conditions: seq<Condition>, from: nat, args: seq<Value>)
    requires from < |conditions| && Args(conditions) <= args
    requires forall c :: c in conditions ==> Writable(c)
    ensures Prepare(schema, TokensFrom(conditions, from)[1..], args) == BindAll(schema, conditions[from..])
    decreases |conditions| - from
  {
    var c := conditions[from];
    var rest := TokensFrom(conditions, from + 1);
    assert TokensFrom(conditions, from)[1..] == Tokens(c, from + 1) + rest;
    PlaceholderMeans(from + 1, args);
    assert args[from] == Args(conditions)[from] == c.value;
    assert Read(schema, c.column, c.op, Placeholder(from + 1), args) == Bind(schema, c);
    assert Writable(c);
    PrepareStep(schema, c.column, c.op, Placeholder(from + 1), rest, args);
    assert conditions[from..][0] == c && conditions[from..][1..] == conditions[from + 1..];
    if from + 1 == |conditions| {
    } else {
      TailMeans(schema, conditions, from + 1, args);
    }
  }

  /** Text meets meaning: the joined pieces, read as SQL with the arguments in order (and any
      further arguments behind them), are rejected exactly when some condition is, and otherwise
      are the conditions, each bound to its own value. */
  lemma ClauseMeansConditions(schema: Schema, conditions: seq<Condition>, args: seq<Value>)
    requires forall c :: c in conditions ==> Writable(c)
    requires Args(conditions) <= args
    ensures Where(schema, Join(Pieces(conditions), " AND "), args) == BindAll(schema, conditions)
  {
    SplitPieces(conditions);
    var tail := TokensFrom(conditions, 0);
    if conditions == [] {
      assert ["1=1"] + tail == ["1=1"];
    } else {
      TailMeans(schema, conditions, 0, args);
      NeutralHead(schema, tail, args);
      assert conditions[0..] == conditions;
    }
  }

  lemma NeutralHead(schema: Schema, tail: seq<string>, args: seq<Value>)
    requires tail != [] && tail[0] == "AND"
    ensures Prepare(schema, ["1=1"] + tail, args) == Prepare(schema, tail[1..], args)
  {
    assert (["1=1"] + tail)[2..] == tail[1..];
  }

  lemma JoinThree(a: string, b: string, c: string)
    ensures Join([a, b, c], " ") == a + " " + b + " " + c
  {
    assert [a, b, c][1..] == [b, c] && [b, c][1..] == [c];
    assert Join([c], " ") == c;
    assert Join([b, c], " ") == b + " " + c;
    assert Join([a, b, c], " ") == a + " " + Join([b, c], " ");
  }
}
