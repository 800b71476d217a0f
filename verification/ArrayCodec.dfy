/** The Postgres text array codec of `internal/database/database.go`. */
module ArrayCodec {
  import opened Basics
  import opened Strings

  /** A driver value: NULL, text (string or bytes), or any other type. */
  datatype DriverValue = Null | Textual(s: string) | Other

  /** A Go string slice; None is the nil slice. */
  type GoSlice = Option<seq<string>>

  predicate Braced(s: string) {
    |s| >= 2 && s[0] == '{' && s[|s| - 1] == '}'
  }

  /** What a receiver holding `before` holds after Scan. */
  function Scanned(before: GoSlice, src: DriverValue): GoSlice {
    match src
    case Null => None
    case Other => before
    case Textual(s) =>
      if !Braced(s) then before
      else if |s| == 2 then Some([])
      else Some(Split(s[1..|s| - 1], ','))
  }

  function Value(a: GoSlice): DriverValue {
    if a.None? then Null
    else if a.value == [] then Textual("{}")
    else Textual("{" + Join(a.value, ",") + "}")
  }

  class StringArray {
    var a: GoSlice

    /** Scan writes through its receiver, and keeps it on input it does not understand. */
    method Scan(src: DriverValue)
      modifies this
      ensures a == Scanned(old(a), src)
      ensures src.Null? ==> a == None
      ensures src.Textual? && |src.s| >= 2 && src.s[0] == '{' && src.s[|src.s| - 1] == '}' ==>
        a == Some(if src.s == "{}" then [] else Split(src.s[1..|src.s| - 1], ','))
      ensures src.Textual? && !(|src.s| >= 2 && src.s[0] == '{' && src.s[|src.s| - 1] == '}') ==> a == old(a)
      ensures src.Other? ==> a == old(a)
    {
      if src == Null {
        a := None;
        return;
      }
      var s := "";
      if src.Textual? {
        s := src.s;
      } else {
        return;
      }
      if |s| < 2 || s[0] != '{' || s[|s| - 1] != '}' {
        return;
      }
      s := s[1..|s| - 1];
      if s == "" {
        a := Some([]);
        return;
      }
      a := Some(Split(s, ','));
    }
  }

  /** Reading back a written array gives it back exactly when it is nil, or has no comma in an
      element and is not the list of one empty text. */
  lemma WriteThenRead(a: GoSlice, before: GoSlice)
    ensures Scanned(before, Value(a)) == a <==>
            a.None? || ((forall e :: e in a.value ==> ',' !in e) && a.value != [""])
  {
    if a.Some? && a.value != [] {
      var body := Join(a.value, ",");
      var s := "{" + body + "}";
      assert s[1..|s| - 1] == body;
      if forall e :: e in a.value ==> ',' !in e {
        SplitOfJoin(a.value, ',');
        if body == "" {
          assert Split("", ',') == [""];
        }
      } else {
        JoinOfSplit(body, ',');
      }
    }
  }

  /** Writing back a read array text gives the same text, for every braced text. */
  lemma ReadThenWrite(s: string, before: GoSlice)
    requires Braced(s)
    ensures Value(Scanned(before, Textual(s))) == Textual(s)
  {
    if |s| == 2 {
      assert s == "{}";
    } else {
      var body := s[1..|s| - 1];
      JoinOfSplit(body, ',');
      assert s == "{" + body + "}";
    }
  }
}
