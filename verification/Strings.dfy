/** The functions of Go's `strings` package that the modelled code calls, on valid UTF-8 text. */
module Strings {
  predicate HasPrefix(s: string, prefix: string) {
    |prefix| <= |s| && s[..|prefix|] == prefix
  }

  /** strings.ReplaceAll: left to right, non-overlapping. */
  function ReplaceAll(s: string, find: string, with: string): string
    requires find != ""
    decreases |s|
  {
    if s == "" then ""
    else if HasPrefix(s, find) then with + ReplaceAll(s[|find|..], find, with)
    else [s[0]] + ReplaceAll(s[1..], find, with)
  }

  /** strings.Split with a one-character separator. */
  function Split(s: string, sep: char): (parts: seq<string>)
    ensures |parts| >= 1
  {
    if s == "" then [""]
    else
      var rest := Split(s[1..], sep);
      if s[0] == sep then [""] + rest else [[s[0]] + rest[0]] + rest[1..]
  }

  /** strings.Join. */
  function Join(parts: seq<string>, sep: string): string {
    if parts == [] then ""
    else if |parts| == 1 then parts[0]
    else parts[0] + sep + Join(parts[1..], sep)
  }

  /** strings.Contains. */
  predicate Contains(s: string, part: string) {
    HasPrefix(s, part) || (s != "" && Contains(s[1..], part))
  }

  /** Lower case, exact on every character whose lower case is an ASCII letter:
      A-Z, U+0130 and the Kelvin sign. All other characters are kept; the code only
      ever compares the result with ASCII text. */
  function LowerChar(c: char): char {
    if 'A' <= c <= 'Z' then (c as int + 32) as char
    else if c == '\U{0130}' then 'i'
    else if c == '\U{212A}' then 'k'
    else c
  }

  function ToLower(s: string): (r: string)
    ensures |r| == |s|
    ensures forall i :: 0 <= i < |s| ==> r[i] == LowerChar(s[i])
  {
    seq(|s|, i requires 0 <= i < |s| => LowerChar(s[i]))
  }

  /** Simple case folding onto ASCII lower case; only the long s and the Kelvin sign join
      an ASCII letter's folding class from outside ASCII. */
  function FoldChar(c: char): char {
    if 'A' <= c <= 'Z' then (c as int + 32) as char
    else if c == '\U{017F}' then 's'
    else if c == '\U{212A}' then 'k'
    else c
  }

  /** strings.EqualFold(s, word) for a `word` in lower-case ASCII. */
  predicate FoldsTo(s: string, word: string) {
    |s| == |word| && forall i :: 0 <= i < |s| ==> FoldChar(s[i]) == word[i]
  }

  /** Both put an ASCII letter of either case into lower case and keep all other ASCII. */
  lemma CaseOfLetters(c: char)
    requires c < '\U{0080}'
    ensures 'a' <= c <= 'z' ==> var upper := (c as int - 32) as char;
            LowerChar(c) == LowerChar(upper) == FoldChar(c) == FoldChar(upper) == c
    ensures !('A' <= c <= 'Z') ==> LowerChar(c) == FoldChar(c) == c
  {
  }

  /** The two ways to ignore case agree on words without i and s, whose classes differ outside
      ASCII, and on texts without the dotted capital I and the long s. */
  lemma FoldsIsLower(s: string, word: string)
    requires forall c :: c in word ==> 'a' <= c <= 'z'
    requires
      || (forall c :: c in word ==> c != 'i' && c != 's')
      || (forall c :: c in s ==> c != '\U{0130}' && c != '\U{017F}')
    ensures FoldsTo(s, word) <==> ToLower(s) == word
  {
    if |s| == |word| {
      forall i | 0 <= i < |s| ensures FoldChar(s[i]) == word[i] <==> LowerChar(s[i]) == word[i] {
        assert word[i] in word && s[i] in s;
      }
      if FoldsTo(s, word) {
        assert forall i :: 0 <= i < |s| ==> ToLower(s)[i] == word[i];
      }
    }
  }

  lemma AsciiSpaces(c: char)
    requires c < '\U{0080}'
    ensures IsSpace(c) <==> c == ' ' || '\t' <= c <= '\r'
  {
  }

  /** unicode.IsSpace. */
  predicate IsSpace(c: char) {
    || c in "\t\n\U{000B}\U{000C}\r \U{0085}\U{00A0}\U{1680}\U{2028}\U{2029}\U{202F}\U{205F}\U{3000}"
    || '\U{2000}' <= c <= '\U{200A}'
  }

  function TrimLeft(s: string, drop: char -> bool): string {
    if s != "" && drop(s[0]) then TrimLeft(s[1..], drop) else s
  }

  function TrimRight(s: string, drop: char -> bool): string {
    if s != "" && drop(s[|s| - 1]) then TrimRight(s[..|s| - 1], drop) else s
  }

  function TrimFunc(s: string, drop: char -> bool): string {
    TrimRight(TrimLeft(s, drop), drop)
  }

  /** strings.TrimSpace. */
  function TrimSpace(s: string): string {
    TrimFunc(s, IsSpace)
  }

  predicate StandsAt(s: string, part: string, i: nat) {
    i + |part| <= |s| && s[i..i + |part|] == part
  }

  /** Contains holds exactly when the part stands somewhere in the text. */
  lemma {:induction false} ContainsIff(s: string, part: string)
    ensures Contains(s, part) <==> exists i: nat :: StandsAt(s, part, i)
  {
    if HasPrefix(s, part) {
      assert StandsAt(s, part, 0);
    } else if s == "" {
    } else {
      ContainsIff(s[1..], part);
      assert |part| <= |s| ==> s[0..0 + |part|] == s[..|part|];
      assert !StandsAt(s, part, 0);
      forall i: nat ensures StandsAt(s[1..], part, i) <==> StandsAt(s, part, i + 1) {
        if i + |part| < |s| {
          assert s[1..][i..i + |part|] == s[i + 1..i + 1 + |part|];
        }
      }
      assert forall i: nat :: StandsAt(s, part, i) ==> i > 0 && StandsAt(s[1..], part, i - 1);
    }
  }

  lemma {:induction false} SplitStep(head: string, tail: string, sep: char)
    requires sep !in head
    ensures Split(head + [sep] + tail, sep) == [head] + Split(tail, sep)
  {
    if head == "" {
      assert head + [sep] + tail == [sep] + tail;
    } else {
      var s := head + [sep] + tail;
      assert s[1..] == head[1..] + [sep] + tail;
      SplitStep(head[1..], tail, sep);
      assert s[0] == head[0] && [head[0]] + head[1..] == head;
    }
  }

  lemma {:induction false} SplitWhole(s: string, sep: char)
    requires sep !in s
    ensures Split(s, sep) == [s]
  {
    if s == "" {
    } else {
      SplitWhole(s[1..], sep);
      assert s[0] != sep && [s[0]] + s[1..] == s;
    }
  }

  /** Splitting what was joined gives the parts back, when no part holds the separator. */
  lemma {:induction false} SplitOfJoin(parts: seq<string>, sep: char)
    requires parts != []
    requires forall p :: p in parts ==> sep !in p
    ensures Split(Join(parts, [sep]), sep) == parts
  {
    if |parts| == 1 {
      SplitWhole(parts[0], sep);
    } else {
      var rest := parts[1..];
      SplitOfJoin(rest, sep);
      SplitStep(parts[0], Join(rest, [sep]), sep);
      assert Join(parts, [sep]) == parts[0] + [sep] + Join(rest, [sep]);
      assert [parts[0]] + rest == parts;
    }
  }

  lemma JoinHead(c: char, parts: seq<string>, sep: string)
    requires parts != []
    ensures Join([[c] + parts[0]] + parts[1..], sep) == [c] + Join(parts, sep)
  {
    var longer := [[c] + parts[0]] + parts[1..];
    assert longer[1..] == parts[1..];
    if |parts| > 1 {
      var rest := Join(parts[1..], sep);
      assert [c] + parts[0] + sep + rest == [c] + (parts[0] + sep + rest);
    }
  }

  /** Joining what was split gives the text back, and no part holds the separator. */
  lemma {:induction false} JoinOfSplit(s: string, sep: char)
    ensures Join(Split(s, sep), [sep]) == s
    ensures forall p :: p in Split(s, sep) ==> sep !in p
  {
    if s == "" {
    } else {
      JoinOfSplit(s[1..], sep);
      var rest := Split(s[1..], sep);
      var parts := Split(s, sep);
      if s[0] == sep {
        assert parts == [""] + rest && parts[1..] == rest;
        assert Join(parts, [sep]) == "" + [sep] + Join(rest, [sep]);
      } else {
        JoinHead(s[0], rest, [sep]);
        assert parts == [[s[0]] + rest[0]] + rest[1..];
        forall p | p in parts ensures sep !in p {
          assert p in rest[1..] || p == [s[0]] + rest[0];
          assert rest[0] in rest;
        }
      }
      assert s == [s[0]] + s[1..];
    }
  }

  lemma {:induction false} JoinAppend(a: seq<string>, b: seq<string>, sep: string)
    requires a != [] && b != []
    ensures Join(a + b, sep) == Join(a, sep) + sep + Join(b, sep)
  {
    if |a| == 1 {
      assert (a + b)[1..] == b;
    } else {
      JoinAppend(a[1..], b, sep);
      assert (a + b)[1..] == a[1..] + b;
    }
  }
}
