/** Wildcard matching of `internal/authz/evaluator.go`: a glob is compiled, by text
    rewriting, into a regular expression. The rewriting, the expression syntax it lands in
    and the meaning of expressions are modelled separately, and proved to meet. */
module Glob {
  import opened Basics
  import opened Strings

  /** The characters regexp.QuoteMeta escapes. */
  const META := "\\.+*?()|[]{}^$"

  function QuoteMeta(s: string): string {
    if s == "" then ""
    else (if s[0] in META then ['\\', s[0]] else [s[0]]) + QuoteMeta(s[1..])
  }

  /** The text handed to the compiler, between the two anchors. */
  function Escape(pattern: string): string {
    ReplaceAll(ReplaceAll(QuoteMeta(pattern), "\\*", ".*"), "\\?", ".")
  }

  // ---- regular expressions -----------------------------------------------------------

  datatype Regex =
    | Empty
    | Lit(c: char)
    | AnyNotNewline
    | BeginText
    | EndText
    | Cat(first: Regex, second: Regex)
    | Star(body: Regex)

  predicate IsAlnum(c: char) {
    'a' <= c <= 'z' || 'A' <= c <= 'Z' || '0' <= c <= '9'
  }

  /** One atom of the syntax and the text after it; None outside this part of the syntax. */
  function ParseAtom(t: string): (r: Option<(Regex, string)>)
    ensures r.Some? ==> |r.value.1| < |t|
  {
    if t == "" then None
    else if t[0] == '\\' then
      if |t| >= 2 && t[1] < '\U{0080}' && !IsAlnum(t[1]) then Some((Lit(t[1]), t[2..])) else None
    else if t[0] == '^' then Some((BeginText, t[1..]))
    else if t[0] == '$' then Some((EndText, t[1..]))
    else if t[0] == '.' then Some((AnyNotNewline, t[1..]))
    else if t[0] in META then None
    else Some((Lit(t[0]), t[1..]))
  }

  /** Concatenations of atoms, each optionally starred. */
  function Compile(t: string): Option<Regex>
    decreases |t|
  {
    if t == "" then Some(Empty)
    else
      match ParseAtom(t)
      case None => None
      case Some((atom, rest)) =>
        var starred := rest != "" && rest[0] == '*';
        var item := if starred then Star(atom) else atom;
        var after := if starred then rest[1..] else rest;
        match Compile(after)
        case None => None
        case Some(re) => Some(Cat(item, re))
  }

  /** `re` matches the part of `text` from `i` to `j`. */
  predicate Match(re: Regex, text: string, i: nat, j: nat)
    requires i <= j <= |text|
    decreases re, j - i
  {
    match re
    case Empty => i == j
    case Lit(c) => j == i + 1 && text[i] == c
    case AnyNotNewline => j == i + 1 && text[i] != '\n'
    case BeginText => i == j == 0
    case EndText => i == j == |text|
    case Cat(a, b) => exists k: nat :: i <= k <= j && Match(a, text, i, k) && Match(b, text, k, j)
    case Star(a) => i == j || exists k: nat :: i < k <= j && Match(a, text, i, k) && Match(re, text, k, j)
  }

  /** Regexp.MatchString: a match anywhere in the text. */
  predicate MatchString(re: Regex, text: string) {
    exists i: nat, j: nat :: 0 <= i <= j <= |text| && Match(re, text, i, j)
  }

  /** MatchWildcard as the source computes it. */
  predicate MatchWildcard(pattern: string, value: string) {
    if pattern == "*" then true
    else
      match Compile("^" + Escape(pattern) + "$")
      case None => pattern == value
      case Some(re) => MatchString(re, value)
  }

  // ---- the language of a glob -----------------------------------------------------------

  /** `value` is in the language of the glob, where `*` stands for any run of characters that
      are `ok`, `?` for one such character, and everything else for itself. */
  ghost predicate InGlob(pattern: string, value: string, ok: char -> bool)
    decreases |pattern|
  {
    if pattern == "" then value == ""
    else if pattern[0] == '*' then
      exists k ::
        && 0 <= k <= |value|
        && (forall x :: x in value[..k] ==> ok(x))
        && InGlob(pattern[1..], value[k..], ok)
    else
      && value != ""
      && (if pattern[0] == '?' then ok(value[0]) else value[0] == pattern[0])
      && InGlob(pattern[1..], value[1..], ok)
  }

  predicate NotNewline(c: char) { c != '\n' }

  predicate AnyChar(c: char) { true }

  // ---- the rewriting acts token by token ---------------------------------------------

  /** What one pattern character becomes. */
  function Token(c: char): string {
    if c == '*' then ".*" else if c == '?' then "." else if c in META then ['\\', c] else [c]
  }

  function Tokens(pattern: string): string {
    if pattern == "" then "" else Token(pattern[0]) + Tokens(pattern[1..])
  }

  /** After the first rewriting only `*` has been translated. */
  function HalfTokens(pattern: string): string {
    if pattern == "" then ""
    else (if pattern[0] == '?' then "\\?" else Token(pattern[0])) + HalfTokens(pattern[1..])
  }

  lemma {:induction false} QuoteMetaStart(s: string)
    ensures QuoteMeta(s) != "" ==> QuoteMeta(s)[0] !in "*?"
  {
  }

  lemma {:induction false} HalfTokensStart(s: string)
    ensures HalfTokens(s) != "" ==> HalfTokens(s)[0] !in "*?"
  {
  }

  /** Skipping one character that does not start an occurrence. */
  lemma {:induction false} ReplaceSkip(c: char, rest: string, find: string, with: string)
    requires |find| == 2
    requires c != find[0] || rest == "" || rest[0] != find[1]
    ensures ReplaceAll([c] + rest, find, with) == [c] + ReplaceAll(rest, find, with)
  {
    var s := [c] + rest;
    assert s[1..] == rest;
    assert !HasPrefix(s, find) by {
      assert |s| >= 2 ==> s[..2][0] == s[0] && s[..2][1] == s[1];
    }
  }

  lemma {:induction false} ReplaceHit(rest: string, find: string, with: string)
    requires |find| == 2
    ensures ReplaceAll(find + rest, find, with) == with + ReplaceAll(rest, find, with)
  {
    assert (find + rest)[..2] == find && (find + rest)[2..] == rest;
  }

  /** Skipping an escaped character. */
  lemma ReplaceSkipPair(a: char, b: char, rest: string, find: string, with: string)
    requires |find| == 2 && b != find[1]
    requires b != find[0] || rest == "" || rest[0] != find[1]
    ensures ReplaceAll([a, b] + rest, find, with) == [a, b] + ReplaceAll(rest, find, with)
  {
    var tail := [b] + rest;
    ReplaceSkip(b, rest, find, with);
    ReplaceSkip(a, tail, find, with);
    assert [a, b] + rest == [a] + tail;
    assert [a] + ([b] + ReplaceAll(rest, find, with)) == [a, b] + ReplaceAll(rest, find, with);
  }

  lemma {:induction false} FirstRewrite(p: string)
    ensures ReplaceAll(QuoteMeta(p), "\\*", ".*") == HalfTokens(p)
  {
    if p == "" {
    } else {
      var c, rest := p[0], QuoteMeta(p[1..]);
      FirstRewrite(p[1..]);
      QuoteMetaStart(p[1..]);
      if c == '*' {
        assert QuoteMeta(p) == "\\*" + rest;
        ReplaceHit(rest, "\\*", ".*");
      } else if c in META {
        assert QuoteMeta(p) == ['\\', c] + rest;
        ReplaceSkipPair('\\', c, rest, "\\*", ".*");
      } else {
        ReplaceSkip(c, rest, "\\*", ".*");
      }
    }
  }

  lemma {:induction false} SecondRewrite(p: string)
    ensures ReplaceAll(HalfTokens(p), "\\?", ".") == Tokens(p)
  {
    if p == "" {
    } else {
      var c, rest := p[0], HalfTokens(p[1..]);
      SecondRewrite(p[1..]);
      HalfTokensStart(p[1..]);
      if c == '?' {
        ReplaceHit(rest, "\\?", ".");
      } else if |Token(c)| == 1 {
        ReplaceSkip(c, rest, "\\?", ".");
      } else {
        var a, b := Token(c)[0], Token(c)[1];
        assert HalfTokens(p) == [a, b] + rest && Token(c) == [a, b];
        ReplaceSkipPair(a, b, rest, "\\?", ".");
      }
    }
  }

  /** The two global rewritings of the quoted pattern touch only whole tokens. */
  lemma EscapeIsTokenwise(pattern: string)
    ensures Escape(pattern) == Tokens(pattern)
  {
    FirstRewrite(pattern);
    SecondRewrite(pattern);
  }

  // ---- the compiled expression -------------------------------------------------------

  function Item(c: char): Regex {
    if c == '*' then Star(AnyNotNewline) else if c == '?' then AnyNotNewline else Lit(c)
  }

  function Items(pattern: string): Regex {
    if pattern == "" then Cat(EndText, Empty) else Cat(Item(pattern[0]), Items(pattern[1..]))
  }

  lemma MetaIsPunctuation(c: char)
    requires c in META
    ensures c < '\U{0080}' && !IsAlnum(c)
  {
  }

  /** What the parser reads from one token, up to the star. */
  lemma ParseToken(c: char, rest: string)
    ensures c == '*' ==> ParseAtom(Token(c) + rest) == Some((AnyNotNewline, "*" + rest))
    ensures c != '*' ==> ParseAtom(Token(c) + rest) == Some((Item(c), rest))
  {
    var t := Token(c) + rest;
    if c == '*' {
      assert t[1..] == "*" + rest;
    } else if c == '?' {
      assert t[1..] == rest;
    } else if c in META {
      MetaIsPunctuation(c);
      assert t[2..] == rest;
    } else {
      assert t == [c] + rest && t[1..] == rest;
    }
  }

  lemma CompileStep(t: string, atom: Regex, rest: string)
    requires t != "" && ParseAtom(t) == Some((atom, rest))
    requires rest != "" && rest[0] != '*' && Compile(rest).Some?
    ensures Compile(t) == Some(Cat(atom, Compile(rest).value))
  {
  }

  lemma CompileStarStep(t: string, atom: Regex, rest: string)
    requires t != "" && ParseAtom(t) == Some((atom, "*" + rest)) && Compile(rest).Some?
    ensures Compile(t) == Some(Cat(Star(atom), Compile(rest).value))
  {
    assert ("*" + rest)[1..] == rest;
  }

  lemma {:induction false} CompileTokens(p: string)
    ensures Compile(Tokens(p) + "$") == Some(Items(p))
    ensures (Tokens(p) + "$")[0] != '*'
  {
    if p == "" {
      assert Tokens(p) + "$" == "$" && "$"[1..] == "";
      assert ParseAtom("$") == Some((EndText, ""));
    } else {
      CompileTokens(p[1..]);
      var rest := Tokens(p[1..]) + "$";
      var t := Tokens(p) + "$";
      assert t == Token(p[0]) + rest;
      ParseToken(p[0], rest);
      if p[0] == '*' {
        CompileStarStep(t, AnyNotNewline, rest);
      } else {
        CompileStep(t, Item(p[0]), rest);
      }
    }
  }

  /** Every pattern compiles, so the fallback comparison is never reached. */
  lemma PatternAlwaysCompiles(pattern: string)
    ensures Compile("^" + Escape(pattern) + "$") == Some(Cat(BeginText, Items(pattern)))
  {
    EscapeIsTokenwise(pattern);
    CompileTokens(pattern);
    var rest := Tokens(pattern) + "$";
    var t := "^" + Escape(pattern) + "$";
    assert t == "^" + rest && t[1..] == rest;
    assert ParseAtom(t) == Some((BeginText, rest));
  }

  // ---- meaning ---------------------------------------------------------------------

  lemma {:induction false} StarIsRun(v: string, i: nat, j: nat)
    requires i <= j <= |v|
    ensures Match(Star(AnyNotNewline), v, i, j) <==> forall x :: i <= x < j ==> v[x] != '\n'
    decreases j - i
  {
    if i == j {
    } else {
      StarIsRun(v, i + 1, j);
      if forall x :: i <= x < j ==> v[x] != '\n' {
        assert Match(AnyNotNewline, v, i, i + 1);
      }
    }
  }

  lemma CatSplit(re: Regex, text: string, i: nat, j: nat)
    requires i <= j <= |text| && re.Cat? && Match(re, text, i, j)
    ensures exists k: nat :: i <= k <= j && Match(re.first, text, i, k) && Match(re.second, text, k, j)
  {
  }

  lemma CatSplits(re: Regex, text: string, i: nat, j: nat)
    requires i <= j <= |text| && re.Cat?
    ensures Match(re, text, i, j) <==>
            exists k: nat :: i <= k <= j && Match(re.first, text, i, k) && Match(re.second, text, k, j)
  {
    if Match(re, text, i, j) {
      CatSplit(re, text, i, j);
    }
  }

  lemma {:induction false} ItemsMeanGlob(p: string, v: string, i: nat, j: nat)
    requires i <= j <= |v|
    ensures Match(Items(p), v, i, j) <==> j == |v| && InGlob(p, v[i..], NotNewline)
    decreases |p|
  {
    if p == "" {
      CatSplits(Items(p), v, i, j);
      if i == |v| {
        assert Match(EndText, v, i, i) && Match(Empty, v, i, i);
      }
    } else {
      forall k: nat | i <= k <= j
        ensures Match(Items(p[1..]), v, k, j) <==> j == |v| && InGlob(p[1..], v[i..][k - i..], NotNewline)
      {
        ItemsMeanGlob(p[1..], v, k, j);
        assert v[k..] == v[i..][k - i..];
      }
      CatSplits(Items(p), v, i, j);
      if p[0] == '*' {
        StarItem(p, v, i, j);
      } else {
        CharItem(p, v, i, j);
      }
    }
  }

  lemma CharItem(p: string, v: string, i: nat, j: nat)
    requires i <= j <= |v| && p != "" && p[0] != '*'
    requires forall k: nat :: i <= k <= j ==>
      (Match(Items(p[1..]), v, k, j) <==> j == |v| && InGlob(p[1..], v[i..][k - i..], NotNewline))
    ensures Match(Items(p), v, i, j) <==> j == |v| && InGlob(p, v[i..], NotNewline)
  {
    CatSplits(Items(p), v, i, j);
    if i < j {
      assert v[i..][0] == v[i];
      assert Match(Item(p[0]), v, i, i + 1) <==> if p[0] == '?' then NotNewline(v[i]) else v[i] == p[0];
      assert Match(Items(p[1..]), v, i + 1, j) <==> j == |v| && InGlob(p[1..], v[i..][1..], NotNewline);
    }
  }

  lemma StarItem(p: string, v: string, i: nat, j: nat)
    requires i <= j <= |v| && p != "" && p[0] == '*'
    requires forall k: nat :: i <= k <= j ==>
      (Match(Items(p[1..]), v, k, j) <==> j == |v| && InGlob(p[1..], v[i..][k - i..], NotNewline))
    ensures Match(Items(p), v, i, j) <==> j == |v| && InGlob(p, v[i..], NotNewline)
  {
    var w := v[i..];
    CatSplits(Items(p), v, i, j);
    if Match(Items(p), v, i, j) {
      var k: nat :| i <= k <= j && Match(Star(AnyNotNewline), v, i, k) && Match(Items(p[1..]), v, k, j);
      StarIsRun(v, i, k);
      assert forall x :: x in w[..k - i] ==> NotNewline(x);
    }
    if j == |v| && InGlob(p, w, NotNewline) {
      var n :| 0 <= n <= |w| && (forall x :: x in w[..n] ==> NotNewline(x)) && InGlob(p[1..], w[n..], NotNewline);
      forall x | i <= x < i + n ensures v[x] != '\n' {
        assert v[x] == w[..n][x - i] && w[..n][x - i] in w[..n];
      }
      StarIsRun(v, i, i + n);
      assert Match(Items(p[1..]), v, i + n, j);
    }
  }

  /** Compiling the glob preserves its meaning: the match holds exactly for the lone `*` and
      for the values in the glob's language over newline-free runs. */
  lemma MatchWildcardIsGlob(pattern: string, value: string)
    ensures MatchWildcard(pattern, value) <==> pattern == "*" || InGlob(pattern, value, NotNewline)
  {
    if pattern != "*" {
      PatternAlwaysCompiles(pattern);
      var re := Cat(BeginText, Items(pattern));
      assert value[0..] == value;
      forall i: nat, j: nat | i <= j <= |value|
        ensures Match(re, value, i, j) ==> j == |value| && InGlob(pattern, value, NotNewline)
      {
        CatSplits(re, value, i, j);
        ItemsMeanGlob(pattern, value, 0, j);
      }
      if InGlob(pattern, value, NotNewline) {
        CatSplits(re, value, 0, |value|);
        ItemsMeanGlob(pattern, value, 0, |value|);
        assert Match(BeginText, value, 0, 0);
        assert Match(re, value, 0, |value|);
      }
    }
  }

  // ---- consequences -----------------------------------------------------------------

  lemma {:induction false} NewlineFreeGlobs(pattern: string, value: string)
    requires '\n' !in value
    ensures InGlob(pattern, value, NotNewline) <==> InGlob(pattern, value, AnyChar)
    decreases |pattern|
  {
    if pattern == "" {
    } else {
      forall k | 0 <= k <= |value|
        ensures InGlob(pattern[1..], value[k..], NotNewline) <==> InGlob(pattern[1..], value[k..], AnyChar)
      {
        NewlineFreeGlobs(pattern[1..], value[k..]);
      }
      if pattern[0] == '*' && InGlob(pattern, value, AnyChar) {
        var k :| 0 <= k <= |value| && (forall x :: x in value[..k] ==> AnyChar(x)) &&
                 InGlob(pattern[1..], value[k..], AnyChar);
        assert forall x :: x in value[..k] ==> NotNewline(x);
      }
      if pattern[0] == '*' && InGlob(pattern, value, NotNewline) {
        var k :| 0 <= k <= |value| && (forall x :: x in value[..k] ==> NotNewline(x)) &&
                 InGlob(pattern[1..], value[k..], NotNewline);
        assert forall x :: x in value[..k] ==> AnyChar(x);
      }
    }
  }

  /** A star takes any run the rest of the pattern can follow. */
  lemma StarTakes(rest: string, value: string, k: nat, ok: char -> bool)
    requires k <= |value| && (forall x :: x in value[..k] ==> ok(x)) && InGlob(rest, value[k..], ok)
    ensures InGlob("*" + rest, value, ok)
  {
    assert ("*" + rest)[1..] == rest;
  }

  lemma LoneStarIsPlain(value: string)
    ensures InGlob("*", value, AnyChar)
  {
    assert "*" == "*" + "" && value[|value|..] == "";
    StarTakes("", value, |value|, AnyChar);
  }

  /** On values without a newline the match is the plain glob, `*` being any run at all. */
  lemma PlainGlobOnOneLine(pattern: string, value: string)
    requires '\n' !in value
    ensures MatchWildcard(pattern, value) <==> InGlob(pattern, value, AnyChar)
  {
    MatchWildcardIsGlob(pattern, value);
    NewlineFreeGlobs(pattern, value);
    if pattern == "*" {
      LoneStarIsPlain(value);
    }
  }

  /** A newline separates the two: `a*` does not reach over it, the lone `*` does. */
  lemma NewlineIsNotWild()
    ensures InGlob("a*", "a\n", AnyChar) && !MatchWildcard("a*", "a\n")
    ensures MatchWildcard("*", "a\n")
  {
    var p, v := "a*", "a\n";
    assert p[1..] == "*" && v[1..] == "\n" && "*"[1..] == "" && "\n"[1..] == "";
    assert InGlob("", "\n"[1..], AnyChar);
    assert forall x :: x in "\n"[..1] ==> AnyChar(x);
    assert InGlob("*", "\n", AnyChar);
    MatchWildcardIsGlob(p, v);
    forall k | 0 <= k <= 1 && InGlob("*"[1..], "\n"[k..], NotNewline)
      ensures '\n' in "\n"[..k]
    {
      assert "\n"[..1][0] == '\n';
    }
    assert !InGlob("*", "\n", NotNewline);
  }

  /** Two stars match every text as a plain glob, and only one line when compiled. */
  lemma TwoStarsArePlain(value: string)
    ensures InGlob("**", value, AnyChar)
  {
    assert "**" == "*" + "*" && value[0..] == value;
    LoneStarIsPlain(value);
    StarTakes("*", value, 0, AnyChar);
  }

  lemma TwoStarsStayOnOneLine(value: string)
    requires MatchWildcard("**", value)
    ensures '\n' !in value
  {
    MatchWildcardIsGlob("**", value);
    NewlinesKept("**", value);
    NewlinesMember("**");
    NewlinesMember(value);
  }

  /** The values on which every pattern means the plain glob are exactly those without a newline. */
  lemma PlainForAllPatternsIff(value: string)
    ensures '\n' !in value <==> forall pattern :: MatchWildcard(pattern, value) <==> InGlob(pattern, value, AnyChar)
  {
    if '\n' !in value {
      forall pattern ensures MatchWildcard(pattern, value) <==> InGlob(pattern, value, AnyChar) {
        PlainGlobOnOneLine(pattern, value);
      }
    } else {
      TwoStarsArePlain(value);
      if MatchWildcard("**", value) {
        TwoStarsStayOnOneLine(value);
      }
    }
  }

  function Newlines(s: string): nat {
    if s == "" then 0 else (if s[0] == '\n' then 1 else 0) + Newlines(s[1..])
  }

  lemma {:induction false} NewlinesMember(s: string)
    ensures Newlines(s) > 0 <==> '\n' in s
  {
    if s == "" {
    } else {
      assert s == [s[0]] + s[1..];
      NewlinesMember(s[1..]);
    }
  }

  lemma {:induction false} NewlinesAppend(a: string, b: string)
    ensures Newlines(a + b) == Newlines(a) + Newlines(b)
  {
    if a == "" {
      assert a + b == b;
    } else {
      assert (a + b)[1..] == a[1..] + b;
      NewlinesAppend(a[1..], b);
    }
  }

  /** A compiled wildcard takes no newline, so a match has the newlines the pattern spells. */
  lemma {:induction false} NewlinesKept(pattern: string, value: string)
    requires InGlob(pattern, value, NotNewline)
    ensures Newlines(value) == Newlines(pattern)
    decreases |pattern|
  {
    if pattern == "" {
    } else if pattern[0] == '*' {
      var k :| 0 <= k <= |value| && (forall x :: x in value[..k] ==> NotNewline(x)) &&
               InGlob(pattern[1..], value[k..], NotNewline);
      NewlinesKept(pattern[1..], value[k..]);
      assert value == value[..k] + value[k..];
      NewlinesAppend(value[..k], value[k..]);
      NewlinesMember(value[..k]);
    } else {
      NewlinesKept(pattern[1..], value[1..]);
    }
  }

  predicate IsWild(c: char) { c == '*' || c == '?' }

  predicate HasWild(pattern: string) { '*' in pattern || '?' in pattern }

  /** Every wildcard replaced by a newline. */
  function Broken(pattern: string): string {
    if pattern == "" then ""
    else [if IsWild(pattern[0]) then '\n' else pattern[0]] + Broken(pattern[1..])
  }

  /** It is in the plain language, with a newline too many for the compiled one. */
  lemma {:induction false} BrokenIsPlain(pattern: string)
    ensures InGlob(pattern, Broken(pattern), AnyChar)
    ensures Newlines(Broken(pattern)) >= Newlines(pattern)
    ensures HasWild(pattern) ==> Newlines(Broken(pattern)) > Newlines(pattern)
  {
    if pattern == "" {
    } else {
      BrokenIsPlain(pattern[1..]);
      assert Broken(pattern)[1..] == Broken(pattern[1..]);
      assert pattern == [pattern[0]] + pattern[1..];
      if pattern[0] == '*' {
        StarTakes(pattern[1..], Broken(pattern), 1, AnyChar);
      }
    }
  }

  /** The patterns that mean the plain glob on every value are exactly the lone star and those
      without wildcards. */
  lemma PlainForAllValuesIff(pattern: string)
    ensures pattern == "*" || !HasWild(pattern) <==>
            forall value :: MatchWildcard(pattern, value) <==> InGlob(pattern, value, AnyChar)
  {
    if pattern == "*" || !HasWild(pattern) {
      forall value ensures MatchWildcard(pattern, value) <==> InGlob(pattern, value, AnyChar) {
        if pattern == "*" {
          LoneStarIsPlain(value);
        } else {
          LiteralPattern(pattern, value);
          LiteralGlob(pattern, value, AnyChar);
        }
      }
    } else {
      var value := Broken(pattern);
      BrokenIsPlain(pattern);
      MatchWildcardIsGlob(pattern, value);
      if InGlob(pattern, value, NotNewline) {
        NewlinesKept(pattern, value);
      }
      assert !(MatchWildcard(pattern, value) <==> InGlob(pattern, value, AnyChar));
    }
  }

  lemma {:induction false} LiteralGlob(pattern: string, value: string, ok: char -> bool)
    requires !HasWild(pattern)
    ensures InGlob(pattern, value, ok) <==> value == pattern
  {
    if pattern == "" {
    } else {
      LiteralGlob(pattern[1..], if value == "" then "" else value[1..], ok);
    }
  }

  /** A pattern without wildcards, whatever expression syntax it spells, matches only itself. */
  lemma LiteralPattern(pattern: string, value: string)
    requires !HasWild(pattern)
    ensures InGlob(pattern, value, NotNewline) <==> value == pattern
    ensures MatchWildcard(pattern, value) <==> value == pattern
  {
    MatchWildcardIsGlob(pattern, value);
    LiteralGlob(pattern, value, NotNewline);
  }
}
