/** The slug normaliser of `internal/handlers/content_handler.go`. */
module Slug {
  import opened Strings

  predicate IsDash(c: char) { c == '-' }

  predicate IsSlugChar(c: char) { 'a' <= c <= 'z' || '0' <= c <= '9' }

  /** strings.Map with the slug's mapping: keep, turn into a dash, or drop. */
  function Keep(s: string): string {
    if s == "" then ""
    else (if IsSlugChar(s[0]) then [s[0]] else if s[0] in " -_" then "-" else "") + Keep(s[1..])
  }

  /** Each run of dashes becomes one dash. */
  function Squeeze(s: string): string {
    if s == "" then ""
    else if |s| >= 2 && s[0] == '-' && s[1] == '-' then Squeeze(s[1..])
    else [s[0]] + Squeeze(s[1..])
  }

  function Slug(title: string): string {
    TrimFunc(Squeeze(Keep(ToLower(TrimSpace(title)))), IsDash)
  }

  /** The length of the dash run at the start of `s`, and of its longest dash run. */
  function Lead(s: string): nat {
    if s != "" && s[0] == '-' then 1 + Lead(s[1..]) else 0
  }

  function LongestRun(s: string): nat {
    if s == "" then 0 else if Lead(s) > LongestRun(s[1..]) then Lead(s) else LongestRun(s[1..])
  }

  /** Halvings, rounded up, until at most one is left. */
  function Rounds(n: nat): nat {
    if n <= 1 then 0 else 1 + Rounds((n + 1) / 2)
  }

  function Pow2(k: nat): nat { if k == 0 then 1 else 2 * Pow2(k - 1) }

  /** Rounds is the base-two logarithm, rounded up. */
  lemma {:induction false} RoundsIsCeilLog2(n: nat)
    ensures n <= Pow2(Rounds(n))
    ensures n >= 2 ==> Rounds(n) >= 1 && Pow2(Rounds(n) - 1) < n
  {
    if n <= 1 {
    } else {
      RoundsIsCeilLog2((n + 1) / 2);
      if (n + 1) / 2 >= 2 {
        assert Pow2(Rounds(n) - 1) == 2 * Pow2(Rounds((n + 1) / 2) - 1);
      }
    }
  }

  // ---- one round -------------------------------------------------------------------

  /** How ReplaceAll(s, "--", "-") starts. */
  lemma OneStep(s: string)
    requires s != ""
    ensures var r := ReplaceAll(s, "--", "-");
            if |s| >= 2 && s[0] == '-' && s[1] == '-' then r == "-" + ReplaceAll(s[2..], "--", "-")
            else r == [s[0]] + ReplaceAll(s[1..], "--", "-")
  {
    if |s| >= 2 {
      assert s[..2] == [s[0], s[1]];
    }
  }

  lemma {:induction false} LeadHalves(s: string)
    ensures Lead(ReplaceAll(s, "--", "-")) == (Lead(s) + 1) / 2
    decreases |s|
  {
    if s == "" {
    } else {
      OneStep(s);
      var r := ReplaceAll(s, "--", "-");
      if |s| >= 2 && s[0] == '-' && s[1] == '-' {
        LeadHalves(s[2..]);
        assert Lead(s) == 2 + Lead(s[2..]) && r[1..] == ReplaceAll(s[2..], "--", "-");
      } else {
        LeadHalves(s[1..]);
        assert r[1..] == ReplaceAll(s[1..], "--", "-");
        assert s[0] == '-' ==> Lead(s[1..]) == 0;
      }
    }
  }

  lemma {:induction false} LeadIsRun(s: string)
    ensures Lead(s) <= LongestRun(s)
  {
  }

  /** A round halves the longest run, rounding up. */
  lemma {:induction false} RunHalves(s: string)
    ensures LongestRun(ReplaceAll(s, "--", "-")) == (LongestRun(s) + 1) / 2
    decreases |s|
  {
    if s == "" {
    } else {
      OneStep(s);
      LeadHalves(s);
      LeadIsRun(s);
      var r := ReplaceAll(s, "--", "-");
      if |s| >= 2 && s[0] == '-' && s[1] == '-' {
        RunHalves(s[2..]);
        LeadIsRun(s[2..]);
        assert r[1..] == ReplaceAll(s[2..], "--", "-");
        assert s[1..][1..] == s[2..];
      } else {
        RunHalves(s[1..]);
        assert r[1..] == ReplaceAll(s[1..], "--", "-");
      }
    }
  }

  lemma SqueezeDash(x: string)
    ensures Squeeze("-" + x) == if x != "" && x[0] == '-' then Squeeze(x) else "-" + Squeeze(x)
  {
    assert ("-" + x)[1..] == x;
  }

  /** A round does not change what squeezing gives. */
  lemma {:induction false} RoundKeepsSqueeze(s: string)
    ensures Squeeze(ReplaceAll(s, "--", "-")) == Squeeze(s)
    decreases |s|
  {
    if s == "" {
    } else {
      OneStep(s);
      var pair := |s| >= 2 && s[0] == '-' && s[1] == '-';
      var rest := if pair then s[2..] else s[1..];
      var r := ReplaceAll(rest, "--", "-");
      RoundKeepsSqueeze(rest);
      LeadHalves(rest);
      assert Lead(rest) > 0 <==> rest != "" && rest[0] == '-';
      assert Lead(r) > 0 <==> r != "" && r[0] == '-';
      if s[0] == '-' {
        SqueezeDash(r);
        SqueezeDash(rest);
        assert pair ==> s[1..] == "-" + rest;
        assert !pair ==> s == "-" + rest;
      } else {
        assert ([s[0]] + r)[1..] == r;
      }
    }
  }

  lemma {:induction false} DoubleDashIsRun(s: string)
    ensures Contains(s, "--") <==> LongestRun(s) >= 2
  {
    if s == "" {
    } else {
      DoubleDashIsRun(s[1..]);
      assert HasPrefix(s, "--") <==> Lead(s) >= 2 by {
        if |s| >= 2 {
          assert s[..2] == [s[0], s[1]];
        }
      }
    }
  }

  lemma {:induction false} SqueezedAlready(s: string)
    requires !Contains(s, "--")
    ensures Squeeze(s) == s
  {
    if s == "" {
    } else {
      SqueezedAlready(s[1..]);
      if |s| >= 2 {
        assert s[..2] == [s[0], s[1]];
      }
    }
  }

  /** slugify. The loop computes one squeeze, in exactly the rounds its longest run needs. */
  method Slugify(title: string) returns (slug: string, ghost rounds: nat)
    ensures slug == Slug(title)
    ensures rounds == Rounds(LongestRun(Keep(ToLower(TrimSpace(title)))))
  {
    var s := Keep(ToLower(TrimSpace(title)));
    ghost var start := s;
    rounds := 0;
    while Contains(s, "--")
      invariant Squeeze(s) == Squeeze(start)
      invariant rounds + Rounds(LongestRun(s)) == Rounds(LongestRun(start))
      decreases LongestRun(s)
    {
      DoubleDashIsRun(s);
      RunHalves(s);
      RoundKeepsSqueeze(s);
      s := ReplaceAll(s, "--", "-");
      rounds := rounds + 1;
    }
    DoubleDashIsRun(s);
    SqueezedAlready(s);
    slug := TrimFunc(s, IsDash);
  }

  // ---- what slugs look like -----------------------------------------------------------

  predicate NoDoubleDash(s: string) {
    forall i :: 0 <= i < |s| - 1 ==> !(s[i] == '-' && s[i + 1] == '-')
  }

  /** Lower-case letters, digits and single dashes, none of them at an end. */
  predicate IsSlug(s: string) {
    && (forall c :: c in s ==> IsSlugChar(c) || c == '-')
    && NoDoubleDash(s)
    && (s != "" ==> s[0] != '-' && s[|s| - 1] != '-')
  }

  lemma {:induction false} KeepShape(s: string)
    ensures forall c :: c in Keep(s) ==> IsSlugChar(c) || c == '-'
  {
    if s == "" {
    } else {
      KeepShape(s[1..]);
    }
  }

  lemma {:induction false} SqueezeShape(s: string)
    requires forall c :: c in s ==> IsSlugChar(c) || c == '-'
    ensures forall c :: c in Squeeze(s) ==> IsSlugChar(c) || c == '-'
    ensures NoDoubleDash(Squeeze(s))
    ensures s != "" ==> Squeeze(s) != "" && Squeeze(s)[0] == s[0]
  {
    if s == "" {
    } else {
      SqueezeShape(s[1..]);
    }
  }

  lemma {:induction false} TrimShape(s: string, drop: char -> bool)
    ensures exists i, j :: 0 <= i <= j <= |s| && TrimFunc(s, drop) == s[i..j]
    ensures var t := TrimFunc(s, drop); t != "" ==> !drop(t[0]) && !drop(t[|t| - 1])
  {
    var i := TrimLeftCut(s, drop);
    var j := TrimRightCut(s[i..], drop);
    assert s[i..][..j] == s[i..i + j];
  }

  lemma {:induction false} TrimLeftCut(s: string, drop: char -> bool) returns (i: nat)
    ensures i <= |s| && TrimLeft(s, drop) == s[i..]
    ensures s[i..] != "" ==> !drop(s[i])
  {
    if s != "" && drop(s[0]) {
      i := TrimLeftCut(s[1..], drop);
      assert s[1..][i..] == s[i + 1..];
      i := i + 1;
    } else {
      i := 0;
    }
  }

  lemma {:induction false} TrimRightCut(s: string, drop: char -> bool) returns (j: nat)
    ensures j <= |s| && TrimRight(s, drop) == s[..j]
    ensures j > 0 ==> !drop(s[j - 1])
  {
    if s != "" && drop(s[|s| - 1]) {
      j := TrimRightCut(s[..|s| - 1], drop);
      assert s[..|s| - 1][..j] == s[..j];
    } else {
      j := |s|;
      assert s[..j] == s;
    }
  }

  lemma SlugIsSlug(title: string)
    ensures IsSlug(Slug(title))
  {
    var k := Keep(ToLower(TrimSpace(title)));
    KeepShape(ToLower(TrimSpace(title)));
    SqueezeShape(k);
    var q := Squeeze(k);
    TrimShape(q, IsDash);
    var i, j :| 0 <= i <= j <= |q| && TrimFunc(q, IsDash) == q[i..j];
    assert forall x :: 0 <= x < j - i ==> q[i..j][x] == q[i + x];
  }

  lemma {:induction false} KeepFixed(s: string)
    requires forall c :: c in s ==> IsSlugChar(c) || c == '-'
    ensures Keep(s) == s
  {
    if s == "" {
    } else {
      KeepFixed(s[1..]);
      assert s[0] in s && s == [s[0]] + s[1..];
    }
  }

  lemma {:induction false} SqueezeFixed(s: string)
    requires NoDoubleDash(s)
    ensures Squeeze(s) == s
  {
    if s == "" {
    } else {
      SqueezeFixed(s[1..]);
    }
  }

  lemma SlugKept(s: string)
    requires IsSlug(s)
    ensures TrimSpace(s) == s && ToLower(s) == s && Keep(s) == s && Squeeze(s) == s
  {
    assert s != "" ==> s[0] in s && s[|s| - 1] in s;
    forall c | c in s ensures LowerChar(c) == c && !IsSpace(c) {
      assert IsSlugChar(c) || c == '-';
    }
    KeepFixed(s);
    SqueezeFixed(s);
  }

  /** Slugs are the fixed points, and nothing else is a result. */
  lemma SlugsAreFixedPoints(s: string)
    ensures IsSlug(s) <==> Slug(s) == s
    ensures IsSlug(s) <==> exists title :: Slug(title) == s
  {
    if IsSlug(s) {
      SlugKept(s);
      assert TrimFunc(s, IsDash) == s;
    }
    forall title | Slug(title) == s ensures IsSlug(s) {
      SlugIsSlug(title);
    }
  }

  // ---- the words of a title -------------------------------------------------------------

  /** The words of a title, read character by character: letters and digits, in lower case, extend
      the current word, separators end it, anything else is skipped. */
  function Words(title: string, word: string): seq<string>
    decreases |title|
  {
    if title == "" then (if word == "" then [] else [word])
    else
      var c := LowerChar(title[0]);
      if IsSlugChar(c) then Words(title[1..], word + [c])
      else if c in " -_" then (if word == "" then [] else [word]) + Words(title[1..], "")
      else Words(title[1..], word)
  }

  predicate AllSlugChars(s: string) {
    forall c :: c in s ==> IsSlugChar(c)
  }

  predicate AllSpace(s: string) {
    forall c :: c in s ==> IsSpace(c)
  }

  lemma SpaceIsNoWord(c: char)
    requires IsSpace(c)
    ensures !IsSlugChar(LowerChar(c))
  {
  }

  lemma {:induction false} WordsSkipSpace(space: string, title: string)
    requires AllSpace(space)
    ensures Words(space + title, "") == Words(title, "")
    decreases |space|
  {
    if space == "" {
      assert space + title == title;
    } else {
      assert space[0] in space;
      SpaceIsNoWord(space[0]);
      WordsSkipSpace(space[1..], title);
      assert (space + title)[1..] == space[1..] + title;
    }
  }

  lemma {:induction false} WordsEndInSpace(title: string, space: string, word: string)
    requires AllSpace(space)
    ensures Words(title + space, word) == Words(title, word)
    decreases |title| + |space|
  {
    if title == "" && space == "" {
    } else if title != "" {
      var c := LowerChar(title[0]);
      assert (title + space)[0] == title[0] && (title + space)[1..] == title[1..] + space;
      WordsEndInSpace(title[1..], space, if IsSlugChar(c) then word + [c] else if c in " -_" then "" else word);
    } else {
      assert space[0] in space && title + space == space;
      SpaceIsNoWord(space[0]);
      WordsEndInSpace("", space[1..], if LowerChar(space[0]) in " -_" then "" else word);
      assert "" + space[1..] == space[1..];
    }
  }

  lemma {:induction false} TrimLeftDrops(s: string, drop: char -> bool) returns (i: nat)
    ensures i <= |s| && TrimLeft(s, drop) == s[i..]
    ensures forall c :: c in s[..i] ==> drop(c)
  {
    i := 0;
    if s == "" || !drop(s[0]) {
    } else {
      i := TrimLeftDrops(s[1..], drop);
      assert s[1..][i..] == s[i + 1..] && s[..i + 1] == [s[0]] + s[1..][..i];
      i := i + 1;
    }
  }

  lemma {:induction false} TrimRightDrops(s: string, drop: char -> bool) returns (j: nat)
    ensures j <= |s| && TrimRight(s, drop) == s[..j]
    ensures forall c :: c in s[j..] ==> drop(c)
  {
    j := |s|;
    assert s[..j] == s;
    if s == "" || !drop(s[|s| - 1]) {
    } else {
      j := TrimRightDrops(s[..|s| - 1], drop);
      assert s[..|s| - 1][..j] == s[..j] && s[j..] == s[..|s| - 1][j..] + [s[|s| - 1]];
    }
  }

  /** Trimming the title first does not change its words. */
  lemma WordsOfTrimmed(title: string)
    ensures Words(TrimSpace(title), "") == Words(title, "")
  {
    var i := TrimLeftDrops(title, IsSpace);
    var tail := title[i..];
    var j := TrimRightDrops(tail, IsSpace);
    assert title == title[..i] + tail && tail == tail[..j] + tail[j..];
    WordsSkipSpace(title[..i], tail);
    WordsEndInSpace(tail[..j], tail[j..], "");
  }

  /** Words of text that is already kept: letters, digits and dashes. */
  lemma {:induction false} WordsOfKept(title: string, word: string)
    ensures Words(title, word) == Words(Keep(ToLower(title)), word)
    decreases |title|
  {
    if title == "" {
    } else {
      var c := LowerChar(title[0]);
      var low := ToLower(title);
      assert low[1..] == ToLower(title[1..]);
      var next := if IsSlugChar(c) then word + [c] else if c in " -_" then "" else word;
      WordsOfKept(title[1..], next);
      var kept := Keep(low);
      assert kept == (if IsSlugChar(c) then [c] else if c in " -_" then "-" else "") + Keep(low[1..]);
      if IsSlugChar(c) {
        assert kept[0] == c && kept[1..] == Keep(low[1..]) && LowerChar(c) == c;
      } else if c in " -_" {
        assert kept[0] == '-' && kept[1..] == Keep(low[1..]) && LowerChar('-') == '-';
      } else {
        assert kept == Keep(low[1..]);
      }
    }
  }

  lemma {:induction false} WordsNotEmpty(s: string, word: string)
    ensures forall w :: w in Words(s, word) ==> w != ""
    decreases |s|
  {
    if s == "" {
    } else {
      var c := LowerChar(s[0]);
      WordsNotEmpty(s[1..], if IsSlugChar(c) then word + [c] else if c in " -_" then "" else word);
    }
  }

  lemma {:induction false} SqueezeAfterWord(word: string, rest: string)
    requires AllSlugChars(word)
    ensures Squeeze(word + rest) == word + Squeeze(rest)
    decreases |word|
  {
    if word == "" {
      assert word + rest == rest;
    } else {
      var s := word + rest;
      assert word[0] in word && s[0] == word[0] && s[1..] == word[1..] + rest;
      SqueezeAfterWord(word[1..], rest);
      assert Squeeze(s) == [s[0]] + Squeeze(s[1..]);
      assert [word[0]] + (word[1..] + Squeeze(rest)) == word + Squeeze(rest);
    }
  }

  lemma {:induction false} TrimRightKeepsHead(head: string, tail: string)
    requires TrimRight(tail, IsDash) != ""
    ensures TrimRight(head + tail, IsDash) == head + TrimRight(tail, IsDash)
    decreases |tail|
  {
    var s := head + tail;
    assert s[|s| - 1] == tail[|tail| - 1];
    if tail[|tail| - 1] != '-' {
    } else {
      assert s[..|s| - 1] == head + tail[..|tail| - 1];
      TrimRightKeepsHead(head, tail[..|tail| - 1]);
    }
  }

  lemma {:induction false} TrimRightOfWord(word: string)
    requires AllSlugChars(word)
    ensures TrimRight(word, IsDash) == word && TrimRight(word + "-", IsDash) == word
  {
    assert word != "" ==> word[|word| - 1] in word;
    assert (word + "-")[..|word|] == word;
  }

  lemma {:induction false} TrimRightNotEmpty(s: string)
    requires s != "" && s[0] != '-'
    ensures TrimRight(s, IsDash) != ""
  {
    if s[|s| - 1] != '-' {
    } else {
      TrimRightNotEmpty(s[..|s| - 1]);
    }
  }

  /** A dash in front is trimmed away again. */
  lemma LeadingDash(rest: string)
    ensures TrimFunc(Squeeze("-" + rest), IsDash) == TrimFunc(Squeeze(rest), IsDash)
  {
    SqueezeDash(rest);
    if rest != "" && rest[0] == '-' {
    } else {
      assert ("-" + Squeeze(rest))[1..] == Squeeze(rest);
    }
  }

  /** Squeezed text has at most one dash to trim in front. */
  lemma TrimLeftOnce(y: string)
    requires NoDoubleDash(y)
    ensures var u := TrimLeft(y, IsDash);
            u == (if y != "" && y[0] == '-' then y[1..] else y) && (u != "" ==> u[0] != '-')
  {
    if |y| > 1 && y[0] == '-' {
      assert y[1] != '-' && y[1..][0] == y[1];
      assert TrimLeft(y, IsDash) == TrimLeft(y[1..], IsDash);
    }
  }

  lemma SqueezeWordDash(word: string, rest: string)
    requires AllSlugChars(word)
    requires forall c :: c in rest ==> IsSlugChar(c) || c == '-'
    ensures var u := TrimLeft(Squeeze(rest), IsDash);
            Squeeze(word + "-" + rest) == word + "-" + u && (u != "" ==> u[0] != '-')
  {
    var y := Squeeze(rest);
    SqueezeShape(rest);
    TrimLeftOnce(y);
    SqueezeDash(rest);
    assert word + "-" + rest == word + ("-" + rest);
    SqueezeAfterWord(word, "-" + rest);
    assert y != "" && y[0] == '-' ==> y == "-" + y[1..];
    assert word + ("-" + TrimLeft(y, IsDash)) == word + "-" + TrimLeft(y, IsDash);
  }

  lemma TrimWordDash(word: string, u: string)
    requires AllSlugChars(word) && word != "" && (u != "" ==> u[0] != '-')
    ensures TrimFunc(word + "-" + u, IsDash) == if u == "" then word else word + "-" + TrimRight(u, IsDash)
    ensures u != "" ==> TrimRight(u, IsDash) != ""
  {
    var s := word + "-" + u;
    assert word[0] in word && s[0] == word[0];
    assert TrimLeft(s, IsDash) == s;
    TrimRightOfWord(word);
    if u == "" {
      assert s == word + "-";
    } else {
      TrimRightNotEmpty(u);
      TrimRightKeepsHead(word + "-", u);
    }
  }

  /** A word, a dash, and more. */
  lemma WordThenDash(word: string, rest: string)
    requires AllSlugChars(word) && word != ""
    requires forall c :: c in rest ==> IsSlugChar(c) || c == '-'
    ensures var m := TrimFunc(Squeeze(rest), IsDash);
            TrimFunc(Squeeze(word + "-" + rest), IsDash) == if m == "" then word else word + "-" + m
  {
    SqueezeWordDash(word, rest);
    TrimWordDash(word, TrimLeft(Squeeze(rest), IsDash));
  }

  lemma {:induction false} KeptJoinsWords(k: string, word: string)
    requires forall c :: c in k ==> IsSlugChar(c) || c == '-'
    requires AllSlugChars(word)
    ensures TrimFunc(Squeeze(word + k), IsDash) == Join(Words(k, word), "-")
    decreases |k|
  {
    if k == "" {
      assert word + k == word && word + "" == word;
      SqueezeAfterWord(word, "");
      assert word != "" ==> word[0] in word;
      TrimRightOfWord(word);
    } else {
      var c, rest := k[0], k[1..];
      assert c in k && LowerChar(c) == c && k == [c] + rest;
      if IsSlugChar(c) {
        KeptJoinsWords(rest, word + [c]);
        assert word + k == word + [c] + rest;
      } else {
        KeptJoinsWords(rest, "");
        assert "" + rest == rest;
        if word == "" {
          LeadingDash(rest);
          assert word + k == "-" + rest;
          assert Words(k, word) == [] + Words(rest, "") == Words(rest, "");
        } else {
          WordThenDash(word, rest);
          assert word + k == word + "-" + rest;
          WordsNotEmpty(rest, "");
          JoinFirst(word, Words(rest, ""));
        }
      }
    }
  }

  lemma JoinFirst(word: string, words: seq<string>)
    requires forall w :: w in words ==> w != ""
    ensures Join([word] + words, "-") == if Join(words, "-") == "" then word else word + "-" + Join(words, "-")
  {
    assert ([word] + words)[1..] == words;
    if words != [] {
      assert words[0] in words;
      assert |Join(words, "-")| >= |words[0]|;
    }
  }

  /** A slug is the words of its title, joined by single dashes. */
  lemma SlugJoinsWords(title: string)
    ensures Slug(title) == Join(Words(title, ""), "-")
  {
    var k := Keep(ToLower(TrimSpace(title)));
    KeepShape(ToLower(TrimSpace(title)));
    WordsOfTrimmed(title);
    WordsOfKept(TrimSpace(title), "");
    KeptJoinsWords(k, "");
    assert "" + k == k;
  }

  predicate IsWord(s: string) {
    s != "" && forall c :: c in s ==> 'a' <= c <= 'z' || '0' <= c <= '9'
  }

  lemma {:induction false} WordsOfWord(a: string, rest: string, word: string)
    requires AllSlugChars(a)
    ensures Words(a + rest, word) == Words(rest, word + a)
    decreases |a|
  {
    if a == "" {
      assert a + rest == rest && word + a == word;
    } else {
      var all := a + rest;
      assert a[0] in a && all[0] == a[0] && all[1..] == a[1..] + rest && LowerChar(a[0]) == a[0];
      assert AllSlugChars(a[1..]);
      WordsOfWord(a[1..], rest, word + [a[0]]);
      assert word + [a[0]] + a[1..] == word + a;
    }
  }

  lemma WordsBetween(a: string, x: char, b: string)
    requires AllSlugChars(a) && AllSlugChars(b) && a != "" && b != ""
    ensures var low := LowerChar(x);
            Words(a + [x] + b, "") ==
            if IsSlugChar(low) then [a + [low] + b] else if low in " -_" then [a, b] else [a + b]
  {
    var rest, low := [x] + b, LowerChar(x);
    assert a + [x] + b == a + rest && rest[0] == x && rest[1..] == b && "" + a == a && b + "" == b;
    WordsOfWord(a, rest, "");
    var next := if IsSlugChar(low) then a + [low] else if low in " -_" then "" else a;
    WordsOfWord(b, "", next);
    assert Words("", next + b) == [next + b];
    if next == "" {
      assert next + b == b && [a] + [b] == [a, b];
    }
  }

  /** What one character between two words does: a space, dash or underscore separates them, a
      letter or digit joins them in lower case, and any other character vanishes. */
  lemma CharBetweenWords(a: string, x: char, b: string)
    requires IsWord(a) && IsWord(b)
    ensures var low := LowerChar(x);
            Slug(a + [x] + b) ==
            if x == ' ' || x == '-' || x == '_' then a + "-" + b
            else if 'a' <= low <= 'z' || '0' <= low <= '9' then a + [low] + b
            else a + b
  {
    assert AllSlugChars(a) && AllSlugChars(b);
    SlugJoinsWords(a + [x] + b);
    WordsBetween(a, x, b);
    assert [a, b][1..] == [b] && Join([b], "-") == b && Join([a, b], "-") == a + "-" + b;
  }
}
