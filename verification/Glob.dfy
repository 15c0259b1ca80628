/** Glob patterns: the texts they match, whatever way of finding that out. */
module Globs {
  /** What a star leads to: a double star counts as one. */
  function AfterStar(p: string): string
    requires p != [] && p[0] == '*'
  {
    if |p| > 1 && p[1] == '*' then p[2..] else p[1..]
  }

  /** The characters before the first slash. */
  function UpToSlash(s: string): (n: nat)
    ensures n <= |s| && (n < |s| ==> s[n] == '/') && '/' !in s[..n]
  {
    if s == [] || s[0] == '/' then 0 else 1 + UpToSlash(s[1..])
  }

  /** How far a star may reach into s: a single one stops at a slash. */
  function Reach(p: string, s: string): (n: nat)
    requires p != [] && p[0] == '*'
    ensures n <= |s|
  {
    if |p| > 1 && p[1] == '*' then |s| else UpToSlash(s)
  }

  /** Pattern p, which has no bar, matches the first n characters of s. A question mark stands for any
      character, a star for any number of them within its reach, and a dollar for the end of s; what
      follows a dollar is ignored. */
  ghost predicate Matches(p: string, s: string, n: nat)
    decreases |p|
  {
    if p == [] then n == 0
    else if p[0] == '$' then n == 0 && s == []
    else if p[0] == '*' then exists k :: 0 <= k <= n && k <= Reach(p, s) && Matches(AfterStar(p), s[k..], n - k)
    else n > 0 && s != [] && (p[0] == '?' || p[0] == s[0]) && Matches(p[1..], s[1..], n - 1)
  }

  ghost predicate Matchable(p: string, s: string) {
    exists n: nat :: Matches(p, s, n)
  }

  lemma {:induction false} MatchesWithin(p: string, s: string, n: nat)
    requires Matches(p, s, n)
    ensures n <= |s|
    decreases |p|
  {
    if p == [] || p[0] == '$' {
    } else if p[0] == '*' {
      var k :| 0 <= k <= n && k <= Reach(p, s) && Matches(AfterStar(p), s[k..], n - k);
      hide Matches;
      MatchesWithin(AfterStar(p), s[k..], n - k);
    } else {
      MatchesWithin(p[1..], s[1..], n - 1);
    }
  }

  /** The most characters, up to the limit, that a star can take and leave a text that matches the rest. */
  ghost function Most(rest: string, s: string, limit: nat): (k: nat)
    requires limit <= |s| && exists k :: 0 <= k <= limit && Matchable(rest, s[k..])
    ensures k <= limit && Matchable(rest, s[k..]) && forall m :: k < m <= limit ==> !Matchable(rest, s[m..])
  {
    if Matchable(rest, s[limit..]) then limit else Most(rest, s, limit - 1)
  }

  /** The length of the match in which every star, from left to right, takes as much as it can. */
  ghost function Greedy(p: string, s: string): nat
    requires Matchable(p, s)
    decreases |p|
  {
    if p == [] || p[0] == '$' then 0
    else if p[0] == '*' then
      var rest := AfterStar(p);
      StarMatchable(p, s);
      var k := Most(rest, s, Reach(p, s));
      k + Greedy(rest, s[k..])
    else
      LiteralMatchable(p, s);
      1 + Greedy(p[1..], s[1..])
  }

  lemma StarMatchable(p: string, s: string)
    requires p != [] && p[0] == '*'
    ensures Matchable(p, s) <==> exists k :: 0 <= k <= Reach(p, s) && Matchable(AfterStar(p), s[k..])
  {
    if Matchable(p, s) {
      var n: nat :| Matches(p, s, n);
      var k :| 0 <= k <= n && k <= Reach(p, s) && Matches(AfterStar(p), s[k..], n - k);
      assert Matchable(AfterStar(p), s[k..]);
    }
    if k: nat :| k <= Reach(p, s) && Matchable(AfterStar(p), s[k..]) {
      var n: nat :| Matches(AfterStar(p), s[k..], n);
      StarTakes(p, s, k, n);
    }
  }

  /** For a character other than the dollar and the star. */
  lemma LiteralMatchable(p: string, s: string)
    requires p != [] && p[0] != '*' && p[0] != '$'
    ensures Matchable(p, s) <==> s != [] && (p[0] == '?' || p[0] == s[0]) && Matchable(p[1..], s[1..])
  {
    if Matchable(p, s) {
      var n: nat :| Matches(p, s, n);
      assert Matches(p[1..], s[1..], n - 1);
    }
    if s != [] && (p[0] == '?' || p[0] == s[0]) && Matchable(p[1..], s[1..]) {
      var n: nat :| Matches(p[1..], s[1..], n);
      assert Matches(p, s, n + 1);
    }
  }

  /** The greedy match is a match. */
  lemma {:induction false} GreedyMatches(p: string, s: string)
    requires Matchable(p, s)
    ensures Matches(p, s, Greedy(p, s))
    decreases |p|
  {
    if p == [] || p[0] == '$' {
    } else if p[0] == '*' {
      StarMatchable(p, s);
      var k := Most(AfterStar(p), s, Reach(p, s));
      hide Reach, Most, Matchable, Matches;
      GreedyMatches(AfterStar(p), s[k..]);
      StarTakes(p, s, k, Greedy(AfterStar(p), s[k..]));
    } else {
      LiteralMatchable(p, s);
      hide Matchable;
      GreedyMatches(p[1..], s[1..]);
    }
  }

  lemma StarTakes(p: string, s: string, k: nat, n: nat)
    requires p != [] && p[0] == '*' && k <= Reach(p, s) && Matches(AfterStar(p), s[k..], n)
    ensures Matches(p, s, k + n)
  {
    assert k + n - k == n;
  }

  /** It is empty only if every match is. */
  lemma {:induction false} GreedyIsPositive(p: string, s: string, n: nat)
    requires n > 0 && Matches(p, s, n)
    ensures Matchable(p, s) && Greedy(p, s) > 0
    decreases |p|
  {
    assert Matchable(p, s);
    if p[0] == '*' {
      StarMatchable(p, s);
      var rest := AfterStar(p);
      var k := Most(rest, s, Reach(p, s));
      if k == 0 {
        var m :| 0 <= m <= n && m <= Reach(p, s) && Matches(rest, s[m..], n - m);
        assert Matchable(rest, s[m..]);
        assert m == 0 && s[0..] == s;
        GreedyIsPositive(rest, s, n);
      }
    }
  }

  // ----- alternatives

  /** The alternatives between the bars. */
  function Alternatives(p: string): (alts: seq<string>)
    ensures alts != []
    decreases |p|
  {
    var bar := FirstBar(p);
    if bar == |p| then [p] else [p[..bar]] + Alternatives(p[bar + 1..])
  }

  function FirstBar(p: string): (bar: nat)
    ensures bar <= |p| && '|' !in p[..bar] && (bar < |p| ==> p[bar] == '|')
  {
    if p == [] || p[0] == '|' then 0 else 1 + FirstBar(p[1..])
  }

  /** The length of the greedy match, or -1. */
  ghost function Result(p: string, s: string): (res: int)
    ensures res >= -1
  {
    if Matchable(p, s) then Greedy(p, s) else -1
  }

  /** None of the first n alternatives matches a nonempty text. */
  ghost predicate NonePositive(alts: seq<string>, s: string, n: nat) {
    forall b :: 0 <= b < n && b < |alts| ==> Result(alts[b], s) <= 0
  }

  ghost predicate DecidedBy(alts: seq<string>, s: string, a: nat, res: int)
    requires a < |alts|
  {
    res == Result(alts[a], s) > 0 && NonePositive(alts, s, a)
  }

  /** What match_prefix is to return: the first alternative that matches a nonempty text decides, or if none
      does the last one. */
  ghost predicate Decides(alts: seq<string>, s: string, res: int)
    requires alts != []
  {
    || (NonePositive(alts, s, |alts|) && res == Result(alts[|alts| - 1], s))
    || exists a :: 0 <= a < |alts| && DecidedBy(alts, s, a, res)
  }

  /** The first of several alternatives decides if it matches a nonempty text, otherwise the rest do. */
  lemma DecidesByFirst(p: string, s: string, res: int)
    requires FirstBar(p) < |p|
    requires var bar := FirstBar(p);
             var first := Result(p[..bar], s);
             if first > 0 then res == first else Decides(Alternatives(p[bar + 1..]), s, res)
    ensures Decides(Alternatives(p), s, res)
  {
    hide Result, Decides, FirstBar;
    var bar := FirstBar(p);
    DecidesInTurn(p[..bar], Alternatives(p[bar + 1..]), s, res);
  }

  lemma DecidesInTurn(first: string, rest: seq<string>, s: string, res: int)
    requires rest != []
    requires if Result(first, s) > 0 then res == Result(first, s) else Decides(rest, s, res)
    ensures Decides([first] + rest, s, res)
  {
    hide Result;
    var alts := [first] + rest;
    assert alts[0] == first;
    if Result(first, s) > 0 {
      assert DecidedBy(alts, s, 0, res);
    } else if a :| 0 <= a < |rest| && DecidedBy(rest, s, a, res) {
      NonePositiveBefore(first, rest, s, a);
      assert DecidedBy(alts, s, a + 1, res);
    } else {
      NonePositiveBefore(first, rest, s, |rest|);
    }
  }

  lemma NonePositiveBefore(first: string, rest: seq<string>, s: string, n: nat)
    requires Result(first, s) <= 0 && NonePositive(rest, s, n)
    ensures NonePositive([first] + rest, s, n + 1)
  {
    hide Result;
    var alts := [first] + rest;
    forall b | 0 <= b < n + 1 && b < |alts|
      ensures Result(alts[b], s) <= 0
    {
      assert b > 0 ==> alts[b] == rest[b - 1];
    }
  }

  ghost predicate SomeMatchable(alts: seq<string>, s: string) {
    exists a :: 0 <= a < |alts| && Matchable(alts[a], s)
  }

  ghost predicate SomeMatches(alts: seq<string>, s: string, n: nat) {
    exists a :: 0 <= a < |alts| && Matches(alts[a], s, n)
  }

  /** Some alternative matches a nonempty text exactly if the result is positive, and then the result is the
      length of a match. */
  lemma PositiveIffMatched(p: string, s: string, res: int)
    requires Decides(Alternatives(p), s, res)
    ensures res > 0 <==> exists n: nat :: n > 0 && SomeMatches(Alternatives(p), s, n)
    ensures res > 0 ==> SomeMatches(Alternatives(p), s, res)
  {
    hide Alternatives, Result, Matches;
    var alts := Alternatives(p);
    if n: nat :| n > 0 && SomeMatches(alts, s, n) {
      var a :| 0 <= a < |alts| && Matches(alts[a], s, n);
      ResultIsPositive(alts[a], s, n);
    }
    if a :| 0 <= a < |alts| && DecidedBy(alts, s, a, res) {
      ResultMatches(alts[a], s);
      var n: nat := res;
      assert SomeMatches(alts, s, n);
    }
  }

  lemma ResultIsPositive(p: string, s: string, n: nat)
    requires n > 0 && Matches(p, s, n)
    ensures Result(p, s) > 0
  {
    GreedyIsPositive(p, s, n);
  }

  lemma ResultMatches(p: string, s: string)
    ensures Result(p, s) >= 0 <==> Matchable(p, s)
    ensures Result(p, s) >= 0 ==> Matches(p, s, Result(p, s))
  {
    if Matchable(p, s) {
      GreedyMatches(p, s);
    }
  }

  /** A result that is not -1 is the length of a match, and no result is longer than the text. */
  lemma NonnegativeIsMatch(p: string, s: string, res: int)
    requires Decides(Alternatives(p), s, res)
    ensures -1 <= res <= |s| && (res >= 0 ==> SomeMatches(Alternatives(p), s, res))
  {
    hide Alternatives, Result, Matches, Matchable;
    var alts := Alternatives(p);
    var a :| 0 <= a < |alts| && res == Result(alts[a], s);
    ResultMatches(alts[a], s);
    if res >= 0 {
      MatchesWithin(alts[a], s, res);
    }
  }

  /** Without a bar, the result tells matching from not matching. */
  lemma NonnegativeIffMatchable(p: string, s: string, res: int)
    requires '|' !in p && Decides(Alternatives(p), s, res)
    ensures res >= 0 <==> Matchable(p, s)
    ensures res >= 0 ==> Matches(p, s, res)
  {
    hide Result, Matches, Matchable;
    assert Alternatives(p) == [p] && [p][0] == p;
    ResultMatches(p, s);
  }

  /** With bars, the result is nonnegative exactly if some alternative has a nonempty match or the last one
      matches. */
  lemma NonnegativeIff(p: string, s: string, res: int)
    requires Decides(Alternatives(p), s, res)
    ensures var alts := Alternatives(p);
            res >= 0 <==> Matchable(alts[|alts| - 1], s) || exists n: nat :: n > 0 && SomeMatches(alts, s, n)
  {
    hide Alternatives, Result, Matches, Matchable;
    PositiveIffMatched(p, s, res);
    var alts := Alternatives(p);
    ResultMatches(alts[|alts| - 1], s);
  }

  /** What matches the empty prefix of s can be read off the pattern: nothing but stars, and a dollar after them
      only if s is empty. */
  predicate OnlyStars(p: string, s: string)
    decreases |p|
  {
    p == [] || (p[0] == '$' && s == []) || (p[0] == '*' && OnlyStars(AfterStar(p), s))
  }

  lemma {:induction false} EmptyMatchIff(p: string, s: string)
    ensures Matches(p, s, 0) <==> OnlyStars(p, s)
    decreases |p|
  {
    if p != [] && p[0] == '*' {
      EmptyMatchIff(AfterStar(p), s);
      assert s[0..] == s;
      if Matches(AfterStar(p), s, 0) {
        StarTakes(p, s, 0, 0);
      }
    }
  }

  /** No alternative before the last matches an empty prefix. */
  predicate NoneEmptyBeforeLast(alts: seq<string>, s: string) {
    forall a :: 0 <= a < |alts| - 1 ==> !OnlyStars(alts[a], s)
  }

  /** An empty match of an alternative other than the last is lost. If there is none, the result tells matching from
      not matching with bars as well. */
  lemma NonnegativeIffSomeMatchable(p: string, s: string, res: int)
    requires Decides(Alternatives(p), s, res) && NoneEmptyBeforeLast(Alternatives(p), s)
    ensures res >= 0 <==> SomeMatchable(Alternatives(p), s)
  {
    TellsMatchingIff(p, s, res);
  }

  /** In general it does so exactly if there is no such alternative, or the last alternative matches, or some
      alternative has a nonempty match. */
  lemma TellsMatchingIff(p: string, s: string, res: int)
    requires Decides(Alternatives(p), s, res)
    ensures var alts := Alternatives(p);
            (res >= 0 <==> SomeMatchable(alts, s)) <==>
              NoneEmptyBeforeLast(alts, s) || Matchable(alts[|alts| - 1], s) ||
              exists n: nat :: n > 0 && SomeMatches(alts, s, n)
  {
    hide Alternatives, Decides, Matches, OnlyStars;
    var alts := Alternatives(p);
    NonnegativeIff(p, s, res);
    if a :| 0 <= a < |alts| - 1 && OnlyStars(alts[a], s) {
      EmptyMatchIff(alts[a], s);
      assert Matchable(alts[a], s);
    }
    if a :| 0 <= a < |alts| && Matchable(alts[a], s) {
      var n: nat :| Matches(alts[a], s, n);
      EmptyMatchIff(alts[a], s);
      assert n > 0 ==> SomeMatches(alts, s, n);
    }
  }

  /** For one, the first alternative of "*|x" matches an empty prefix of "/", and the only result is -1. */
  lemma LostEmptyMatch(res: int)
    requires Decides(Alternatives("*|x"), "/", res)
    ensures SomeMatchable(Alternatives("*|x"), "/") && res == -1
  {
    hide Decides, Alternatives, Matches;
    StarOrX();
    StarAtSlash();
    XAtSlash();
    var alts := ["*", "x"];
    assert alts[0] == "*" && alts[1] == "x";
    assert Matches("*", "/", 0) && Matchable("*", "/");
    NonnegativeIff("*|x", "/", res);
    NonnegativeIsMatch("*|x", "/", res);
  }

  lemma StarOrX()
    ensures Alternatives("*|x") == ["*", "x"]
  {
    assert FirstBar("*|x") == 1 && "*|x"[..1] == "*" && "*|x"[2..] == "x";
    assert FirstBar("x") == 1 && Alternatives("x") == ["x"];
  }

  lemma StarAtSlash()
    ensures forall n: nat :: Matches("*", "/", n) <==> n == 0
  {
    assert AfterStar("*") == [] && UpToSlash("/") == 0;
    EmptyMatchIff("*", "/");
  }

  lemma XAtSlash()
    ensures forall n: nat :: !Matches("x", "/", n)
  {}
}

/** The backtracking matcher. */
module MatchPrefix {
  import opened Globs

  /** The character of a NUL-terminated string. */
  function At(s: string, i: nat): char
    requires i <= |s|
  {
    if i < |s| then s[i] else '\0'
  }

  /** The place of the first bar, or the length. */
  method Memchr(pattern: string) returns (bar: nat)
    ensures bar == FirstBar(pattern)
  {
    bar := 0;
    while bar < |pattern| && pattern[bar] != '|'
      invariant bar <= |pattern| && FirstBar(pattern) == bar + FirstBar(pattern[bar..])
    {
      assert pattern[bar..][1..] == pattern[bar + 1..];
      bar := bar + 1;
    }
  }

  method Strcspn(s: string) returns (n: nat)
    ensures n == UpToSlash(s)
  {
    n := 0;
    while n < |s| && s[n] != '/'
      invariant n <= |s| && UpToSlash(s) == n + UpToSlash(s[n..])
    {
      assert s[n..][1..] == s[n + 1..];
      n := n + 1;
    }
  }

  /** The length of the prefix of str that the pattern matches, or -1. The character in memory after the
      pattern is never a star: with the callers it is a NUL, a comma or an equals sign, and with the recursive
      call a bar. str ends with a NUL. */
  method MatchPrefix(pattern: string, after: char, str: string) returns (res: int)
    requires after != '*' && '\0' !in pattern && '\0' !in str
    ensures Decides(Alternatives(pattern), str, res) && -1 <= res <= |str|
    decreases |pattern|, 2
  {
    var bar := Memchr(pattern);
    if bar < |pattern| {
      res := MatchPrefix(pattern[..bar], '|', str);
      OneAlternative(pattern[..bar], str, res);
      if res <= 0 {
        res := MatchPrefix(pattern[bar + 1..], after, str);
      }
      DecidesByFirst(pattern, str, res);
    } else {
      res := MatchOne(pattern, after, str);
      OneAlternative(pattern, str, res);
    }
    NonnegativeIsMatch(pattern, str, res);
  }

  lemma OneAlternative(p: string, s: string, res: int)
    requires '|' !in p
    ensures Decides(Alternatives(p), s, res) <==> res == Result(p, s)
  {
    hide Result;
    assert Alternatives(p) == [p];
    OnlyDecides(p, s, res);
  }

  lemma OnlyDecides(p: string, s: string, res: int)
    ensures Decides([p], s, res) <==> res == Result(p, s)
  {
    hide Result;
    var alts := [p];
    assert alts[0] == p;
    if res == Result(p, s) && res > 0 {
      assert DecidedBy(alts, s, 0, res);
    }
  }

  function Shifted(j: nat, res: int): int {
    if res == -1 then -1 else j + res
  }

  /** A pattern without bars. */
  method MatchOne(pattern: string, after: char, str: string) returns (res: int)
    requires '|' !in pattern && after != '*' && '\0' !in pattern && '\0' !in str
    ensures res == Result(pattern, str)
    decreases |pattern|, 1
  {
    hide Matches, Matchable, Greedy, Result;
    var i, j := 0, 0;
    while i < |pattern|
      invariant 0 <= i <= |pattern| && 0 <= j <= |str|
      invariant Result(pattern, str) == Shifted(j, Result(pattern[i..], str[j..]))
    {
      var p, s := pattern[i..], str[j..];
      if pattern[i] == '?' && At(str, j) != '\0' {
        ResultOfLiteral(p, s);
      } else if pattern[i] == '$' {
        ResultOfDollar(p, s);
        return if At(str, j) == '\0' then j else -1;
      } else if pattern[i] == '*' {
        res := MatchStar(pattern, after, str, i, j);
        return;
      } else if pattern[i] != At(str, j) {
        ResultOfLiteral(p, s);
        return -1;
      } else {
        ResultOfLiteral(p, s);
      }
      assert p[1..] == pattern[i + 1..] && s[1..] == str[j + 1..];
      i, j := i + 1, j + 1;
    }
    ResultOfNothing(pattern[i..], str[j..]);
    return j;
  }

  /** The star at place i: tries the longest stretch first. */
  method MatchStar(pattern: string, after: char, str: string, star: nat, j: nat) returns (res: int)
    requires '|' !in pattern && after != '*' && '\0' !in pattern && '\0' !in str
    requires star < |pattern| && pattern[star] == '*' && j <= |str|
    ensures res == Shifted(j, Result(pattern[star..], str[j..]))
    decreases |pattern|, 0
  {
    hide Matches, Matchable, Greedy, Result;
    ghost var p, s := pattern[star..], str[j..];
    var i := star + 1;
    var len;
    if (if i < |pattern| then pattern[i] else after) == '*' {
      i := i + 1;
      len := |str[j..]|;
    } else {
      len := Strcspn(str[j..]);
    }
    assert AfterStar(p) == pattern[i..] && len == Reach(p, s);
    if i == |pattern| {
      ResultOfLastStar(p, s);
      return j + len;
    }
    ghost var reach := len;
    assert s[len..] == str[j + len..];
    res := MatchPrefix(pattern[i..], after, str[j + len..]);
    OneAlternative(pattern[i..], str[j + len..], res);
    while res == -1 && len > 0
      invariant 0 <= len <= reach && res == Result(pattern[i..], s[len..])
      invariant forall m :: len < m <= reach ==> Result(pattern[i..], s[m..]) == -1
    {
      len := len - 1;
      assert s[len..] == str[j + len..];
      res := MatchPrefix(pattern[i..], after, str[j + len..]);
      OneAlternative(pattern[i..], str[j + len..], res);
    }
    ResultOfStar(p, s, len, res);
    return if res == -1 then -1 else j + res + len;
  }

  lemma ResultOfNothing(p: string, s: string)
    requires p == []
    ensures Result(p, s) == 0
  {
    assert Matches(p, s, 0);
  }

  lemma ResultOfDollar(p: string, s: string)
    requires p != [] && p[0] == '$'
    ensures Result(p, s) == if s == [] then 0 else -1
  {
    assert s == [] ==> Matches(p, s, 0);
  }

  lemma ResultOfLiteral(p: string, s: string)
    requires p != [] && p[0] != '$' && p[0] != '*'
    ensures Result(p, s) == if s != [] && (p[0] == '?' || p[0] == s[0]) then Shifted(1, Result(p[1..], s[1..])) else -1
  {
    LiteralMatchable(p, s);
  }

  lemma ResultOfLastStar(p: string, s: string)
    requires p != [] && p[0] == '*' && AfterStar(p) == []
    ensures Result(p, s) == Reach(p, s)
  {
    StarMatchable(p, s);
    ResultOfNothing([], s[Reach(p, s)..]);
    assert Matchable(AfterStar(p), s[Reach(p, s)..]);
  }

  /** The longest stretch after which the rest matches is the one that counts. */
  lemma ResultOfStar(p: string, s: string, len: nat, res: int)
    requires p != [] && p[0] == '*' && len <= Reach(p, s) && res == Result(AfterStar(p), s[len..])
    requires forall m :: len < m <= Reach(p, s) ==> Result(AfterStar(p), s[m..]) == -1
    requires res == -1 ==> len == 0
    ensures Result(p, s) == Shifted(len, res)
  {
    StarMatchable(p, s);
    var rest := AfterStar(p);
    assert forall m :: len < m <= Reach(p, s) ==> !Matchable(rest, s[m..]);
    if res != -1 {
      assert Matchable(rest, s[len..]);
      assert Most(rest, s, Reach(p, s)) == len;
    } else {
      assert !Matchable(rest, s[len..]);
    }
  }
}
