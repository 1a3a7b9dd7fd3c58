/**
 The glob matcher of mongoose (match_prefix): `?` stands for one character, `*` for a run without
 slashes, `**` for any run, `$` for the end of the string, and `|` separates alternatives.
 Patterns and strings are C strings, so the character NUL does not occur in them; reading at the
 end gives NUL.
 */
module Glob {
  const NUL: char := '\0'
  const NO_MATCH: int := -1

  ghost predicate CString(s: string) {
    forall i :: 0 <= i < |s| ==> s[i] != NUL
  }

  function CharAt(s: string, i: nat): (c: char) {
    if i < |s| then s[i] else NUL
  }

  /** strcspn(s, "/") */
  function SlashFreeLength(s: string): (n: nat)
    ensures n <= |s|
  {
    if s == "" || s[0] == '/' then 0 else 1 + SlashFreeLength(s[1..])
  }

  /** It stops at the first slash, or at the end. */
  lemma {:induction false} SlashFreeMeaning(s: string)
    ensures '/' !in s[..SlashFreeLength(s)]
    ensures SlashFreeLength(s) < |s| ==> s[SlashFreeLength(s)] == '/'
  {
    if s != "" && s[0] != '/' {
      SlashFreeMeaning(s[1..]);
      var n := SlashFreeLength(s[1..]);
      assert s[..n + 1] == [s[0]] + s[1..][..n];
    }
  }

  /** How many pattern characters a leading star takes, and how far its run may reach. */
  function StarWidth(p: string): (w: nat)
    requires p != "" && p[0] == '*'
    ensures 1 <= w <= |p|
  {
    if CharAt(p, 1) == '*' then 2 else 1
  }

  function StarReach(p: string, s: string): (n: nat)
    requires p != "" && p[0] == '*'
    ensures n <= |s|
  {
    if StarWidth(p) == 2 then |s| else SlashFreeLength(s)
  }

  /**
   What a pattern without alternatives means: it matches the first k characters of s. An end mark
   needs the string to be over and makes the rest of the pattern irrelevant.
   */
  ghost predicate Matches(p: string, s: string, k: nat)
    decreases |p|
  {
    if p == "" then k == 0
    else if p[0] == '$' then s == "" && k == 0
    else if p[0] == '*' then
      exists n :: 0 <= n <= k && n <= StarReach(p, s) && Matches(p[StarWidth(p)..], s[n..], k - n)
    else s != "" && k > 0 && (p[0] == '?' || p[0] == s[0]) && Matches(p[1..], s[1..], k - 1)
  }

  /** What the first token of a pattern takes from the front of the string. */
  ghost predicate TokenTakes(p: string, s: string, n: nat)
    requires p != ""
  {
    && n <= |s|
    && if "**" <= p then true
       else if p[0] == '*' then '/' !in s[..n]
       else n == 1 && (p[0] == '?' || p[0] == s[0])
  }

  /**
   The meaning token by token: an end mark matches the empty rest; any other token takes what it may,
   and the rest of the pattern matches behind that.
   */
  lemma MatchesByTokens(p: string, s: string, k: nat)
    ensures p == "" ==> (Matches(p, s, k) <==> k == 0)
    ensures "$" <= p ==> (Matches(p, s, k) <==> s == "" && k == 0)
    ensures p != "" && p[0] != '$' ==>
      (Matches(p, s, k) <==> exists n: nat :: n <= k && TokenTakes(p, s, n) && Matches(p[if "**" <= p then 2 else 1..], s[n..], k - n))
  {
    if p != "" && p[0] != '$' {
      FirstToken(p, s);
      var w := if "**" <= p then 2 else 1;
      if Matches(p, s, k) {
        var n: nat := TokenOf(p, s, k);
        assert n <= k && TokenTakes(p, s, n) && Matches(p[w..], s[n..], k - n);
      }
      if n: nat :| n <= k && TokenTakes(p, s, n) && Matches(p[w..], s[n..], k - n) {
        TokenMatches(p, s, k, n);
      }
    }
  }

  lemma FirstToken(p: string, s: string)
    requires p != ""
    ensures "**" <= p <==> p[0] == '*' && CharAt(p, 1) == '*'
    ensures p[0] == '*' ==> StarWidth(p) == if "**" <= p then 2 else 1
    ensures p[0] == '*' ==> forall n :: 0 <= n <= |s| ==> (n <= StarReach(p, s) <==> TokenTakes(p, s, n))
  {
    SlashFreeMeaning(s);
    var m := SlashFreeLength(s);
    hide SlashFreeLength;
    assert forall n :: 0 <= n <= m ==> forall c :: c in s[..n] ==> c in s[..m];
    if m < |s| {
      assert forall n :: m < n <= |s| ==> s[..n][m] == '/';
    }
  }

  lemma TokenOf(p: string, s: string, k: nat) returns (n: nat)
    requires p != "" && p[0] != '$' && Matches(p, s, k)
    ensures n <= k && TokenTakes(p, s, n) && Matches(p[if "**" <= p then 2 else 1..], s[n..], k - n)
  {
    FirstToken(p, s);
    hide SlashFreeLength;
    if p[0] == '*' {
      n := StarRun(p, s, k);
    } else {
      n := 1;
    }
  }

  lemma TokenMatches(p: string, s: string, k: nat, n: nat)
    requires p != "" && p[0] != '$' && n <= k && TokenTakes(p, s, n)
    requires Matches(p[if "**" <= p then 2 else 1..], s[n..], k - n)
    ensures Matches(p, s, k)
  {
    FirstToken(p, s);
    hide SlashFreeLength;
  }

  ghost predicate MatchesSomePrefix(p: string, s: string) {
    exists k: nat :: Matches(p, s, k)
  }

  ghost predicate MatchesNonemptyPrefix(p: string, s: string) {
    exists k: nat :: k > 0 && Matches(p, s, k)
  }

  // ---------------------------------------------------------------- the backtracking search

  function Shift(j: nat, r: int): (x: int) {
    if r == NO_MATCH then NO_MATCH else j + r
  }

  /** The result of match_prefix on a pattern without alternatives. */
  function MatchLength(p: string, s: string): (r: int)
    ensures r == NO_MATCH || 0 <= r <= |s|
    decreases |p|, 1, 0
  {
    if p == "" then 0
    else if p[0] == '$' then if s == "" then 0 else NO_MATCH
    else if p[0] == '*' then LongestRun(p[StarWidth(p)..], s, StarReach(p, s))
    else if s != "" && (p[0] == '?' || p[0] == s[0]) then Shift(1, MatchLength(p[1..], s[1..]))
    else NO_MATCH
  }

  /** Tries runs of n, n - 1, ..., 0 characters in front of the rest of the pattern. */
  function LongestRun(rest: string, s: string, n: nat): (r: int)
    requires n <= |s|
    ensures r == NO_MATCH || 0 <= r <= |s|
    decreases |rest|, 2, n
  {
    var r := MatchLength(rest, s[n..]);
    if r != NO_MATCH then n + r else if n == 0 then NO_MATCH else LongestRun(rest, s, n - 1)
  }

  /** No match is reported exactly when no prefix matches, and a reported length is one that matches. */
  lemma {:induction false} MatchLengthMeaning(p: string, s: string)
    ensures MatchLength(p, s) == NO_MATCH <==> !MatchesSomePrefix(p, s)
    ensures MatchLength(p, s) != NO_MATCH ==> Matches(p, s, MatchLength(p, s))
    decreases |p|, 1, 0
  {
    if p == "" {
      assert Matches(p, s, 0);
    } else if p[0] == '$' {
      if s == "" {
        assert Matches(p, s, 0);
      }
    } else if p[0] == '*' {
      var rest, reach := p[StarWidth(p)..], StarReach(p, s);
      LongestRunMeaning(rest, s, reach);
      var r := MatchLength(p, s);
      if r == NO_MATCH {
        forall k: nat | Matches(p, s, k)
          ensures false
        {
          var n := StarRun(p, s, k);
        }
      } else {
        var n :| 0 <= n <= reach && r >= n && Matches(rest, s[n..], r - n);
        assert Matches(p, s, r);
      }
    } else if s != "" && (p[0] == '?' || p[0] == s[0]) {
      MatchLengthMeaning(p[1..], s[1..]);
      var r := MatchLength(p[1..], s[1..]);
      if r == NO_MATCH {
        forall k: nat
          ensures !Matches(p, s, k)
        {
        }
      } else {
        assert Matches(p, s, 1 + r);
      }
    }
  }

  lemma StarRun(p: string, s: string, k: nat) returns (n: nat)
    requires p != "" && p[0] == '*' && Matches(p, s, k)
    ensures n <= k && n <= StarReach(p, s) && Matches(p[StarWidth(p)..], s[n..], k - n)
  {
    n :| 0 <= n <= k && n <= StarReach(p, s) && Matches(p[StarWidth(p)..], s[n..], k - n);
  }

  lemma {:induction false} LongestRunMeaning(rest: string, s: string, n: nat)
    requires n <= |s|
    ensures LongestRun(rest, s, n) == NO_MATCH ==>
      forall m: nat, k: nat {:trigger Matches(rest, s[m..], k)} :: m <= n ==> !Matches(rest, s[m..], k)
    ensures LongestRun(rest, s, n) != NO_MATCH ==>
      exists m: nat :: m <= n && LongestRun(rest, s, n) >= m && Matches(rest, s[m..], LongestRun(rest, s, n) - m)
    decreases |rest|, 2, n
  {
    MatchLengthMeaning(rest, s[n..]);
    var r := MatchLength(rest, s[n..]);
    if r != NO_MATCH {
      assert Matches(rest, s[n..], n + r - n);
    } else if n > 0 {
      LongestRunMeaning(rest, s, n - 1);
    }
  }

  // ---------------------------------------------------------------- the longest match

  /** The run that the search settles on: the longest one behind which the rest still matches. */
  lemma {:induction false} ChosenRun(rest: string, s: string, n: nat) returns (m: nat)
    requires n <= |s| && LongestRun(rest, s, n) != NO_MATCH
    ensures m <= n && MatchLength(rest, s[m..]) != NO_MATCH
    ensures LongestRun(rest, s, n) == m + MatchLength(rest, s[m..])
    ensures forall k :: m < k <= n ==> MatchLength(rest, s[k..]) == NO_MATCH
  {
    hide MatchLength;
    if MatchLength(rest, s[n..]) != NO_MATCH {
      m := n;
    } else {
      m := ChosenRun(rest, s, n - 1);
    }
  }

  lemma {:induction false} SlashFreeFromLater(s: string, d: nat)
    requires d <= SlashFreeLength(s)
    ensures SlashFreeLength(s[d..]) == SlashFreeLength(s) - d
  {
    if d > 0 {
      SlashFreeFromLater(s[1..], d - 1);
      assert s[1..][d - 1..] == s[d..];
    } else {
      assert s[d..] == s;
    }
  }

  /** Where a run may end does not depend on where inside it one starts. */
  lemma ReachFromLater(p: string, s: string, d: nat)
    requires p != "" && p[0] == '*' && d <= StarReach(p, s)
    ensures StarReach(p, s[d..]) == StarReach(p, s) - d
  {
    if StarWidth(p) == 1 {
      SlashFreeFromLater(s, d);
    }
  }

  /** Of two runs that the search settles on, the one with the later start does not end earlier. */
  lemma LaterRunsEndLater(p: string, s: string, d: nat, a: nat, b: nat)
    requires p != "" && p[0] == '*' && d <= |s| && a <= StarReach(p, s) && b <= StarReach(p, s[d..])
    requires MatchLength(p[StarWidth(p)..], s[a..]) != NO_MATCH
    requires forall k :: b < k <= StarReach(p, s[d..]) ==> MatchLength(p[StarWidth(p)..], s[d..][k..]) == NO_MATCH
    ensures a <= d + b
  {
    hide MatchLength;
    if d <= a {
      // otherwise the run from the later start could have been just as long
      ReachFromLater(p, s, d);
      assert s[d..][a - d..] == s[a..];
    }
  }

  /** A match that starts later does not end earlier. */
  lemma {:induction false} LaterStartsEndLater(p: string, s: string, d: nat)
    requires d <= |s| && MatchLength(p, s) != NO_MATCH && MatchLength(p, s[d..]) != NO_MATCH
    ensures MatchLength(p, s) <= d + MatchLength(p, s[d..])
    decreases |p|
  {
    hide LongestRun, StarReach;
    if p != "" && p[0] == '*' {
      var rest := p[StarWidth(p)..];
      var a := ChosenRun(rest, s, StarReach(p, s));
      var b := ChosenRun(rest, s[d..], StarReach(p, s[d..]));
      assert MatchLength(p, s) == a + MatchLength(rest, s[a..]);
      assert MatchLength(p, s[d..]) == b + MatchLength(rest, s[d..][b..]);
      hide MatchLength;
      LaterRunsEndLater(p, s, d, a, b);
      assert s[d..][b..] == s[d + b..] == s[a..][d + b - a..];
      LaterStartsEndLater(rest, s[a..], d + b - a);
    } else if p != "" && p[0] != '$' {
      assert s[d..][1..] == s[1..][d..];
      LaterStartsEndLater(p[1..], s[1..], d);
    }
  }

  /** Backtracking from the longest run down finds the longest match of the whole pattern. */
  lemma {:induction false} NoMatchIsLonger(p: string, s: string, k: nat)
    requires Matches(p, s, k)
    ensures k <= MatchLength(p, s)
    decreases |p|
  {
    hide LongestRun, StarReach;
    if p != "" && p[0] == '*' {
      var rest := p[StarWidth(p)..];
      var n := StarRun(p, s, k);
      NoMatchIsLonger(rest, s[n..], k - n);
      assert MatchLength(p, s) == LongestRun(rest, s, StarReach(p, s));
      hide Matches, MatchLength;
      LongestRunIsAsFar(rest, s, StarReach(p, s), n);
    } else if p != "" && p[0] != '$' {
      NoMatchIsLonger(p[1..], s[1..], k - 1);
    }
  }

  /** The run settled on leads at least as far as any other that the rest can follow. */
  lemma LongestRunIsAsFar(rest: string, s: string, reach: nat, n: nat)
    requires n <= reach <= |s| && MatchLength(rest, s[n..]) != NO_MATCH
    ensures LongestRun(rest, s, reach) >= n + MatchLength(rest, s[n..])
  {
    SomeRunFound(rest, s, reach, n);
    hide MatchLength, LongestRun;
    var m := ChosenRun(rest, s, reach);
    assert s[n..][m - n..] == s[m..];
    LaterStartsEndLater(rest, s[n..], m - n);
  }

  lemma {:induction false} SomeRunFound(rest: string, s: string, reach: nat, n: nat)
    requires n <= reach <= |s| && MatchLength(rest, s[n..]) != NO_MATCH
    ensures LongestRun(rest, s, reach) != NO_MATCH
  {
    if MatchLength(rest, s[reach..]) == NO_MATCH {
      SomeRunFound(rest, s, reach - 1, n);
    }
  }

  /** So the result is determined by the meaning alone: it is the length of the longest matching prefix. */
  lemma LongestMatchExactly(p: string, s: string, k: nat)
    ensures MatchLength(p, s) == k <==> Matches(p, s, k) && forall l: nat :: Matches(p, s, l) ==> l <= k
  {
    hide MatchLength, Matches;
    MatchLengthMeaning(p, s);
    forall l: nat | Matches(p, s, l)
      ensures l <= MatchLength(p, s)
    {
      NoMatchIsLonger(p, s, l);
    }
    if MatchLength(p, s) != NO_MATCH {
      assert Matches(p, s, MatchLength(p, s));
    } else {
      assert !Matches(p, s, k);
    }
  }

  lemma NonemptyMatchExactly(p: string, s: string)
    ensures MatchLength(p, s) > 0 <==> MatchesNonemptyPrefix(p, s)
  {
    hide MatchLength, Matches;
    MatchLengthMeaning(p, s);
    if k: nat :| k > 0 && Matches(p, s, k) {
      NoMatchIsLonger(p, s, k);
    }
  }

  // ---------------------------------------------------------------- alternatives

  /** The position of the first bar, or the length. */
  function FirstBar(p: string): (i: nat)
    ensures i <= |p|
    ensures i < |p| ==> p[i] == '|'
    ensures '|' !in p[..i]
  {
    if p == "" || p[0] == '|' then 0 else 1 + FirstBar(p[1..])
  }

  function Alternatives(p: string): (alts: seq<string>)
    ensures |alts| > 0
    decreases |p|
  {
    var i := FirstBar(p);
    if i == |p| then [p] else [p[..i]] + Alternatives(p[i + 1..])
  }

  function JoinWithBars(alts: seq<string>): (p: string)
    requires alts != []
  {
    if |alts| == 1 then alts[0] else alts[0] + "|" + JoinWithBars(alts[1..])
  }

  /** The alternatives are bar-free and make up the pattern when bars are put between them. */
  lemma {:induction false} AlternativesMeaning(p: string)
    ensures JoinWithBars(Alternatives(p)) == p
    ensures forall i :: 0 <= i < |Alternatives(p)| ==> '|' !in Alternatives(p)[i]
    decreases |p|
  {
    var i := FirstBar(p);
    assert p[..|p|] == p;
    if i < |p| {
      AlternativesMeaning(p[i + 1..]);
      var alts := Alternatives(p);
      assert alts[1..] == Alternatives(p[i + 1..]);
      assert p == p[..i] + "|" + p[i + 1..];
    }
  }

  function PrefixLength(p: string, s: string): (r: int)
    ensures r == NO_MATCH || 0 <= r <= |s|
    decreases |p|
  {
    var i := FirstBar(p);
    if i == |p| then MatchLength(p, s) else
      var r := MatchLength(p[..i], s);
      if r > 0 then r else PrefixLength(p[i + 1..], s)
  }

  /** The alternative that decides: the first one that matches a nonempty prefix, else the last. */
  ghost predicate Decides(alts: seq<string>, s: string, i: nat) {
    && i < |alts|
    && (forall j :: 0 <= j < i ==> !MatchesNonemptyPrefix(alts[j], s))
    && (MatchesNonemptyPrefix(alts[i], s) || i == |alts| - 1)
  }

  lemma {:induction false} PrefixLengthMeaning(p: string, s: string) returns (i: nat)
    ensures Decides(Alternatives(p), s, i)
    ensures PrefixLength(p, s) == MatchLength(Alternatives(p)[i], s)
    decreases |p|
  {
    hide MatchLength, Matches, MatchesNonemptyPrefix;
    var bar := FirstBar(p);
    NonemptyMatchExactly(p[..bar], s);
    assert p[..|p|] == p;
    if bar == |p| || MatchLength(p[..bar], s) > 0 {
      i := 0;
    } else {
      var k := PrefixLengthMeaning(p[bar + 1..], s);
      var alts, rest := Alternatives(p), Alternatives(p[bar + 1..]);
      assert alts == [p[..bar]] + rest;
      i := k + 1;
    }
  }

  /**
   Exactly when match_prefix reports no match: the last alternative matches no prefix at all and
   no other alternative matches a nonempty one.
   */
  lemma NoMatchExactlyWhen(p: string, s: string)
    ensures PrefixLength(p, s) == NO_MATCH <==>
      var alts := Alternatives(p);
      && !MatchesSomePrefix(alts[|alts| - 1], s)
      && (forall j :: 0 <= j < |alts| - 1 ==> !MatchesNonemptyPrefix(alts[j], s))
  {
    hide MatchLength, Matches, PrefixLength;
    var alts := Alternatives(p);
    var i := PrefixLengthMeaning(p, s);
    MatchLengthMeaning(alts[|alts| - 1], s);
    MatchLengthMeaning(alts[i], s);
    NonemptyMatchExactly(alts[i], s);
  }

  /**
   With alternatives, "no match" can be reported although an earlier alternative matches the empty
   prefix: "*|x" on "/".
   */
  lemma EmptyMatchIsForgotten()
    ensures PrefixLength("*|x", "/") == NO_MATCH
    ensures Alternatives("*|x") == ["*", "x"] && Matches("*", "/", 0)
  {
    var p := "*|x";
    assert p[1..] == "|x";
    assert FirstBar("|x") == 0;
    assert p[..1] == "*" && p[2..] == "x";
    assert FirstBar("x") == 1 by { assert "x"[1..] == ""; }
    assert "*"[1..] == "" && "/"[0..] == "/";
    assert MatchLength("", "/") == 0;
    assert MatchLength("*", "/") == 0;
    assert MatchLength("x", "/") == NO_MATCH;
    assert Matches("", "/"[0..], 0);
  }

  // ---------------------------------------------------------------- the code

  /** strlen / strcspn on the rest of the string, then longest run first. */
  method TryRuns(p: string, s: string, len: nat) returns (r: int)
    requires CString(p) && CString(s) && len <= |s|
    requires '|' !in p
    ensures r == LongestRun(p, s, len)
    decreases |p|, 2
  {
    var n := len;
    var res := MatchPrefix(p, s[n..]);
    while res == NO_MATCH && n > 0
      invariant 0 <= n <= len && res == MatchLength(p, s[n..])
      invariant LongestRun(p, s, len) == LongestRun(p, s, n)
    {
      n := n - 1;
      res := MatchPrefix(p, s[n..]);
    }
    return if res == NO_MATCH then NO_MATCH else res + n;
  }

  /** match_prefix */
  method MatchPrefix(p: string, s: string) returns (r: int)
    requires CString(p) && CString(s)
    ensures r == PrefixLength(p, s)
    ensures '|' !in p ==> r == MatchLength(p, s)
    decreases |p|, 1
  {
    var bar := FirstBar(p);
    NoBar(p);
    if bar < |p| {
      var res := MatchPrefix(p[..bar], s);
      if res > 0 {
        return res;
      }
      r := MatchPrefix(p[bar + 1..], s);
      return;
    }
    r := MatchPlain(p, s);
  }

  /** The loop of match_prefix, for a pattern without alternatives. */
  method MatchPlain(p: string, s: string) returns (r: int)
    requires CString(p) && CString(s) && '|' !in p
    ensures r == MatchLength(p, s)
    decreases |p|, 0
  {
    hide LongestRun, SlashFreeLength;
    var i, j := 0, 0;
    assert p[0..] == p && s[0..] == s;
    while i < |p|
      invariant 0 <= i <= |p| && 0 <= j <= |s|
      invariant MatchLength(p, s) == Shift(j, MatchLength(p[i..], s[j..]))
    {
      Unfold(p, i, s, j);
      if p[i] == '?' && CharAt(s, j) != NUL {
      } else if p[i] == '$' {
        return if CharAt(s, j) == NUL then j else NO_MATCH;
      } else if p[i] == '*' {
        i := i + 1;
        var len := |s| - j;
        if CharAt(p, i) == '*' {
          i := i + 1;
        } else {
          len := SlashFreeLength(s[j..]);
        }
        if i == |p| {
          assert p[i..] == "";
          RunToTheEnd(s[j..], len);
          return j + len;
        }
        var res := TryRuns(p[i..], s[j..], len);
        return if res == NO_MATCH then NO_MATCH else j + res;
      } else if p[i] != CharAt(s, j) {
        return NO_MATCH;
      }
      i, j := i + 1, j + 1;
    }
    return j;
  }

  lemma NoBar(p: string)
    ensures FirstBar(p) == |p| <==> '|' !in p
    ensures '|' !in p[..FirstBar(p)]
  {
    assert p[..|p|] == p;
  }

  /** A star at the end of the pattern takes as much as it may. */
  lemma RunToTheEnd(s: string, len: nat)
    requires len <= |s|
    ensures LongestRun("", s, len) == len
  {
  }

  lemma Unfold(p: string, i: nat, s: string, j: nat)
    requires i < |p| && j <= |s| && CString(p) && CString(s)
    ensures p[i..][1..] == p[i + 1..]
    ensures j < |s| ==> s[j..][1..] == s[j + 1..] && s[j..][0] == s[j]
    ensures p[i] == '*' ==>
      var w := if CharAt(p, i + 1) == '*' then 2 else 1;
      && i + w <= |p|
      && MatchLength(p[i..], s[j..]) ==
          LongestRun(p[i + w..], s[j..], if w == 2 then |s| - j else SlashFreeLength(s[j..]))
  {
    if p[i] == '*' {
      var q := p[i..];
      assert CharAt(q, 1) == CharAt(p, i + 1);
      assert q[StarWidth(q)..] == p[i + StarWidth(q)..];
    }
  }
}
