/** The wildcard matcher match_pattern (misc.c). The lower-casing of the C library is a parameter. */
module Glob {

  /** The meaning of a pattern from position `j` on, against a string from position `i` on:
      '*' stands for any run of characters, '?' for one, anything else for itself up to case. */
  ghost predicate Matches(fold: char -> char, s: string, p: string, i: nat, j: nat)
    requires i <= |s| && j <= |p|
    decreases |s| - i + |p| - j
  {
    if j == |p| then i == |s|
    else if p[j] == '*' then
      Matches(fold, s, p, i, j + 1) || (i < |s| && Matches(fold, s, p, i + 1, j))
    else i < |s| && One(fold, s[i], p[j]) && Matches(fold, s, p, i + 1, j + 1)
  }

  predicate One(fold: char -> char, c: char, q: char) {
    q == '?' || fold(c) == fold(q)
  }

  /** How match_pattern answers: as Matches, except that at the end of the string it steps over one
      '*' of the pattern and no more. */
  ghost predicate Answers(fold: char -> char, s: string, p: string, i: nat, j: nat)
    requires i <= |s| && j <= |p|
    decreases |s| - i + |p| - j
  {
    if i == |s| then j == |p| || (p[j] == '*' && j + 1 == |p|)
    else if j == |p| then false
    else if p[j] == '*' then Answers(fold, s, p, i, j + 1) || Answers(fold, s, p, i + 1, j)
    else One(fold, s[i], p[j]) && Answers(fold, s, p, i + 1, j + 1)
  }

  /** Some later position of the string answers the pattern from `j` on. */
  ghost predicate Later(fold: char -> char, s: string, p: string, i: nat, j: nat)
    requires i <= |s| && j <= |p|
  {
    exists k :: i <= k <= |s| && Answers(fold, s, p, k, j)
  }

  lemma {:induction false} StarIsLater(fold: char -> char, s: string, p: string, i: nat, j: nat)
    requires i < |s| && j < |p| && p[j] == '*'
    ensures Answers(fold, s, p, i, j) <==> Later(fold, s, p, i, j + 1)
    decreases |s| - i
  {
    if i + 1 < |s| {
      StarIsLater(fold, s, p, i + 1, j);
    } else {
      assert j + 1 == |p| ==> Answers(fold, s, p, i + 1, j + 1);
    }
    if Later(fold, s, p, i, j + 1) {
      var k :| i <= k <= |s| && Answers(fold, s, p, k, j + 1);
      assert k == i || Later(fold, s, p, i + 1, j + 1);
    }
  }

  /** A star-free stretch of the pattern, matched character by character. */
  ghost predicate Segment(fold: char -> char, s: string, p: string, i: nat, j: nat, n: nat) {
    && i + n <= |s| && StarFree(p, j, n)
    && forall m :: j <= m < j + n ==> One(fold, s[m - j + i], p[m])
  }

  ghost predicate StarFree(p: string, j: nat, n: nat) {
    j + n <= |p| && forall m :: j <= m < j + n ==> p[m] != '*'
  }

  lemma {:induction false} SegmentStep(fold: char -> char, s: string, p: string, i: nat, j: nat, n: nat)
    requires Segment(fold, s, p, i, j, n)
    ensures Answers(fold, s, p, i, j) <==> Answers(fold, s, p, i + n, j + n)
    decreases n
  {
    if n == 0 {
    } else {
      SegmentStep(fold, s, p, i + 1, j + 1, n - 1);
    }
  }

  lemma {:induction false} SegmentNeeded(fold: char -> char, s: string, p: string, i: nat, j: nat, n: nat)
    requires i <= |s| && j + n < |p| && StarFree(p, j, n)
    requires Answers(fold, s, p, i, j)
    ensures i + n <= |s| && Answers(fold, s, p, i + n, j + n)
    decreases n
  {
    if n == 0 {
    } else {
      SegmentNeeded(fold, s, p, i + 1, j + 1, n - 1);
    }
  }

  /** Older stars can be forgotten: once the stretch after a star has been matched at its first place
      and the next star is reached, only that next star matters. */
  lemma ForgetOlderStar(fold: char -> char, s: string, p: string, i: nat, j: nat, n: nat)
    requires Segment(fold, s, p, i, j, n) && i + n < |s| && j + n < |p| && p[j + n] == '*'
    ensures Later(fold, s, p, i, j) <==> Later(fold, s, p, i + n, j + n + 1)
  {
    if Later(fold, s, p, i + n, j + n + 1) {
      StarIsLater(fold, s, p, i + n, j + n);
      SegmentStep(fold, s, p, i, j, n);
    }
    if Later(fold, s, p, i, j) {
      var k :| i <= k <= |s| && Answers(fold, s, p, k, j);
      SegmentNeeded(fold, s, p, k, j, n);
      if k + n < |s| {
        StarIsLater(fold, s, p, k + n, j + n);
      } else {
        assert j + n + 1 == |p| && Answers(fold, s, p, |s|, j + n + 1);
      }
    }
  }

  lemma MismatchMovesOn(fold: char -> char, s: string, p: string, i: nat, j: nat, n: nat)
    requires Segment(fold, s, p, i, j, n) && i + n < |s|
    requires j + n < |p| ==> p[j + n] != '*' && !One(fold, s[i + n], p[j + n])
    ensures !Answers(fold, s, p, i, j)
    ensures Later(fold, s, p, i, j) <==> Later(fold, s, p, i + 1, j)
  {
    SegmentStep(fold, s, p, i, j, n);
  }

  lemma ExhaustedIsFinal(fold: char -> char, s: string, p: string, i: nat, j: nat)
    requires i <= |s| && Segment(fold, s, p, i, j, |s| - i)
    ensures Answers(fold, s, p, i, j) <==> Answers(fold, s, p, |s|, j + |s| - i)
    ensures Later(fold, s, p, i, j) <==> Answers(fold, s, p, i, j)
  {
    SegmentStep(fold, s, p, i, j, |s| - i);
    if Later(fold, s, p, i, j) && j + |s| - i < |p| {
      var k :| i <= k <= |s| && Answers(fold, s, p, k, j);
      SegmentNeeded(fold, s, p, k, j, |s| - i);
    }
  }

  /** What the scan knows: the last `n` characters match the pattern from the restart positions on, and
      the answer is decided by those positions. */
  ghost predicate Known(fold: char -> char, s: string, p: string, i: nat, j: nat, n: nat, star: bool, answer: bool) {
    && Segment(fold, s, p, i, j, n)
    && (if star then answer <==> Later(fold, s, p, i, j) else i == 0 && j == 0 && answer == Answers(fold, s, p, 0, 0))
  }

  lemma CharStep(fold: char -> char, s: string, p: string, i: nat, j: nat, n: nat, star: bool, answer: bool)
    requires Known(fold, s, p, i, j, n, star, answer) && i + n < |s| && j + n < |p|
    requires p[j + n] != '*' && One(fold, s[i + n], p[j + n])
    ensures Known(fold, s, p, i, j, n + 1, star, answer)
  {
  }

  lemma StarStep(fold: char -> char, s: string, p: string, i: nat, j: nat, n: nat, star: bool, answer: bool)
    requires Known(fold, s, p, i, j, n, star, answer) && i + n < |s| && j + n < |p| && p[j + n] == '*'
    ensures Known(fold, s, p, i + n, j + n + 1, 0, true, answer)
    ensures j + n + 1 == |p| ==> answer
  {
    ForgetOlderStar(fold, s, p, i, j, n);
    SegmentStep(fold, s, p, i, j, n);
    StarIsLater(fold, s, p, i + n, j + n);
    assert j + n + 1 == |p| ==> Answers(fold, s, p, |s|, j + n + 1);
  }

  lemma RestartStep(fold: char -> char, s: string, p: string, i: nat, j: nat, n: nat, star: bool, answer: bool)
    requires Known(fold, s, p, i, j, n, star, answer) && i + n < |s|
    requires j + n < |p| ==> p[j + n] != '*' && !One(fold, s[i + n], p[j + n])
    ensures star ==> Known(fold, s, p, i + 1, j, 0, star, answer)
    ensures !star ==> !answer
  {
    MismatchMovesOn(fold, s, p, i, j, n);
  }

  lemma EndStep(fold: char -> char, s: string, p: string, i: nat, j: nat, n: nat, star: bool, answer: bool)
    requires Known(fold, s, p, i, j, n, star, answer) && i + n == |s|
    ensures answer <==> j + n == |p| || (p[j + n] == '*' && j + n + 1 == |p|)
  {
    ExhaustedIsFinal(fold, s, p, i, j);
  }

  /** match_pattern: `str` and `pattern` become the restart positions once a star is met. */
  method MatchPattern(fold: char -> char, text: string, wild: string) returns (matched: bool)
    ensures matched == Answers(fold, text, wild, 0, 0)
  {
    var s: nat, p: nat, str: nat, pattern: nat := 0, 0, 0, 0;
    var star := false;
    ghost var n: nat, answer := 0, Answers(fold, text, wild, 0, 0);
    while s < |text|
      invariant s == str + n <= |text| && p == pattern + n <= |wild|
      invariant Known(fold, text, wild, str, pattern, n, star, answer)
      decreases |wild| - pattern, |text| - str, |text| - s
    {
      if p < |wild| && wild[p] == '?' {
        CharStep(fold, text, wild, str, pattern, n, star, answer);
        s, p, n := s + 1, p + 1, n + 1;
      } else if p < |wild| && wild[p] == '*' {
        StarStep(fold, text, wild, str, pattern, n, star, answer);
        star := true;
        str := s;
        p := p + 1;
        if p == |wild| {
          return true;
        }
        pattern, n := p, 0;
      } else if p < |wild| && fold(text[s]) == fold(wild[p]) {
        CharStep(fold, text, wild, str, pattern, n, star, answer);
        s, p, n := s + 1, p + 1, n + 1;
      } else {
        RestartStep(fold, text, wild, str, pattern, n, star, answer);
        if !star {
          return false;
        }
        str, n := str + 1, 0;
        s := str;
        p := pattern;
      }
    }
    EndStep(fold, text, wild, str, pattern, n, star, answer);
    if p < |wild| && wild[p] == '*' {
      p := p + 1;
    }
    return p == |wild|;
  }

  // ---- What the answer means ----

  ghost predicate EndsInStars(p: string) {
    |p| >= 2 && p[|p| - 1] == '*' && p[|p| - 2] == '*'
  }

  /** Length of the pattern without its trailing stars. */
  ghost function Stem(p: string): (n: nat)
    ensures n <= |p| && (n > 0 ==> p[n - 1] != '*') && (forall m :: n <= m < |p| ==> p[m] == '*')
  {
    if p == [] || p[|p| - 1] != '*' then |p| else Stem(p[..|p| - 1])
  }

  /** The pattern match_pattern really applies: two or more final stars ask for at least one character. */
  ghost function Effective(p: string): string {
    if EndsInStars(p) then p[..Stem(p)] + "?*" else p
  }

  /** A positive answer is right for every string and pattern. */
  lemma {:induction false} AnswerIsSound(fold: char -> char, s: string, p: string, i: nat, j: nat)
    requires i <= |s| && j <= |p| && Answers(fold, s, p, i, j)
    ensures Matches(fold, s, p, i, j)
    decreases |s| - i + |p| - j
  {
    if i == |s| || j == |p| {
    } else {
      if p[j] != '*' {
        AnswerIsSound(fold, s, p, i + 1, j + 1);
      } else if Answers(fold, s, p, i, j + 1) {
        AnswerIsSound(fold, s, p, i, j + 1);
      } else {
        AnswerIsSound(fold, s, p, i + 1, j);
      }
    }
  }

  lemma {:induction false} PlainAnswer(fold: char -> char, s: string, p: string, i: nat, j: nat)
    requires i <= |s| && j <= |p| && !EndsInStars(p)
    ensures Answers(fold, s, p, i, j) <==> Matches(fold, s, p, i, j)
    decreases |s| - i + |p| - j
  {
    if j == |p| {
    } else {
      if p[j] == '*' {
        PlainAnswer(fold, s, p, i, j + 1);
        if i < |s| {
          PlainAnswer(fold, s, p, i + 1, j);
        }
      } else if i < |s| {
        PlainAnswer(fold, s, p, i + 1, j + 1);
      }
    }
  }

  lemma {:induction false} AllStars(fold: char -> char, s: string, p: string, i: nat, j: nat)
    requires i <= |s| && j < |p| && (forall m :: j <= m < |p| ==> p[m] == '*')
    ensures Answers(fold, s, p, i, j) <==> i < |s| || j + 1 == |p|
    ensures Matches(fold, s, p, i, j)
    decreases |s| - i + |p| - j
  {
    if i < |s| {
      AllStars(fold, s, p, i + 1, j);
    }
    if j + 1 < |p| {
      AllStars(fold, s, p, i, j + 1);
    } else if i < |s| {
      assert Matches(fold, s, p, i + 1, j);
    }
  }

  lemma {:induction false} StarredAnswer(fold: char -> char, s: string, p: string, i: nat, j: nat)
    requires EndsInStars(p) && i <= |s| && j <= Stem(p)
    ensures Answers(fold, s, p, i, j) <==> Matches(fold, s, Effective(p), i, j)
    decreases |s| - i + |p| - j
  {
    var e, n := Effective(p), Stem(p);
    assert |e| == n + 2 && (forall m :: 0 <= m < n ==> e[m] == p[m]) && e[n] == '?' && e[n + 1] == '*';
    if j == n {
      AllStars(fold, s, p, i, j);
      if i < |s| {
        AllStars(fold, s, e, i + 1, n + 1);
      }
    } else if p[j] == '*' {
      StarredAnswer(fold, s, p, i, j + 1);
      if i < |s| {
        StarredAnswer(fold, s, p, i + 1, j);
      }
    } else if i < |s| {
      StarredAnswer(fold, s, p, i + 1, j + 1);
    }
  }

  /** Exactly what match_pattern decides, for every string and pattern; in particular the declared
      relation itself for every pattern that does not end in two stars. */
  lemma AnswerIsExact(fold: char -> char, s: string, p: string)
    ensures Answers(fold, s, p, 0, 0) <==> Matches(fold, s, Effective(p), 0, 0)
    ensures Answers(fold, s, p, 0, 0) ==> Matches(fold, s, p, 0, 0)
    ensures !EndsInStars(p) ==> (Answers(fold, s, p, 0, 0) <==> Matches(fold, s, p, 0, 0))
  {
    if EndsInStars(p) {
      StarredAnswer(fold, s, p, 0, 0);
    } else {
      PlainAnswer(fold, s, p, 0, 0);
    }
    if Answers(fold, s, p, 0, 0) {
      AnswerIsSound(fold, s, p, 0, 0);
    }
  }

  /** How many characters the pattern from `j` on asks for at least. */
  ghost function Solid(p: string, j: nat): nat
    requires j <= |p|
    decreases |p| - j
  {
    if j == |p| then 0 else (if p[j] == '*' then 0 else 1) + Solid(p, j + 1)
  }

  lemma {:induction false} SolidNeeded(fold: char -> char, s: string, p: string, i: nat, j: nat)
    requires i <= |s| && j <= |p| && Matches(fold, s, p, i, j)
    ensures |s| - i >= Solid(p, j)
    decreases |s| - i + |p| - j
  {
    if j == |p| {
    } else if p[j] != '*' {
      SolidNeeded(fold, s, p, i + 1, j + 1);
    } else if Matches(fold, s, p, i, j + 1) {
      SolidNeeded(fold, s, p, i, j + 1);
    } else {
      SolidNeeded(fold, s, p, i + 1, j);
    }
  }

  /** The pattern from `j` on without its stars. */
  ghost function Shortest(p: string, j: nat): (r: string)
    requires j <= |p|
    ensures |r| == Solid(p, j)
    decreases |p| - j
  {
    if j == |p| then [] else (if p[j] == '*' then [] else [p[j]]) + Shortest(p, j + 1)
  }

  lemma {:induction false} ShortestMatches(fold: char -> char, s: string, p: string, i: nat, j: nat)
    requires i <= |s| && j <= |p| && s[i..] == Shortest(p, j)
    ensures Matches(fold, s, p, i, j)
    decreases |p| - j
  {
    if j == |p| {
    } else if p[j] == '*' {
      assert [] + Shortest(p, j + 1) == Shortest(p, j + 1);
      ShortestMatches(fold, s, p, i, j + 1);
    } else {
      assert s[i..][0] == p[j] && s[i + 1..] == s[i..][1..] == Shortest(p, j + 1);
      ShortestMatches(fold, s, p, i + 1, j + 1);
    }
  }

  lemma {:induction false} SolidStem(p: string, e: string, n: nat, j: nat)
    requires j <= n <= |p| && n + 2 == |e| && p[..n] == e[..n] && e[n] == '?' && e[n + 1] == '*'
    requires forall m :: n <= m < |p| ==> p[m] == '*'
    ensures Solid(e, j) == Solid(p, j) + 1
    decreases n - j
  {
    if j == n {
      assert Solid(e, n + 2) == 0 && Solid(e, n + 1) == 0;
      NotSolid(p, n);
    } else {
      assert p[j] == p[..n][j] == e[j];
      SolidStem(p, e, n, j + 1);
    }
  }

  lemma {:induction false} NotSolid(p: string, j: nat)
    requires j <= |p| && forall m :: j <= m < |p| ==> p[m] == '*'
    ensures Solid(p, j) == 0
    decreases |p| - j
  {
    if j == |p| {
    } else {
      NotSolid(p, j + 1);
    }
  }

  /** Every pattern that ends in two stars fails: its shortest match is answered with false. */
  lemma TwoFinalStarsFail(fold: char -> char, p: string)
    requires EndsInStars(p)
    ensures Matches(fold, Shortest(p, 0), p, 0, 0) && !Answers(fold, Shortest(p, 0), p, 0, 0)
  {
    var s, e, n := Shortest(p, 0), Effective(p), Stem(p);
    assert s[0..] == s;
    ShortestMatches(fold, s, p, 0, 0);
    assert e[..n] == p[..n];
    SolidStem(p, e, n, 0);
    AnswerIsExact(fold, s, p);
    if Matches(fold, s, e, 0, 0) {
      SolidNeeded(fold, s, e, 0, 0);
    }
  }

  /** A pattern is answered as declared for all strings exactly when it does not end in two stars. */
  lemma ExactPatterns(fold: char -> char, p: string)
    ensures (forall s: string :: Answers(fold, s, p, 0, 0) <==> Matches(fold, s, p, 0, 0)) <==> !EndsInStars(p)
  {
    if EndsInStars(p) {
      TwoFinalStarsFail(fold, p);
    } else {
      forall s: string
        ensures Answers(fold, s, p, 0, 0) <==> Matches(fold, s, p, 0, 0)
      {
        AnswerIsExact(fold, s, p);
      }
    }
  }

  // ---- The declared relation, on whole strings ----

  ghost predicate Match(fold: char -> char, s: string, p: string) {
    Matches(fold, s, p, 0, 0)
  }

  /** Only what is left of the string and of the pattern matters. */
  lemma {:induction false} SameRest(fold: char -> char, s: string, p: string, i: nat, j: nat, t: string, q: string,
                                    a: nat, b: nat)
    requires i <= |s| && j <= |p| && a <= |t| && b <= |q| && s[i..] == t[a..] && p[j..] == q[b..]
    ensures Matches(fold, s, p, i, j) <==> Matches(fold, t, q, a, b)
    decreases |s| - i + |p| - j
  {
    assert |s| - i == |t| - a && |p| - j == |q| - b;
    if j == |p| {
    } else {
      assert p[j] == p[j..][0] == q[b] && p[j + 1..] == p[j..][1..] == q[b + 1..];
      if i < |s| {
        assert s[i] == s[i..][0] == t[a] && s[i + 1..] == s[i..][1..] == t[a + 1..];
        SameRest(fold, s, p, i + 1, j, t, q, a + 1, b);
        SameRest(fold, s, p, i + 1, j + 1, t, q, a + 1, b + 1);
      }
      SameRest(fold, s, p, i, j + 1, t, q, a, b + 1);
    }
  }

  /** The empty pattern, a pattern that starts with a star, and one that starts with something else. */
  lemma FirstOf(fold: char -> char, s: string, p: string)
    ensures p == [] ==> (Match(fold, s, p) <==> s == [])
    ensures p != [] && p[0] == '*' ==>
              (Match(fold, s, p) <==> Match(fold, s, p[1..]) || (s != [] && Match(fold, s[1..], p)))
    ensures p != [] && p[0] != '*' ==>
              (Match(fold, s, p) <==>
                 s != [] && (p[0] == '?' || fold(s[0]) == fold(p[0])) && Match(fold, s[1..], p[1..]))
  {
    if p != [] {
      SameRest(fold, s, p, 0, 1, s, p[1..], 0, 0);
      if s != [] {
        SameRest(fold, s, p, 1, 0, s[1..], p, 0, 0);
        SameRest(fold, s, p, 1, 1, s[1..], p[1..], 0, 0);
      }
    }
  }

  /** Without stars: as long as the pattern, and equal up to case where it has no question mark. */
  lemma {:induction false} PlainMatch(fold: char -> char, s: string, p: string)
    requires '*' !in p
    ensures Match(fold, s, p) <==>
              |s| == |p| && forall k :: 0 <= k < |p| ==> p[k] == '?' || fold(s[k]) == fold(p[k])
    decreases |p|
  {
    FirstOf(fold, s, p);
    if p == [] {
    } else if s != [] {
      PlainMatch(fold, s[1..], p[1..]);
      assert |s| == |p| ==> forall k :: 0 < k < |p| ==> s[k] == s[1..][k - 1] && p[k] == p[1..][k - 1];
    }
  }

  /** A star alone matches everything. */
  lemma {:induction false} StarMatch(fold: char -> char, s: string)
    ensures Match(fold, s, "*")
    decreases |s|
  {
    FirstOf(fold, s, "*");
    assert "*"[1..] == [];
    if s == [] {
      FirstOf(fold, s, "*"[1..]);
    } else {
      StarMatch(fold, s[1..]);
    }
  }

  lemma {:induction false} MatchJoins(fold: char -> char, s: string, p: string, t: string, q: string)
    requires Match(fold, s, p) && Match(fold, t, q)
    ensures Match(fold, s + t, p + q)
    decreases |s| + |p|
  {
    FirstOf(fold, s, p);
    FirstOf(fold, s + t, p + q);
    if p == [] {
      assert s + t == t && p + q == q;
    } else {
      assert (p + q)[1..] == p[1..] + q;
      if s != [] {
        assert (s + t)[1..] == s[1..] + t;
      }
      if p[0] != '*' {
        MatchJoins(fold, s[1..], p[1..], t, q);
      } else if Match(fold, s, p[1..]) {
        MatchJoins(fold, s, p[1..], t, q);
      } else {
        MatchJoins(fold, s[1..], p, t, q);
      }
    }
  }

  lemma {:induction false} MatchSplits(fold: char -> char, s: string, p: string, q: string) returns (k: nat)
    requires Match(fold, s, p + q)
    ensures k <= |s| && Match(fold, s[..k], p) && Match(fold, s[k..], q)
    decreases |s| + |p|
  {
    if p == [] {
      assert p + q == q && s[..0] == [] && s[0..] == s;
      FirstOf(fold, s[..0], p);
      return 0;
    }
    FirstOf(fold, s, p + q);
    assert (p + q)[1..] == p[1..] + q && (p + q)[0] == p[0];
    if p[0] == '*' && Match(fold, s, p[1..] + q) {
      k := MatchSplits(fold, s, p[1..], q);
      FirstOf(fold, s[..k], p);
    } else {
      var m := MatchSplits(fold, s[1..], if p[0] == '*' then p else p[1..], q);
      k := m + 1;
      assert s[..k][1..] == s[1..][..m] && s[k..] == s[1..][m..];
      FirstOf(fold, s[..k], p);
    }
  }

  /** A pattern made of two parts matches exactly the strings made of a match of the one and a match of the
      other. With the two lemmas before it, this determines the relation. */
  lemma MatchConcat(fold: char -> char, s: string, p: string, q: string)
    ensures Match(fold, s, p + q) <==>
              exists k :: 0 <= k <= |s| && Match(fold, s[..k], p) && Match(fold, s[k..], q)
  {
    if Match(fold, s, p + q) {
      var k := MatchSplits(fold, s, p, q);
    }
    if k :| 0 <= k <= |s| && Match(fold, s[..k], p) && Match(fold, s[k..], q) {
      MatchJoins(fold, s[..k], p, s[k..], q);
      assert s[..k] + s[k..] == s;
    }
  }
}
