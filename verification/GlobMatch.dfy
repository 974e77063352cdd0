// The backtracking prefix matcher (src/mongoose/mongoose.c:865-902).
//
// A C string is a sequence without NUL; reading at its length gives the terminator.
// Pointers into the pattern and the string are offsets.

module GlobMatch {

  function CharAt(s: string, i: nat): char
    requires i <= |s|
  {
    if i < |s| then s[i] else '\0'
  }

  predicate IsCString(s: string) { '\0' !in s }

  predicate NoSlash(s: string, j: nat, k: nat)
    requires j <= k <= |s|
  {
    '/' !in s[j..k]
  }

  /** What is left of the pattern behind a star, and where the star may stop. */
  function StarEnd(p: string, i: nat, to: nat): (r: nat)
    requires i < to <= |p|
    ensures i < r <= to
  {
    if i + 1 < to && p[i + 1] == '*' then i + 2 else i + 1
  }

  predicate StarReaches(p: string, i: nat, to: nat, s: string, j: nat, k: nat)
    requires i < to <= |p| && j <= k <= |s|
  {
    StarEnd(p, i, to) == i + 2 || NoSlash(s, j, k)
  }

  /** pattern[i..to) can consume str[j..n): `?` takes one character, `*` any run without a
      slash, `**` any run, `$` accepts at the end of the string and ends the pattern. */
  ghost predicate Matches(p: string, i: nat, to: nat, s: string, j: nat, n: nat)
    requires i <= to <= |p| && j <= |s|
    decreases |p| - i
  {
    if i == to then n == j
    else if p[i] == '?' then j < |s| && Matches(p, i + 1, to, s, j + 1, n)
    else if p[i] == '$' then j == |s| && n == j
    else if p[i] == '*' then
      exists k :: j <= k <= |s| && StarReaches(p, i, to, s, j, k) && Matches(p, StarEnd(p, i, to), to, s, k, n)
    else j < |s| && s[j] == p[i] && Matches(p, i + 1, to, s, j + 1, n)
  }

  /** -1 when nothing matches, else the length of the longest match from `at` on. */
  ghost predicate IsLongest(p: string, i: nat, to: nat, s: string, at: nat, res: int)
    requires i <= to <= |p| && at <= |s|
  {
    if res == -1 then forall n: nat :: !Matches(p, i, to, s, at, n)
    else
      && 0 <= res && Matches(p, i, to, s, at, at + res)
      && forall n: nat :: Matches(p, i, to, s, at, n) ==> n <= at + res
  }

  /** Two matches of one pattern whose paths cross can be spliced: what the later start
      consumes may end where the earlier start did. */
  lemma {:induction false} MatchesCross(p: string, i: nat, to: nat, s: string, j1: nat, n1: nat, j2: nat, n2: nat)
    requires i <= to <= |p| && j1 <= j2 <= |s|
    requires Matches(p, i, to, s, j1, n1) && Matches(p, i, to, s, j2, n2) && n2 < n1
    ensures Matches(p, i, to, s, j2, n1)
    decreases |p| - i
  {
    if i == to {
    } else if p[i] == '*' {
      var r := StarEnd(p, i, to);
      var k1 :| j1 <= k1 <= |s| && StarReaches(p, i, to, s, j1, k1) && Matches(p, r, to, s, k1, n1);
      var k2 :| j2 <= k2 <= |s| && StarReaches(p, i, to, s, j2, k2) && Matches(p, r, to, s, k2, n2);
      if k1 <= k2 {
        MatchesCross(p, r, to, s, k1, n1, k2, n2);
      } else {
        forall c | c in s[j2..k1] ensures c in s[j1..k1] {
          assert s[j2..k1] == s[j1..k1][j2 - j1..];
        }
      }
    } else if p[i] != '$' {
      MatchesCross(p, i + 1, to, s, j1 + 1, n1, j2 + 1, n2);
    }
  }

  /** Greedy is optimal: with no match from a longer star, the longest match behind the
      longest star that matches at all is the longest of the whole. */
  lemma GreedyIsLongest(p: string, i: nat, to: nat, s: string, j: nat, k: nat, top: nat, res: int)
    requires i < to <= |p| && p[i] == '*' && j <= k <= top <= |s|
    requires StarReaches(p, i, to, s, j, k)
    requires forall m :: j <= m <= |s| && StarReaches(p, i, to, s, j, m) ==> m <= top
    requires forall m, n: nat :: k < m <= top ==> !Matches(p, StarEnd(p, i, to), to, s, m, n)
    requires res >= 0 && IsLongest(p, StarEnd(p, i, to), to, s, k, res)
    ensures IsLongest(p, i, to, s, j, k - j + res)
  {
    var r := StarEnd(p, i, to);
    forall n: nat | Matches(p, i, to, s, j, n) ensures n <= k + res {
      var m :| j <= m <= |s| && StarReaches(p, i, to, s, j, m) && Matches(p, r, to, s, m, n);
      if n > k + res {
        assert m <= k;
        MatchesCross(p, r, to, s, m, n, k, k + res);
        assert false;
      }
    }
  }

  /** Bounds of the `|`-separated alternatives of pattern[from..to). */
  function Alternatives(p: string, from: nat, to: nat): (alts: seq<(nat, nat)>)
    requires from <= to <= |p|
    ensures alts != []
    ensures (forall a <- alts :: from <= a.0 <= a.1 <= to && forall k :: a.0 <= k < a.1 ==> p[k] != '|')
    decreases |p| - from, to
  {
    var b := FindBar(p, from, to);
    if b == to then [(from, to)] else [(from, b)] + Alternatives(p, b + 1, to)
  }

  function FindBar(p: string, from: nat, to: nat): (b: nat)
    requires from <= to <= |p|
    ensures from <= b <= to && (forall k :: from <= k < b ==> p[k] != '|') && (b < to ==> p[b] == '|')
    decreases |p| - from, to
  {
    if from == to || p[from] == '|' then from else FindBar(p, from + 1, to)
  }

  ghost predicate NonEmptyMatch(p: string, alt: (nat, nat), s: string, at: nat)
    requires alt.0 <= alt.1 <= |p| && at <= |s|
  {
    exists n: nat :: n > at && Matches(p, alt.0, alt.1, s, at, n)
  }

  ghost predicate Decides(p: string, alts: seq<(nat, nat)>, s: string, at: nat, res: int, a: nat)
    requires a < |alts| && (forall a <- alts :: a.0 <= a.1 <= |p|) && at <= |s|
  {
    && IsLongest(p, alts[a].0, alts[a].1, s, at, res)
    && forall b :: 0 <= b < a ==> !NonEmptyMatch(p, alts[b], s, at)
  }

  /** The first alternative with a match of at least one character decides; when there is
      none, the last alternative does. */
  ghost predicate IsAnswer(p: string, alts: seq<(nat, nat)>, s: string, at: nat, res: int)
    requires alts != [] && (forall a <- alts :: a.0 <= a.1 <= |p|) && at <= |s|
  {
    if res > 0 then exists a :: 0 <= a < |alts| && Decides(p, alts, s, at, res, a)
    else
      && IsLongest(p, alts[|alts| - 1].0, alts[|alts| - 1].1, s, at, res)
      && forall b :: 0 <= b < |alts| ==> !NonEmptyMatch(p, alts[b], s, at)
  }

  lemma LongestIsUnique(p: string, i: nat, to: nat, s: string, at: nat, res: int, other: int)
    requires i <= to <= |p| && at <= |s| && IsLongest(p, i, to, s, at, res) && IsLongest(p, i, to, s, at, other)
    ensures res == other
    ensures res > 0 <==> NonEmptyMatch(p, (i, to), s, at)
  {
    if res >= 0 { assert Matches(p, i, to, s, at, at + res); }
    if other >= 0 { assert Matches(p, i, to, s, at, at + other); }
  }

  /** So there is one answer only. */
  lemma AnswerIsUnique(p: string, alts: seq<(nat, nat)>, s: string, at: nat, res: int, other: int)
    requires alts != [] && (forall a <- alts :: a.0 <= a.1 <= |p|) && at <= |s|
    requires IsAnswer(p, alts, s, at, res) && IsAnswer(p, alts, s, at, other)
    ensures res == other
  {
    if res > 0 && other > 0 {
      var a: nat :| a < |alts| && Decides(p, alts, s, at, res, a);
      var b: nat :| b < |alts| && Decides(p, alts, s, at, other, b);
      LongestIsUnique(p, alts[a].0, alts[a].1, s, at, res, res);
      LongestIsUnique(p, alts[b].0, alts[b].1, s, at, other, other);
      LongestIsUnique(p, alts[a].0, alts[a].1, s, at, res, other);
    } else if res <= 0 && other <= 0 {
      LongestIsUnique(p, alts[|alts| - 1].0, alts[|alts| - 1].1, s, at, res, other);
    } else {
      PositiveAnswer(p, alts, s, at, res);
      PositiveAnswer(p, alts, s, at, other);
    }
  }

  lemma PositiveAnswer(p: string, alts: seq<(nat, nat)>, s: string, at: nat, res: int)
    requires alts != [] && (forall a <- alts :: a.0 <= a.1 <= |p|) && at <= |s|
    requires IsAnswer(p, alts, s, at, res)
    ensures res > 0 <==> exists b :: 0 <= b < |alts| && NonEmptyMatch(p, alts[b], s, at)
  {
    if res > 0 {
      var a: nat :| a < |alts| && Decides(p, alts, s, at, res, a);
      LongestIsUnique(p, alts[a].0, alts[a].1, s, at, res, res);
      assert alts[a] == (alts[a].0, alts[a].1);
    }
  }

  method StrCSpn(s: string, j: nat) returns (len: nat)
    requires j <= |s|
    ensures j + len <= |s| && NoSlash(s, j, j + len)
    ensures forall k :: j <= k <= |s| && NoSlash(s, j, k) ==> k <= j + len
  {
    len := 0;
    while j + len < |s| && s[j + len] != '/'
      invariant j + len <= |s| && NoSlash(s, j, j + len)
    {
      assert s[j..j + len + 1] == s[j..j + len] + [s[j + len]];
      len := len + 1;
    }
    forall k | j + len < k <= |s| ensures !NoSlash(s, j, k) {
      assert s[j..k][len] == s[j + len];
    }
  }

  lemma SingleAlternative(p: string, from: nat, to: nat, s: string, at: nat, res: int)
    requires from <= to <= |p| && at <= |s| && FindBar(p, from, to) == to
    ensures IsAnswer(p, Alternatives(p, from, to), s, at, res) <==> IsLongest(p, from, to, s, at, res)
  {
    var alts := Alternatives(p, from, to);
    assert alts == [(from, to)];
    if IsLongest(p, from, to, s, at, res) && res > 0 {
      assert Decides(p, alts, s, at, res, 0);
    }
  }

  /** One more alternative in front. */
  lemma FirstAlternative(p: string, from: nat, to: nat, s: string, at: nat, first: int, res: int)
    requires from <= to <= |p| && at <= |s| && FindBar(p, from, to) < to
    requires IsLongest(p, from, FindBar(p, from, to), s, at, first)
    requires if first > 0 then res == first
             else IsAnswer(p, Alternatives(p, FindBar(p, from, to) + 1, to), s, at, res)
    ensures IsAnswer(p, Alternatives(p, from, to), s, at, res)
  {
    var b := FindBar(p, from, to);
    var rest := Alternatives(p, b + 1, to);
    assert Alternatives(p, from, to) == [(from, b)] + rest;
    if first > 0 {
      AnswerInFront(p, (from, b), rest, s, at, res);
    } else {
      AnswerBehind(p, (from, b), rest, s, at, res);
    }
  }

  lemma AnswerInFront(p: string, alt: (nat, nat), rest: seq<(nat, nat)>, s: string, at: nat, res: int)
    requires (forall a <- [alt] + rest :: a.0 <= a.1 <= |p|) && alt.0 <= alt.1 <= |p| && at <= |s|
    requires res > 0 && IsLongest(p, alt.0, alt.1, s, at, res)
    ensures IsAnswer(p, [alt] + rest, s, at, res)
  {
    assert Decides(p, [alt] + rest, s, at, res, 0);
  }

  lemma AnswerBehind(p: string, alt: (nat, nat), rest: seq<(nat, nat)>, s: string, at: nat, res: int)
    requires rest != [] && (forall a <- rest :: a.0 <= a.1 <= |p|) && alt.0 <= alt.1 <= |p| && at <= |s|
    requires !NonEmptyMatch(p, alt, s, at) && IsAnswer(p, rest, s, at, res)
    ensures (forall a <- [alt] + rest :: a.0 <= a.1 <= |p|) && IsAnswer(p, [alt] + rest, s, at, res)
  {
    var alts := [alt] + rest;
    forall b | 0 <= b < |alts| && (b == 0 || !NonEmptyMatch(p, rest[b - 1], s, at))
      ensures !NonEmptyMatch(p, alts[b], s, at) {}
    if res > 0 {
      var a :| 0 <= a < |rest| && Decides(p, rest, s, at, res, a);
      assert Decides(p, alts, s, at, res, a + 1);
    }
  }

  /** What the rest of the pattern finds from `j` on, seen from the start of the pattern. */
  lemma Advanced(p: string, from: nat, i: nat, to: nat, s: string, at: nat, j: nat, res: int)
    requires from <= i <= to <= |p| && at <= j <= |s|
    requires forall n: nat :: Matches(p, from, to, s, at, n) <==> Matches(p, i, to, s, j, n)
    requires IsLongest(p, i, to, s, j, res)
    ensures IsLongest(p, from, to, s, at, if res == -1 then -1 else j - at + res)
  {
  }

  /** The `*` branch: the longest run first, then shorter ones until the rest matches. */
  method MatchStar(p: string, star: nat, to: nat, s: string, j: nat) returns (res: int)
    requires IsCString(p) && IsCString(s)
    requires star < to <= |p| && j <= |s| && p[star] == '*'
    requires CharAt(p, to) != '*' && FindBar(p, star, to) == to
    ensures IsLongest(p, star, to, s, j, res)
    decreases |p| - star, to, 0
  {
    var i := star + 1;
    var len: nat;
    if CharAt(p, i) == '*' {
      i := i + 1;
      len := |s| - j;
    } else {
      len := StrCSpn(s, j);
    }
    ghost var top := j + len;
    assert i == StarEnd(p, star, to) && StarReaches(p, star, to, s, j, top);
    if i == to {
      GreedyIsLongest(p, star, to, s, j, top, top, 0);
      return len;
    }
    res := MatchPrefix(p, i, to, s, j + len);
    SingleAlternative(p, i, to, s, j + len, res);
    while res == -1 && len > 0
      invariant j + len <= top && IsLongest(p, i, to, s, j + len, res)
      invariant forall m, n: nat :: j + len < m <= top ==> !Matches(p, i, to, s, m, n)
    {
      len := len - 1;
      res := MatchPrefix(p, i, to, s, j + len);
      SingleAlternative(p, i, to, s, j + len, res);
    }
    StarShrinks(p, star, to, s, j, j + len, top);
    if res == -1 {
      NoStarMatches(p, star, to, s, j, top);
    } else {
      GreedyIsLongest(p, star, to, s, j, j + len, top, res);
      res := res + len;
    }
  }

  lemma StarShrinks(p: string, i: nat, to: nat, s: string, j: nat, k: nat, top: nat)
    requires i < to <= |p| && j <= k <= top <= |s| && StarReaches(p, i, to, s, j, top)
    ensures StarReaches(p, i, to, s, j, k)
  {
    assert s[j..k] == s[j..top][..k - j];
  }

  lemma NoStarMatches(p: string, i: nat, to: nat, s: string, j: nat, top: nat)
    requires i < to <= |p| && p[i] == '*' && j <= top <= |s|
    requires forall m :: j <= m <= |s| && StarReaches(p, i, to, s, j, m) ==> m <= top
    requires forall m, n: nat :: j <= m <= top ==> !Matches(p, StarEnd(p, i, to), to, s, m, n)
    ensures IsLongest(p, i, to, s, j, -1)
  {
  }

  method MatchPrefix(p: string, from: nat, to: nat, s: string, at: nat) returns (res: int)
    requires IsCString(p) && IsCString(s)
    requires from <= to <= |p| && at <= |s|
    requires CharAt(p, to) != '*'   // a trailing star reads one character further
    ensures IsAnswer(p, Alternatives(p, from, to), s, at, res)
    decreases |p| - from, to, 1
  {
    var orStr := FindBar(p, from, to);
    if orStr < to {
      var first := MatchPrefix(p, from, orStr, s, at);
      SingleAlternative(p, from, orStr, s, at, first);
      if first > 0 {
        res := first;
      } else {
        res := MatchPrefix(p, orStr + 1, to, s, at);
      }
      FirstAlternative(p, from, to, s, at, first, res);
      return;
    }
    SingleAlternative(p, from, to, s, at, -1);
    var i, j := from, at;
    while i < to
      invariant from <= i <= to && at <= j <= |s|
      invariant forall n: nat :: Matches(p, from, to, s, at, n) <==> Matches(p, i, to, s, j, n)
    {
      if p[i] == '?' && CharAt(s, j) != '\0' {
      } else if p[i] == '$' {
        res := if CharAt(s, j) == '\0' then j - at else -1;
        SingleAlternative(p, from, to, s, at, res);
        return;
      } else if p[i] == '*' {
        var rest := MatchStar(p, i, to, s, j);
        Advanced(p, from, i, to, s, at, j, rest);
        res := if rest == -1 then -1 else j - at + rest;
        SingleAlternative(p, from, to, s, at, res);
        return;
      } else if p[i] != CharAt(s, j) {
        return -1;
      }
      i, j := i + 1, j + 1;
    }
    res := j - at;
    SingleAlternative(p, from, to, s, at, res);
  }

  // ---- the language, character by character ----

  /** Every other character is matched by itself. */
  predicate IsLetter(c: char) { c != '?' && c != '*' && c != '$' && c != '|' && c != '\0' }

  lemma LetterAlone(c: char, s: string, j: nat, n: nat)
    requires IsLetter(c) && j <= |s|
    ensures Matches([c], 0, 1, s, j, n) <==> j < |s| && s[j] == c && n == j + 1
  {}

  lemma QuestionMarkAlone(s: string, j: nat, n: nat)
    requires j <= |s|
    ensures Matches("?", 0, 1, s, j, n) <==> j < |s| && n == j + 1
  {}

  lemma DollarAlone(s: string, j: nat, n: nat)
    requires j <= |s|
    ensures Matches("$", 0, 1, s, j, n) <==> j == n == |s|
  {}

  /** One star stops at a slash, two do not. */
  lemma StarAlone(s: string, j: nat, n: nat)
    requires j <= |s|
    ensures Matches("*", 0, 1, s, j, n) <==> j <= n <= |s| && forall k :: j <= k < n ==> s[k] != '/'
  {
    if j <= n <= |s| {
      forall k | j <= k < n && s[k] == '/' ensures !NoSlash(s, j, n) { assert s[j..n][k - j] == '/'; }
      if NoSlash(s, j, n) { assert StarReaches("*", 0, 1, s, j, n) && Matches("*", 1, 1, s, n, n); }
    }
  }

  lemma TwoStarsAlone(s: string, j: nat, n: nat)
    requires j <= |s|
    ensures Matches("**", 0, 2, s, j, n) <==> j <= n <= |s|
  {
    if j <= n <= |s| { assert StarReaches("**", 0, 2, s, j, n) && Matches("**", 2, 2, s, n, n); }
  }

  /** The alternatives, with bars between them, are the whole pattern. */
  function Barred(p: string, alts: seq<(nat, nat)>): string
    requires alts != [] && forall a <- alts :: a.0 <= a.1 <= |p|
  {
    var first := p[alts[0].0..alts[0].1];
    if |alts| == 1 then first else first + "|" + Barred(p, alts[1..])
  }

  lemma {:induction false} AlternativesAreAll(p: string, from: nat, to: nat)
    requires from <= to <= |p|
    ensures Barred(p, Alternatives(p, from, to)) == p[from..to]
    decreases |p| - from
  {
    var b := FindBar(p, from, to);
    if b < to {
      AlternativesAreAll(p, b + 1, to);
      BarredMore(p, (from, b), Alternatives(p, b + 1, to));
      AroundBar(p, from, b, to);
    }
  }

  lemma BarredMore(p: string, alt: (nat, nat), rest: seq<(nat, nat)>)
    requires rest != [] && alt.0 <= alt.1 <= |p| && forall a <- rest :: a.0 <= a.1 <= |p|
    ensures Barred(p, [alt] + rest) == p[alt.0..alt.1] + "|" + Barred(p, rest)
  {
    assert ([alt] + rest)[1..] == rest;
  }

  lemma AroundBar(p: string, from: nat, b: nat, to: nat)
    requires from <= b < to <= |p| && p[b] == '|'
    ensures p[from..to] == p[from..b] + "|" + p[b + 1..to]
  {
  }
}
