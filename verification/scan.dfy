/** The bad-word filter without its index: at each place take the shortest dictionary word that is there, else go on
    by one. */
module Scan {
  /** `strings.Join(s, "")`. */
  function Join(s: seq<string>): string {
    if s == [] then "" else s[0] + Join(s[1..])
  }

  /** `strings.Split(s, "")`. */
  function Chars(s: string): (r: seq<string>)
    ensures |r| == |s|
  {
    seq(|s|, i requires 0 <= i < |s| => [s[i]])
  }

  /** The length n is worth trying for a word that starts with `first`. */
  ghost predicate LengthInUse(dict: set<string>, first: string, n: nat) {
    exists w <- dict :: |w| == n && w != "" && w[..1] == first
  }

  /** A dictionary word of n slots lies at i. */
  ghost predicate Hit(dict: set<string>, txt: seq<string>, i: nat, n: nat) {
    && 0 < n && i + n <= |txt|
    && LengthInUse(dict, txt[i], n)
    && var word := Join(txt[i..i + n]);
       word in dict && word != "" && word[..1] == txt[i]
  }

  /** The shortest hit at i of at least n slots; zero for none. */
  ghost function FirstHit(dict: set<string>, txt: seq<string>, i: nat, n: nat): (r: nat)
    requires 0 < n
    ensures r == 0 ==> forall m | n <= m :: !Hit(dict, txt, i, m)
    ensures r > 0 ==> n <= r && Hit(dict, txt, i, r) && forall m | n <= m < r :: !Hit(dict, txt, i, m)
    decreases |txt| - i - n
  {
    if i + n > |txt| then 0
    else if Hit(dict, txt, i, n) then n
    else FirstHit(dict, txt, i, n + 1)
  }

  datatype Match = Match(pos: nat, len: nat)

  /** The scan from i on. */
  ghost function Matches(dict: set<string>, txt: seq<string>, i: nat): (ms: seq<Match>)
    decreases |txt| - i
  {
    if i >= |txt| then [] else
    var n := FirstHit(dict, txt, i, 1);
    if n == 0 then Matches(dict, txt, i + 1) else [Match(i, n)] + Matches(dict, txt, i + n)
  }

  ghost predicate Covered(ms: seq<Match>, k: nat) {
    exists m <- ms :: m.pos <= k < m.pos + m.len
  }

  /** The text after the scan. An empty replacement replaces nothing. */
  ghost function Masked(txt: seq<string>, ms: seq<Match>, replacement: string): (r: seq<string>)
    ensures |r| == |txt|
  {
    seq(|txt|, k requires 0 <= k < |txt| =>
      if replacement != "" && Covered(ms, k) then replacement else txt[k])
  }

  function WordAt(txt: seq<string>, m: Match): string
    requires m.pos + m.len <= |txt|
  {
    Join(txt[m.pos..m.pos + m.len])
  }

  function Count(t: map<string, int>, word: string): int {
    if word in t then t[word] else 0
  }

  ghost predicate Within(txt: seq<string>, ms: seq<Match>) {
    forall i | 0 <= i < |ms| :: ms[i].pos + ms[i].len <= |txt|
  }

  /** The match counts. */
  ghost function Tally(txt: seq<string>, ms: seq<Match>): map<string, int>
    requires Within(txt, ms)
  {
    if ms == [] then map[] else
    var t := Tally(txt, ms[..|ms| - 1]);
    var word := WordAt(txt, ms[|ms| - 1]);
    t[word := Count(t, word) + 1]
  }

  lemma HitFits(dict: set<string>, txt: seq<string>, i: nat, n: nat)
    requires Hit(dict, txt, i, n)
    ensures 0 < n && i + n <= |txt|
  {
  }

  lemma {:induction false} MatchesWithin(dict: set<string>, txt: seq<string>, i: nat)
    ensures Within(txt, Matches(dict, txt, i))
    decreases |txt| - i
  {
    hide Hit;
    if i < |txt| {
      var n := FirstHit(dict, txt, i, 1);
      if n == 0 {
        MatchesWithin(dict, txt, i + 1);
      } else {
        HitFits(dict, txt, i, n);
        MatchesWithin(dict, txt, i + n);
      }
    }
  }
}
