/** What the bad-word filter promises about whole messages. */
module FilterLaws {
  import opened Scan
  import opened BadWords

  predicate OccursAt(msg: string, word: string, i: nat) {
    i + |word| <= |msg| && msg[i..i + |word|] == word
  }

  ghost predicate Contains(msg: string, word: string) {
    exists i: nat :: OccursAt(msg, word, i)
  }

  /** The message holds no dictionary word. */
  ghost predicate Clean(dict: set<string>, msg: string) {
    forall w <- dict :: !Contains(msg, w)
  }

  lemma {:induction false} JoinChars(msg: string)
    ensures Join(Chars(msg)) == msg
  {
    if msg != "" {
      assert Chars(msg)[1..] == Chars(msg[1..]);
      JoinChars(msg[1..]);
    }
  }

  /** Joining keeps every slot, in order. */
  lemma {:induction false} JoinSplits(a: seq<string>, b: seq<string>, slot: string)
    ensures Join(a + b) == Join(a) + Join(b) && Join([slot]) == slot
  {
    if a == [] {
      assert a + b == b;
    } else {
      assert (a + b)[1..] == a[1..] + b;
      JoinSplits(a[1..], b, slot);
    }
  }

  /** On the characters of a message a hit is a dictionary word as a substring. */
  lemma HitIsSubstring(dict: set<string>, msg: string, i: nat, n: nat)
    requires "" !in dict
    ensures Hit(dict, Chars(msg), i, n) <==> i + n <= |msg| && msg[i..i + n] in dict
  {
    if i + n <= |msg| {
      assert Chars(msg)[i..i + n] == Chars(msg[i..i + n]);
      JoinChars(msg[i..i + n]);
      var w := msg[i..i + n];
      if w in dict {
        assert |w| == n && n > 0 && w[..1] == [msg[i]] == Chars(msg)[i];
      }
    }
  }

  // ---------- completeness ----------

  lemma {:induction false} NoMatchIff(dict: set<string>, txt: seq<string>, i: nat)
    ensures Matches(dict, txt, i) == [] <==> forall k, n | i <= k :: !Hit(dict, txt, k, n)
    decreases |txt| - i
  {
    hide FirstHit;
    if i >= |txt| {
      forall k, n | i <= k
        ensures !Hit(dict, txt, k, n)
      {
      }
    } else {
      var r := FirstHit(dict, txt, i, 1);
      NoMatchIff(dict, txt, i + 1);
      if r == 0 {
        forall n
          ensures !Hit(dict, txt, i, n)
        {
        }
      }
    }
  }

  lemma TallyEmptyIff(txt: seq<string>, ms: seq<Match>)
    requires Within(txt, ms)
    ensures Tally(txt, ms) == map[] <==> ms == []
  {
    if ms != [] {
      assert WordAt(txt, ms[|ms| - 1]) in Tally(txt, ms);
    }
  }

  lemma NoHitIffClean(dict: set<string>, msg: string)
    requires "" !in dict
    ensures (forall k, n :: !Hit(dict, Chars(msg), k, n)) <==> Clean(dict, msg)
  {
    hide Hit;
    if forall k, n :: !Hit(dict, Chars(msg), k, n) {
      forall w <- dict
        ensures !Contains(msg, w)
      {
        forall i: nat
          ensures !OccursAt(msg, w, i)
        {
          HitIsSubstring(dict, msg, i, |w|);
        }
      }
    }
    if Clean(dict, msg) {
      forall k: nat, n: nat
        ensures !Hit(dict, Chars(msg), k, n)
      {
        HitIsSubstring(dict, msg, k, n);
        assert k + n <= |msg| ==> OccursAt(msg, msg[k..k + n], k);
      }
    }
  }

  /** The filter reports nothing exactly when the message contains no dictionary word. */
  lemma MatchedEmptyIffClean(dict: set<string>, msg: string)
    requires "" !in dict
    ensures var ms := Matches(dict, Chars(msg), 0);
            Within(Chars(msg), ms) && (Tally(Chars(msg), ms) == map[] <==> Clean(dict, msg))
  {
    hide Hit, Tally, Within;
    var txt := Chars(msg);
    var ms := Matches(dict, txt, 0);
    MatchesWithin(dict, txt, 0);
    TallyEmptyIff(txt, ms);
    NoMatchIff(dict, txt, 0);
    NoHitIffClean(dict, msg);
  }

  // ---------- the output ----------

  /** The scan has stood at every place it did not cover, and found nothing there. */
  lemma {:induction false} UncoveredHasNoHit(dict: set<string>, txt: seq<string>, i: nat, k: nat)
    requires i <= k < |txt| && !Covered(Matches(dict, txt, i), k)
    ensures FirstHit(dict, txt, k, 1) == 0
    decreases |txt| - i
  {
    hide FirstHit, Hit;
    var n := FirstHit(dict, txt, i, 1);
    var ms := Matches(dict, txt, i);
    if n == 0 {
      if i < k {
        UncoveredHasNoHit(dict, txt, i + 1, k);
      }
    } else {
      assert ms == [Match(i, n)] + Matches(dict, txt, i + n);
      assert Match(i, n) in ms;
      assert forall m <- Matches(dict, txt, i + n) :: m in ms;
      UncoveredHasNoHit(dict, txt, i + n, k);
    }
  }

  lemma {:induction false} JoinContains(s: seq<string>, k: nat, c: char)
    requires k < |s| && c in s[k]
    ensures c in Join(s)
  {
    if k > 0 {
      JoinContains(s[1..], k - 1, c);
    }
  }

  /** A hit in the output is a word that has every character of the replacement. */
  lemma MaskedHasNoHit(dict: set<string>, txt: seq<string>, replacement: string, c: char, i: nat, n: nat)
    requires c in replacement && i + n <= |txt|
    requires c !in Join(Masked(txt, Matches(dict, txt, 0), replacement)[i..i + n])
    ensures !Hit(dict, Masked(txt, Matches(dict, txt, 0), replacement), i, n)
  {
    hide Matches, Join;
    var ms := Matches(dict, txt, 0);
    var out := Masked(txt, ms, replacement);
    if 0 < n {
      if k :| i <= k < i + n && Covered(ms, k) {
        assert out[i..i + n][k - i] == replacement;
        JoinContains(out[i..i + n], k - i, c);
      } else {
        assert forall k | i <= k < i + n :: out[k] == txt[k];
        assert out[i..i + n] == txt[i..i + n];
        UncoveredHasNoHit(dict, txt, 0, i);
        assert !Hit(dict, txt, i, n);
      }
    }
  }

  /** So a second search of the output matches nothing and changes nothing, if no dictionary word has such a
      character. */
  lemma SecondSearchIsIdle(dict: set<string>, txt: seq<string>, replacement: string, c: char)
    requires c in replacement && forall w <- dict :: c !in w
    ensures var out := Masked(txt, Matches(dict, txt, 0), replacement);
            Matches(dict, out, 0) == [] && Masked(out, [], replacement) == out
  {
    hide Matches, Join;
    var out := Masked(txt, Matches(dict, txt, 0), replacement);
    forall i: nat, n: nat
      ensures !Hit(dict, out, i, n)
    {
      if i + n <= |txt| && c !in Join(out[i..i + n]) {
        MaskedHasNoHit(dict, txt, replacement, c, i, n);
      }
    }
    NoMatchIff(dict, out, 0);
  }

  /** The message that comes out with a single replacement character. */
  ghost function Output(dict: set<string>, msg: string, c: char): string {
    Join(Masked(Chars(msg), Matches(dict, Chars(msg), 0), [c]))
  }

  lemma OutputChars(dict: set<string>, msg: string, c: char)
    ensures Chars(Output(dict, msg, c)) == Masked(Chars(msg), Matches(dict, Chars(msg), 0), [c])
  {
    hide Matches;
    var out := Masked(Chars(msg), Matches(dict, Chars(msg), 0), [c]);
    var s := seq(|out|, k requires 0 <= k < |out| => out[k][0]);
    assert out == Chars(s);
    JoinChars(s);
  }

  /** With a single replacement character no dictionary word without it is left anywhere in the joined message,
      whatever the other dictionary words are. */
  lemma OutputHidesWord(dict: set<string>, msg: string, c: char, w: string)
    requires "" !in dict && w in dict && c !in w
    ensures !Contains(Output(dict, msg, c), w)
  {
    hide Hit, Matches, Join, Output;
    var s := Output(dict, msg, c);
    var out := Masked(Chars(msg), Matches(dict, Chars(msg), 0), [c]);
    OutputChars(dict, msg, c);
    forall i: nat
      ensures !OccursAt(s, w, i)
    {
      if OccursAt(s, w, i) {
        assert Chars(s)[i..i + |w|] == Chars(w);
        JoinChars(w);
        MaskedHasNoHit(dict, Chars(msg), [c], c, i, |w|);
        HitIsSubstring(dict, s, i, |w|);
      }
    }
  }

  /** What the filter leaves or makes of the message at i is the word: its own characters where no match covers them,
      the replacement where one does. */
  ghost predicate Survives(dict: set<string>, msg: string, c: char, w: string, i: nat) {
    && i + |w| <= |msg|
    && forall k | 0 <= k < |w| :: w[k] == if Covered(Matches(dict, Chars(msg), 0), i + k) then c else msg[i + k]
  }

  lemma OccursIffSurvives(dict: set<string>, msg: string, c: char, w: string, i: nat)
    ensures OccursAt(Output(dict, msg, c), w, i) <==> Survives(dict, msg, c, w, i)
  {
    hide Matches, Covered, Output, Join;
    var s := Output(dict, msg, c);
    OutputChars(dict, msg, c);
    assert forall k | 0 <= k < |msg| :: Chars(s)[k] == [s[k]];
    assert forall k | 0 <= k < |msg| ::
        s[k] == if Covered(Matches(dict, Chars(msg), 0), k) then c else msg[k];
    if i + |w| <= |msg| {
      var part := s[i..i + |w|];
      assert forall k | 0 <= k < |w| :: part[k] == s[i + k];
    }
  }

  /** So the output holds no dictionary word, and a second search finds nothing in it, exactly when no word with the
      replacement character in it survives anywhere in the message. */
  lemma OutputCleanIff(dict: set<string>, msg: string, c: char)
    requires "" !in dict
    ensures Clean(dict, Output(dict, msg, c)) <==>
              forall w, i: nat | w in dict && c in w :: !Survives(dict, msg, c, w, i)
    ensures Matches(dict, Chars(Output(dict, msg, c)), 0) == [] <==> Clean(dict, Output(dict, msg, c))
  {
    hide Output, OccursAt, Survives, Hit, Matches;
    NoMatchIff(dict, Chars(Output(dict, msg, c)), 0);
    NoHitIffClean(dict, Output(dict, msg, c));
    forall w <- dict | c !in w
      ensures !Contains(Output(dict, msg, c), w)
    {
      OutputHidesWord(dict, msg, c, w);
    }
    forall w: string, i: nat
      ensures OccursAt(Output(dict, msg, c), w, i) <==> Survives(dict, msg, c, w, i)
    {
      OccursIffSurvives(dict, msg, c, w, i);
    }
  }

  /** The scan of u + v passes over u and takes the dictionary word v behind it. */
  ghost predicate PassesOver(dict: set<string>, u: string, v: string) {
    && v in dict
    && (forall w, i: nat | w in dict && i < |u| :: !OccursAt(u + v, w, i))
    && (forall w <- dict | w <= v :: w == v)
  }

  lemma {:induction false} OnlyMatch(dict: set<string>, u: string, v: string, i: nat)
    requires "" !in dict && PassesOver(dict, u, v) && i <= |u|
    ensures Matches(dict, Chars(u + v), i) == [Match(|u|, |v|)]
    decreases |u| - i
  {
    hide Hit, FirstHit;
    var msg := u + v;
    var n := FirstHit(dict, Chars(msg), i, 1);
    HitIsSubstring(dict, msg, i, n);
    if i < |u| {
      assert n > 0 ==> OccursAt(msg, msg[i..i + n], i);
      OnlyMatch(dict, u, v, i + 1);
    } else {
      assert msg[i..i + |v|] == v;
      HitIsSubstring(dict, msg, i, |v|);
      assert 0 < n <= |v|;
      assert msg[i..i + n] <= v;
      assert n == |v|;
    }
  }

  /** Where the scan passes over u and takes v behind it, the output holds u followed by any shorter row of stars: a
      dictionary word of that form survives. */
  lemma StarTailSurvives(dict: set<string>, u: string, v: string, k: nat)
    requires "" !in dict && PassesOver(dict, u, v) && k <= |v|
    ensures Contains(Output(dict, u + v, '*'), u + Stars(k))
  {
    hide Matches, Output, PassesOver;
    OnlyMatch(dict, u, v, 0);
    var ms := Matches(dict, Chars(u + v), 0);
    assert ms[0] in ms;
    assert forall m <- ms :: m == Match(|u|, |v|);
    assert forall i: nat :: Covered(ms, i) <==> |u| <= i < |u| + |v|;
    assert Survives(dict, u + v, '*', u + Stars(k), 0);
    OccursIffSurvives(dict, u + v, '*', u + Stars(k), 0);
  }

  /** The exception is real: of a dictionary whose one word ends in its only star, the filter makes that word. */
  lemma StarWordSurvives(u: string)
    requires '*' !in u
    ensures var w := u + "*";
            Contains(Output({w}, u + w, '*'), w)
  {
    hide Output, Contains;
    var w := u + "*";
    var msg := u + w;
    forall i: nat | i < |u|
      ensures !OccursAt(msg, w, i)
    {
      assert msg[i + |u|] == w[i] == u[i] && u[i] in u;
      assert i + |w| <= |msg| ==> msg[i..i + |w|][|u|] == msg[i + |u|] != w[|u|];
    }
    assert Stars(1) == "*";
    StarTailSurvives({w}, u, w, 1);
  }

  /** The word of the repository's own list, in every dictionary of which no other word lies in the way. */
  lemma ListedWordSurvives(dict: set<string>)
    requires "" !in dict && PassesOver(dict, "masterbat", "masterbat*")
    ensures "masterbat*" in dict && Contains(Output(dict, "masterbatmasterbat*", '*'), "masterbat*")
  {
    hide Output;
    assert Stars(1) == "*";
    assert "masterbat" + "*" == "masterbat*";
    assert "masterbat" + "masterbat*" == "masterbatmasterbat*";
    StarTailSurvives(dict, "masterbat", "masterbat*", 1);
  }

  // ---------- the accounts ----------

  ghost function Pick(t: map<string, int>): (w: string)
    requires t != map[]
    ensures w in t
  {
    var w :| w in t;
    w
  }

  /** The characters the counts stand for: over all words, count times length. */
  ghost function Weight(t: map<string, int>): int
    decreases |t|
  {
    if t == map[] then 0 else
    var w := Pick(t);
    t[w] * |w| + Weight(t - {w})
  }

  lemma {:induction false} WeightWithout(t: map<string, int>, w: string)
    requires w in t
    ensures Weight(t) == t[w] * |w| + Weight(t - {w})
    decreases |t|
  {
    var v := Pick(t);
    if v != w {
      WeightWithout(t - {v}, w);
      WeightWithout(t - {w}, v);
      assert t - {v} - {w} == t - {w} - {v};
    }
  }

  lemma WeightCountsOneMore(t: map<string, int>, w: string)
    ensures Weight(t[w := Count(t, w) + 1]) == Weight(t) + |w|
  {
    hide Weight;
    var more := t[w := Count(t, w) + 1];
    WeightWithout(more, w);
    assert more - {w} == t - {w};
    assert (Count(t, w) + 1) * |w| == Count(t, w) * |w| + |w|;
    if w in t {
      WeightWithout(t, w);
    } else {
      assert t - {w} == t;
    }
  }

  ghost function TotalLen(ms: seq<Match>): nat {
    if ms == [] then 0 else TotalLen(ms[..|ms| - 1]) + ms[|ms| - 1].len
  }

  lemma WeightOfNothing()
    ensures Weight(map[]) == 0
  {
  }

  lemma WordLength(msg: string, m: Match)
    requires m.pos + m.len <= |msg|
    ensures |WordAt(Chars(msg), m)| == m.len
  {
    assert Chars(msg)[m.pos..m.pos + m.len] == Chars(msg[m.pos..m.pos + m.len]);
    JoinChars(msg[m.pos..m.pos + m.len]);
  }

  /** Over the words reported, count times length adds up to the characters the matches take. */
  lemma {:induction false} TallyWeighsMatches(msg: string, ms: seq<Match>)
    requires Within(Chars(msg), ms)
    ensures Weight(Tally(Chars(msg), ms)) == TotalLen(ms)
  {
    hide Weight, Join;
    if ms == [] {
      WeightOfNothing();
    } else {
      var m := ms[|ms| - 1];
      TallyWeighsMatches(msg, ms[..|ms| - 1]);
      WordLength(msg, m);
      WeightCountsOneMore(Tally(Chars(msg), ms[..|ms| - 1]), WordAt(Chars(msg), m));
    }
  }

  /** The places of one match. */
  ghost function Places(m: Match): (r: set<nat>)
    ensures |r| == m.len
    ensures forall k: nat :: k in r <==> m.pos <= k < m.pos + m.len
    decreases m.len
  {
    if m.len == 0 then {} else Places(Match(m.pos, m.len - 1)) + {m.pos + m.len - 1}
  }

  lemma CoveredByLast(ms: seq<Match>)
    requires ms != []
    ensures var m := ms[|ms| - 1];
            forall k: nat :: Covered(ms, k) <==> Covered(ms[..|ms| - 1], k) || m.pos <= k < m.pos + m.len
  {
    var m := ms[|ms| - 1];
    assert m in ms;
    assert forall x <- ms[..|ms| - 1] :: x in ms;
    assert forall x <- ms :: x == m || x in ms[..|ms| - 1];
  }

  ghost function CoveredPlaces(ms: seq<Match>): (r: set<nat>)
    ensures forall k: nat :: k in r <==> Covered(ms, k)
  {
    if ms == [] then {} else
    var last := |ms| - 1;
    CoveredByLast(ms);
    CoveredPlaces(ms[..last]) + Places(ms[last])
  }

  /** Matches in order of place that do not overlap. */
  ghost predicate Disjoint(ms: seq<Match>) {
    forall i, j | 0 <= i < j < |ms| :: ms[i].pos + ms[i].len <= ms[j].pos
  }

  ghost predicate StartsFrom(ms: seq<Match>, i: nat) {
    forall j | 0 <= j < |ms| :: i <= ms[j].pos
  }

  lemma DisjointCons(m: Match, rest: seq<Match>)
    requires Disjoint(rest) && StartsFrom(rest, m.pos + m.len)
    ensures Disjoint([m] + rest) && StartsFrom([m] + rest, m.pos)
  {
  }

  lemma DisjointNone()
    ensures Disjoint([])
  {
  }

  lemma {:induction false} MatchesDisjoint(dict: set<string>, txt: seq<string>, i: nat)
    ensures Disjoint(Matches(dict, txt, i)) && StartsFrom(Matches(dict, txt, i), i)
    decreases |txt| - i
  {
    hide FirstHit, Disjoint;
    if i < |txt| {
      var n := FirstHit(dict, txt, i, 1);
      if n == 0 {
        MatchesDisjoint(dict, txt, i + 1);
      } else {
        MatchesDisjoint(dict, txt, i + n);
        DisjointCons(Match(i, n), Matches(dict, txt, i + n));
      }
    } else {
      DisjointNone();
    }
  }

  lemma FrontApart(ms: seq<Match>, k: nat)
    requires Disjoint(ms) && ms != [] && Covered(ms[..|ms| - 1], k)
    ensures k < ms[|ms| - 1].pos
  {
    var front := ms[..|ms| - 1];
    var x :| x in front && x.pos <= k < x.pos + x.len;
    var i :| 0 <= i < |front| && front[i] == x;
    assert ms[i] == x;
  }

  lemma SizeOfUnion(a: set<nat>, b: set<nat>)
    requires a !! b
    ensures |a + b| == |a| + |b|
  {
  }

  lemma {:induction false} DisjointCoverTotal(ms: seq<Match>)
    requires Disjoint(ms)
    ensures |CoveredPlaces(ms)| == TotalLen(ms)
  {
    if ms != [] {
      hide Covered, Places;
      var last := |ms| - 1;
      var front := ms[..last];
      DisjointCoverTotal(front);
      forall k | k in CoveredPlaces(front)
        ensures k !in Places(ms[last])
      {
        FrontApart(ms, k);
      }
      SizeOfUnion(CoveredPlaces(front), Places(ms[last]));
    }
  }

  /** Count times length, over the words reported, is the number of places replaced; the message keeps its length. */
  lemma ReportAddsUp(dict: set<string>, msg: string, replacement: string)
    ensures var txt := Chars(msg);
            var ms := Matches(dict, txt, 0);
            && Within(txt, ms)
            && Weight(Tally(txt, ms)) == |CoveredPlaces(ms)|
            && |Masked(txt, ms, replacement)| == |msg|
            && (replacement == "" ==> Masked(txt, ms, replacement) == txt)
            && (replacement != "" ==> forall k | 0 <= k < |msg| ::
                  Masked(txt, ms, replacement)[k] == if k in CoveredPlaces(ms) then replacement else txt[k])
  {
    hide Weight, Tally, Matches, Disjoint, Covered;
    var txt := Chars(msg);
    var ms := Matches(dict, txt, 0);
    MatchesWithin(dict, txt, 0);
    MatchesDisjoint(dict, txt, 0);
    TallyWeighsMatches(msg, ms);
    DisjointCoverTotal(ms);
  }

  // ---------- what the scan finds ----------

  lemma NoEmptyHit(dict: set<string>, txt: seq<string>, i: nat)
    ensures !Hit(dict, txt, i, 0)
  {
  }

  lemma {:induction false} MatchesAreHits(dict: set<string>, txt: seq<string>, i: nat, m: Match)
    requires m in Matches(dict, txt, i)
    ensures Hit(dict, txt, m.pos, m.len) && forall n: nat | n < m.len :: !Hit(dict, txt, m.pos, n)
    decreases |txt| - i
  {
    hide Hit, FirstHit;
    var n := FirstHit(dict, txt, i, 1);
    if n == 0 {
      MatchesAreHits(dict, txt, i + 1, m);
    } else if m == Match(i, n) {
      NoEmptyHit(dict, txt, i);
    } else {
      MatchesAreHits(dict, txt, i + n, m);
    }
  }

  /** The part of the message under a match. */
  function Under(msg: string, m: Match): string
    requires m.pos + m.len <= |msg|
  {
    msg[m.pos..m.pos + m.len]
  }

  ghost predicate NoWordAt(dict: set<string>, msg: string, k: nat) {
    forall n | k <= n <= |msg| :: msg[k..n] !in dict
  }

  /** The shortest dictionary word at its place. */
  ghost predicate Shortest(dict: set<string>, msg: string, m: Match) {
    m.pos + m.len <= |msg| && Under(msg, m) in dict && forall n | m.pos <= n < m.pos + m.len :: msg[m.pos..n] !in dict
  }

  /** A reading of the message from i on: dictionary words, each the shortest at its place, in order and apart, and no
      dictionary word at any place outside them. */
  ghost predicate Reading(dict: set<string>, msg: string, i: nat, ms: seq<Match>) {
    && Disjoint(ms) && StartsFrom(ms, i)
    && (forall m <- ms :: Shortest(dict, msg, m))
    && (forall k | i <= k <= |msg| && !Covered(ms, k) :: NoWordAt(dict, msg, k))
  }

  /** `FirstHit` in terms of the message. */
  lemma FirstWord(dict: set<string>, msg: string, i: nat)
    requires "" !in dict && i < |msg|
    ensures var n := FirstHit(dict, Chars(msg), i, 1);
            if n == 0 then NoWordAt(dict, msg, i) else Shortest(dict, msg, Match(i, n))
  {
    hide FirstHit, Hit, Chars;
    var n := FirstHit(dict, Chars(msg), i, 1);
    HitIsSubstring(dict, msg, i, n);
    forall e | i <= e <= |msg|
      ensures msg[i..e] in dict ==> e > i && Hit(dict, Chars(msg), i, e - i)
    {
      HitIsSubstring(dict, msg, i, e - i);
      if e == i {
        assert msg[i..e] == "";
      }
    }
  }

  lemma ScanIsReading(dict: set<string>, msg: string, i: nat)
    requires "" !in dict
    ensures Reading(dict, msg, i, Matches(dict, Chars(msg), i))
  {
    hide Matches, Hit, FirstHit, Covered, Disjoint, StartsFrom, Chars;
    var ms := Matches(dict, Chars(msg), i);
    MatchesDisjoint(dict, Chars(msg), i);
    forall m <- ms
      ensures Shortest(dict, msg, m)
    {
      MatchesAreHits(dict, Chars(msg), i, m);
      HitIsSubstring(dict, msg, m.pos, m.len);
      forall n | m.pos <= n < m.pos + m.len
        ensures msg[m.pos..n] !in dict
      {
        HitIsSubstring(dict, msg, m.pos, n - m.pos);
      }
    }
    forall k | i <= k <= |msg| && !Covered(ms, k)
      ensures NoWordAt(dict, msg, k)
    {
      if k < |msg| {
        UncoveredHasNoHit(dict, Chars(msg), i, k);
        FirstWord(dict, msg, k);
      } else {
        assert forall n | k <= n <= |msg| :: msg[k..n] == "";
      }
    }
  }

  lemma NothingUnder(msg: string, m: Match)
    requires m.pos + m.len <= |msg|
    ensures |Under(msg, m)| == m.len
  {
  }

  lemma ShortestIs(dict: set<string>, msg: string, m: Match, n: nat)
    requires "" !in dict && Shortest(dict, msg, m)
    ensures m.len > 0 && !NoWordAt(dict, msg, m.pos)
    ensures Shortest(dict, msg, Match(m.pos, n)) ==> n == m.len
  {
    NothingUnder(msg, m);
    assert Under(msg, m) == msg[m.pos..m.pos + m.len];
    if Shortest(dict, msg, Match(m.pos, n)) {
      assert Under(msg, Match(m.pos, n)) == msg[m.pos..m.pos + n];
    }
  }

  lemma NoneStartsAt(dict: set<string>, msg: string, i: nat, ms: seq<Match>)
    requires "" !in dict && Reading(dict, msg, i, ms) && NoWordAt(dict, msg, i)
    ensures Reading(dict, msg, i + 1, ms)
  {
    hide Covered, Disjoint, Shortest, NoWordAt;
    forall j | 0 <= j < |ms|
      ensures ms[j].pos > i
    {
      ShortestIs(dict, msg, ms[j], 0);
    }
  }

  lemma CoveredByFirst(ms: seq<Match>, i: nat)
    requires Disjoint(ms) && StartsFrom(ms, i) && Covered(ms, i) && ms[0].len > 0
    ensures ms[0].pos == i
  {
    var m :| m in ms && m.pos <= i < m.pos + m.len;
    var j :| 0 <= j < |ms| && ms[j] == m;
  }

  lemma CoveredNotEmpty(ms: seq<Match>, i: nat)
    requires Covered(ms, i)
    ensures ms != []
  {
  }

  lemma FitsAt(dict: set<string>, msg: string, i: nat, n: nat)
    requires Shortest(dict, msg, Match(i, n))
    ensures i <= |msg|
  {
  }

  /** The word at i is under the first match. */
  lemma FirstStartsAt(dict: set<string>, msg: string, i: nat, ms: seq<Match>, n: nat)
    requires "" !in dict && Reading(dict, msg, i, ms) && Shortest(dict, msg, Match(i, n))
    ensures ms != [] && ms[0] == Match(i, n)
  {
    hide Covered, Disjoint, Shortest, NoWordAt, StartsFrom;
    ShortestIs(dict, msg, Match(i, n), n);
    FitsAt(dict, msg, i, n);
    CoveredNotEmpty(ms, i);
    ShortestIs(dict, msg, ms[0], n);
    CoveredByFirst(ms, i);
  }

  lemma RestCovers(ms: seq<Match>, k: nat)
    requires ms != [] && ms[0].pos + ms[0].len <= k && Covered(ms, k)
    ensures Covered(ms[1..], k)
  {
    assert ms == [ms[0]] + ms[1..];
  }

  lemma RestDisjoint(ms: seq<Match>)
    requires ms != [] && Disjoint(ms)
    ensures Disjoint(ms[1..]) && StartsFrom(ms[1..], ms[0].pos + ms[0].len)
  {
  }

  lemma RestReads(dict: set<string>, msg: string, i: nat, ms: seq<Match>, n: nat)
    requires Reading(dict, msg, i, ms) && ms != [] && ms[0] == Match(i, n)
    ensures Reading(dict, msg, i + n, ms[1..])
  {
    hide Covered, Disjoint, Shortest, NoWordAt, StartsFrom;
    RestDisjoint(ms);
    forall k | i + n <= k <= |msg| && !Covered(ms[1..], k)
      ensures NoWordAt(dict, msg, k)
    {
      if Covered(ms, k) {
        RestCovers(ms, k);
      }
    }
  }

  lemma NoWordsNoReading(dict: set<string>, msg: string, i: nat, ms: seq<Match>)
    requires "" !in dict && Reading(dict, msg, i, ms) && i >= |msg|
    ensures ms == []
  {
    hide Covered, Disjoint;
    if ms != [] {
      ShortestIs(dict, msg, ms[0], 0);
    }
  }

  /** Every message has exactly one reading from each place on, and the scan finds it. */
  lemma {:induction false} ScanIsOnlyReading(dict: set<string>, msg: string, i: nat, ms: seq<Match>)
    requires "" !in dict
    ensures Reading(dict, msg, i, ms) <==> ms == Matches(dict, Chars(msg), i)
    decreases |msg| - i
  {
    hide FirstHit, Hit;
    ScanIsReading(dict, msg, i);
    if Reading(dict, msg, i, ms) {
      hide Reading;
      if i >= |msg| {
        NoWordsNoReading(dict, msg, i, ms);
      } else {
        var n := FirstHit(dict, Chars(msg), i, 1);
        FirstWord(dict, msg, i);
        if n == 0 {
          NoneStartsAt(dict, msg, i, ms);
          ScanIsOnlyReading(dict, msg, i + 1, ms);
        } else {
          FirstStartsAt(dict, msg, i, ms, n);
          RestReads(dict, msg, i, ms, n);
          ScanIsOnlyReading(dict, msg, i + n, ms[1..]);
        }
      }
    }
  }

  // ---------- what the report says ----------

  lemma WordIsUnder(msg: string, m: Match)
    requires m.pos + m.len <= |msg|
    ensures WordAt(Chars(msg), m) == Under(msg, m)
  {
    assert Chars(msg)[m.pos..m.pos + m.len] == Chars(Under(msg, m));
    JoinChars(Under(msg, m));
  }

  /** The numbers of the matches that the word lies under. */
  ghost function MatchesOf(msg: string, ms: seq<Match>, word: string): set<nat>
    requires Within(Chars(msg), ms)
  {
    set k: nat | k < |ms| && Under(msg, ms[k]) == word
  }

  lemma MatchesOfMore(msg: string, ms: seq<Match>, word: string)
    requires Within(Chars(msg), ms) && ms != []
    ensures var n := |ms| - 1;
            && Within(Chars(msg), ms[..n])
            && MatchesOf(msg, ms, word)
               == MatchesOf(msg, ms[..n], word) + (if Under(msg, ms[n]) == word then {n} else {})
            && n !in MatchesOf(msg, ms[..n], word)
  {
  }

  lemma LastIsWithin(msg: string, ms: seq<Match>)
    requires Within(Chars(msg), ms) && ms != []
    ensures ms[|ms| - 1].pos + ms[|ms| - 1].len <= |msg|
  {
  }

  lemma NoMatchesOf(msg: string, ms: seq<Match>, word: string)
    requires Within(Chars(msg), ms) && ms == []
    ensures MatchesOf(msg, ms, word) == {}
  {
  }

  /** The count of a word is the number of matches it lies under, and a word under no match is not reported. */
  lemma {:induction false} TallyCounts(msg: string, ms: seq<Match>, word: string)
    requires Within(Chars(msg), ms)
    ensures var t := Tally(Chars(msg), ms);
            && Count(t, word) == |MatchesOf(msg, ms, word)|
            && (word in t <==> MatchesOf(msg, ms, word) != {})
  {
    hide WordAt, Within, Under;
    if ms == [] {
      NoMatchesOf(msg, ms, word);
    } else {
      var n := |ms| - 1;
      MatchesOfMore(msg, ms, word);
      TallyCounts(msg, ms[..n], word);
      LastIsWithin(msg, ms);
      WordIsUnder(msg, ms[n]);
    }
  }

  lemma TakenIs(dict: set<string>, msg: string, ms: seq<Match>, k: nat)
    requires Reading(dict, msg, 0, ms) && k < |ms|
    ensures ms[k].pos + ms[k].len <= |msg| && Under(msg, ms[k]) in dict && Contains(msg, Under(msg, ms[k]))
  {
    hide Covered, Disjoint, StartsFrom;
    assert Shortest(dict, msg, ms[k]);
    assert OccursAt(msg, Under(msg, ms[k]), ms[k].pos);
  }

  /** The report of a search: it names exactly the dictionary words that the scan takes from the message, each with the
      number of times, and every one of them is in the message. */
  lemma ReportIs(dict: set<string>, msg: string, word: string)
    requires "" !in dict
    ensures var ms := Matches(dict, Chars(msg), 0);
            && Within(Chars(msg), ms)
            && var t := Tally(Chars(msg), ms);
               && Count(t, word) == |MatchesOf(msg, ms, word)|
               && (word in t <==> exists m <- ms :: m.pos + m.len <= |msg| && Under(msg, m) == word)
               && (word in t ==> t[word] > 0 && word in dict && Contains(msg, word))
  {
    hide Matches, Tally, Hit, Reading, Contains, Covered;
    var ms := Matches(dict, Chars(msg), 0);
    MatchesWithin(dict, Chars(msg), 0);
    TallyCounts(msg, ms, word);
    ScanIsReading(dict, msg, 0);
    if word in Tally(Chars(msg), ms) {
      var k :| k in MatchesOf(msg, ms, word);
      TakenIs(dict, msg, ms, k);
    }
    if m :| m in ms && m.pos + m.len <= |msg| && Under(msg, m) == word {
      var k: nat :| k < |ms| && ms[k] == m;
      assert k in MatchesOf(msg, ms, word);
    }
  }
}
