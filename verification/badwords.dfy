/** The indexed bad-word filter, proved to do what `Scan` does. */
module BadWords {
  import opened Scan

  predicate Ascending(s: seq<nat>) {
    forall i, j | 0 <= i < j < |s| :: s[i] <= s[j]
  }

  lemma InsertBehind(s: seq<nat>, r: seq<nat>, x: nat)
    requires s != [] && s[0] < x
    requires forall y :: y in r <==> y == x || y in s[1..]
    ensures forall y :: y in [s[0]] + r <==> y == x || y in s
    ensures Ascending(s) && Ascending(r) ==> Ascending([s[0]] + r)
    ensures Ascending(s) ==> Ascending(s[1..])
  {
    assert s == [s[0]] + s[1..];
    if Ascending(s) && Ascending(r) {
      forall j | 0 <= j < |r|
        ensures s[0] <= r[j]
      {
        assert r[j] in r;
        if r[j] in s[1..] {
          var i :| 1 <= i < |s| && s[i] == r[j];
        }
      }
    }
  }

  /** `sort.Ints` on an ascending slice with one more element appended. */
  function Insert(s: seq<nat>, x: nat): (r: seq<nat>)
    ensures forall y :: y in r <==> y == x || y in s
    ensures Ascending(s) ==> Ascending(r)
  {
    if s == [] || x <= s[0] then [x] + s
    else
      var r := Insert(s[1..], x);
      InsertBehind(s, r, x);
      [s[0]] + r
  }

  /** `strings.Repeat("*", n)`. */
  function Stars(n: nat): (r: string)
    ensures |r| == n
  {
    seq(n, _ => '*')
  }

  ghost predicate HasLength(words: set<string>, n: nat) {
    exists w <- words :: |w| == n
  }

  /** Words with one first character, each mapped to stars, and exactly their lengths in ascending order. */
  ghost predicate Indexed(lenMap: map<nat, nat>, lenSlice: seq<nat>, words: map<string, string>, first: string) {
    && (forall w <- words :: w != "" && w[..1] == first && words[w] == Stars(|w|) && |w| in lenMap)
    && (forall n <- lenMap :: lenMap[n] == n && HasLength(words.Keys, n))
    && (forall n :: n in lenSlice <==> n in lenMap)
    && Ascending(lenSlice)
  }

  lemma HasLengthMore(words: set<string>, word: string, n: nat)
    ensures HasLength(words + {word}, n) <==> HasLength(words, n) || n == |word|
  {
    if HasLength(words, n) {
      var w :| w in words && |w| == n;
      assert w in words + {word};
    }
    assert word in words + {word};
  }

  lemma IndexedKnownLength(
      lenMap: map<nat, nat>, lenSlice: seq<nat>, words: map<string, string>, first: string, word: string)
    requires Indexed(lenMap, lenSlice, words, first) && word != "" && word[..1] == first && |word| in lenMap
    ensures Indexed(lenMap, lenSlice, words[word := Stars(|word|)], first)
  {
    hide Stars, HasLength;
    var more := words[word := Stars(|word|)];
    assert more.Keys == words.Keys + {word};
    forall n <- lenMap
      ensures HasLength(more.Keys, n)
    {
      HasLengthMore(words.Keys, word, n);
    }
  }

  lemma IndexedNewLength(
      lenMap: map<nat, nat>, lenSlice: seq<nat>, words: map<string, string>, first: string, word: string)
    requires Indexed(lenMap, lenSlice, words, first) && word != "" && word[..1] == first && |word| !in lenMap
    ensures Indexed(lenMap[|word| := |word|], Insert(lenSlice, |word|), words[word := Stars(|word|)], first)
  {
    hide Stars, HasLength, Insert, Ascending;
    var n := |word|;
    var more := words[word := Stars(n)];
    assert more.Keys == words.Keys + {word};
    forall m <- lenMap[n := n]
      ensures HasLength(more.Keys, m)
    {
      HasLengthMore(words.Keys, word, m);
    }
  }

  class WordMap {
    var lenMap: map<nat, nat>
    var lenSlice: seq<nat>
    var words: map<string, string>

    ghost predicate Valid(first: string)
      reads this
    {
      Indexed(lenMap, lenSlice, words, first)
    }

    constructor ()
      ensures lenMap == map[] && lenSlice == [] && words == map[]
    {
      lenMap, lenSlice, words := map[], [], map[];
    }

    /** The part of `add` behind the lookup of the tree. */
    method AddWord(word: string, first: string)
      requires Valid(first) && word != "" && word[..1] == first
      modifies this
      ensures Valid(first) && words.Keys == old(words.Keys) + {word}
    {
      hide Indexed;
      var length := |word|;
      if word !in words {
        if length in lenMap {
          IndexedKnownLength(lenMap, lenSlice, words, first, word);
        } else {
          IndexedNewLength(lenMap, lenSlice, words, first, word);
        }
        words := words[word := Stars(length)];
        if length !in lenMap {
          lenMap := lenMap[length := length];
          lenSlice := Insert(lenSlice, length);
        }
      }
    }
  }

  lemma NothingIndexed(first: string)
    ensures Indexed(map[], [], map[], first)
  {
  }

  class WordTree {
    var wordMaxLen: nat
    var trees: map<string, WordMap>
    ghost var dict: set<string>  // every word that has been added

    ghost predicate Valid()
      reads this, trees.Values
    {
      && (forall k <- trees :: |k| == 1 && trees[k].Valid(k))
      && (forall k, l | k in trees && l in trees && k != l :: trees[k] != trees[l])
      && (forall w :: w in dict <==> w != "" && w[..1] in trees && w in trees[w[..1]].words)
      && (forall w <- dict :: |w| <= wordMaxLen)
    }

    constructor ()
      ensures Valid() && dict == {} && trees == map[] && wordMaxLen == 0
    {
      wordMaxLen, trees, dict := 0, map[], {};
    }

    method NewTree(first: string)
      requires Valid() && |first| == 1 && first !in trees
      modifies this`trees
      ensures Valid() && first in trees && fresh(trees.Values - old(trees.Values))
    {
      hide Indexed;
      var m := new WordMap();
      NothingIndexed(first);
      ghost var before := trees;
      trees := trees[first := m];
      assert trees.Values <= before.Values + {m};
      assert forall w <- dict :: w[..1] in before && trees[w[..1]] == before[w[..1]];
    }

    method AddTo(first: string, word: string)
      requires Valid() && word != "" && first == word[..1] && first in trees && |word| <= wordMaxLen
      modifies trees[first], this`dict
      ensures Valid() && dict == old(dict) + {word}
    {
      hide Indexed;
      trees[first].AddWord(word, first);
      dict := dict + {word};
      assert forall k <- trees | k != first :: trees[k].words == old(trees[k].words);
    }

    /** `add`. An empty word has no first character; the source fails on it too. */
    method Add(word: string)
      requires Valid() && word != ""
      modifies this, trees.Values
      ensures Valid() && dict == old(dict) + {word}
      ensures wordMaxLen == if old(wordMaxLen) < |word| then |word| else old(wordMaxLen)
      ensures fresh(trees.Values - old(trees.Values))
    {
      hide Indexed;
      var length := |word|;
      if length > wordMaxLen {
        wordMaxLen := length;
      }
      var first := word[..1];
      if first !in trees {
        NewTree(first);
      }
      AddTo(first, word);
    }
  }

  // ---------- the search ----------

  /** In a valid tree a length is worth trying exactly when it is in the slice of the first character. */
  lemma LengthsOfTree(tree: WordTree, first: string, n: nat)
    requires tree.Valid()
    ensures LengthInUse(tree.dict, first, n) <==> first in tree.trees && n in tree.trees[first].lenSlice
  {
    hide Stars, Ascending;
    if LengthInUse(tree.dict, first, n) {
      var w :| w in tree.dict && |w| == n && w != "" && w[..1] == first;
      assert w in tree.trees[first].words;
    }
    if first in tree.trees && n in tree.trees[first].lenSlice {
      assert HasLength(tree.trees[first].words.Keys, n);
      var w :| w in tree.trees[first].words && |w| == n;
      assert w != "" && w[..1] == first;
      assert w in tree.dict;
    }
  }

  lemma WordsOfTree(tree: WordTree, first: string, word: string)
    requires tree.Valid() && first in tree.trees
    ensures (word in tree.trees[first].words && tree.trees[first].words[word] != "")
            <==> word in tree.dict && word != "" && word[..1] == first
  {
    if word in tree.trees[first].words {
      assert tree.trees[first].Valid(first);
    }
  }

  /** All matches lie before i. */
  ghost predicate EndsBy(ms: seq<Match>, i: nat) {
    forall m <- ms :: m.pos + m.len <= i
  }

  lemma ScanStarts(original: seq<string>, replacement: string)
    ensures Within(original, []) && Tally(original, []) == map[] && EndsBy([], 0)
    ensures Masked(original, [], replacement) == original
    ensures forall q: seq<Match> :: [] + q == q
  {
  }

  lemma AheadIsOriginal(original: seq<string>, ms: seq<Match>, replacement: string, i: nat)
    requires EndsBy(ms, i) && i <= |original|
    ensures Masked(original, ms, replacement)[i..] == original[i..]
  {
  }

  lemma MatchesStep(dict: set<string>, original: seq<string>, i: nat)
    requires i < |original|
    ensures var n := FirstHit(dict, original, i, 1);
            && Matches(dict, original, i)
               == (if n == 0 then Matches(dict, original, i + 1) else [Match(i, n)] + Matches(dict, original, i + n))
  {
    hide FirstHit;
  }

  lemma MatchesEnd(dict: set<string>, original: seq<string>, i: nat)
    requires i >= |original|
    ensures Matches(dict, original, i) == []
  {
  }

  lemma MaskMore(original: seq<string>, ms: seq<Match>, replacement: string, m: Match, after: seq<string>)
    requires Within(original, ms) && m.pos + m.len <= |original| == |after| && EndsBy(ms, m.pos)
    requires forall k | 0 <= k < |original| ::
               after[k] == if replacement != "" && m.pos <= k < m.pos + m.len then replacement
                           else Masked(original, ms, replacement)[k]
    ensures after == Masked(original, ms + [m], replacement)
    ensures Within(original, ms + [m]) && EndsBy(ms + [m], m.pos + m.len)
  {
    forall k | 0 <= k < |original|
      ensures Covered(ms + [m], k) <==> Covered(ms, k) || m.pos <= k < m.pos + m.len
    {
      assert m in ms + [m];
      assert forall x <- ms :: x in ms + [m];
    }
  }

  lemma TallyMore(original: seq<string>, ms: seq<Match>, m: Match)
    requires Within(original, ms) && m.pos + m.len <= |original|
    ensures Within(original, ms + [m])
    ensures var t := Tally(original, ms);
            var word := WordAt(original, m);
            Tally(original, ms + [m]) == t[word := (if word in t then t[word] else 0) + 1]
  {
    hide Join;
    assert (ms + [m])[..|ms|] == ms;
  }

  lemma EndsLater(ms: seq<Match>, i: nat)
    requires EndsBy(ms, i)
    ensures EndsBy(ms, i + 1)
  {
  }

  /** None of the first j lengths of the tree for original[i] is a hit at i. */
  ghost predicate NoneBefore(tree: WordTree, original: seq<string>, i: nat, j: nat)
    reads tree, tree.trees.Values
  {
    && i < |original| && original[i] in tree.trees
    && var slice := tree.trees[original[i]].lenSlice;
       j <= |slice| && forall k | 0 <= k < j :: !Hit(tree.dict, original, i, slice[k])
  }

  /** The lookup of the inner loop decides a hit. */
  lemma HitByIndex(tree: WordTree, original: seq<string>, i: nat, n: nat)
    requires tree.Valid() && i + n <= |original| && i < |original| && original[i] in tree.trees
    requires n in tree.trees[original[i]].lenSlice
    ensures var words := tree.trees[original[i]].words;
            var word := Join(original[i..i + n]);
            Hit(tree.dict, original, i, n) <==> (if word in words then words[word] else "") != ""
    ensures n > 0
  {
    hide Join;
    LengthsOfTree(tree, original[i], n);
    WordsOfTree(tree, original[i], Join(original[i..i + n]));
  }

  lemma SliceAscends(tree: WordTree, first: string)
    requires tree.Valid() && first in tree.trees
    ensures Ascending(tree.trees[first].lenSlice)
  {
    assert tree.trees[first].Valid(first);
  }

  lemma NoHitOf(tree: WordTree, original: seq<string>, i: nat, j: nat, m: nat)
    requires tree.Valid() && NoneBefore(tree, original, i, j)
    requires var slice := tree.trees[original[i]].lenSlice;
             j < |slice| ==> i + slice[j] > |original|
    ensures !Hit(tree.dict, original, i, m)
  {
    hide Indexed, Join;
    var slice := tree.trees[original[i]].lenSlice;
    SliceAscends(tree, original[i]);
    LengthsOfTree(tree, original[i], m);
    if m in slice {
      var k :| 0 <= k < |slice| && slice[k] == m;
      assert j <= k ==> slice[j] <= slice[k];
    }
  }

  /** No hit at the lengths before j, and what lies from j on does not fit. */
  lemma NoHit(tree: WordTree, original: seq<string>, i: nat, j: nat)
    requires tree.Valid() && NoneBefore(tree, original, i, j)
    requires var slice := tree.trees[original[i]].lenSlice;
             j < |slice| ==> i + slice[j] > |original|
    ensures FirstHit(tree.dict, original, i, 1) == 0
  {
    hide Hit, NoneBefore, WordTree.Valid;
    NoHitOf(tree, original, i, j, FirstHit(tree.dict, original, i, 1));
  }

  lemma NoTreeNoHit(tree: WordTree, original: seq<string>, i: nat)
    requires tree.Valid() && i < |original| && original[i] !in tree.trees
    ensures FirstHit(tree.dict, original, i, 1) == 0
  {
    hide Indexed, Join;
    LengthsOfTree(tree, original[i], FirstHit(tree.dict, original, i, 1));
  }

  /** A hit at length j after none at the lengths before is the first. */
  lemma IsFirstHit(tree: WordTree, original: seq<string>, i: nat, j: nat)
    requires tree.Valid() && NoneBefore(tree, original, i, j) && j < |tree.trees[original[i]].lenSlice|
    requires Hit(tree.dict, original, i, tree.trees[original[i]].lenSlice[j])
    ensures FirstHit(tree.dict, original, i, 1) == tree.trees[original[i]].lenSlice[j]
  {
    hide Indexed, Join;
    var slice := tree.trees[original[i]].lenSlice;
    SliceAscends(tree, original[i]);
    var r := FirstHit(tree.dict, original, i, 1);
    assert 0 < r <= slice[j];
    LengthsOfTree(tree, original[i], r);
    var k :| 0 <= k < |slice| && slice[k] == r;
    assert j <= k ==> slice[j] <= slice[k];
  }

  class Search {
    var txt: array<string>
    var txtLen: nat
    var tree: WordTree
    var replacement: string
    var matched: map<string, int>

    constructor (tree: WordTree, txt: array<string>, replacement: string)
      ensures this.tree == tree && this.txt == txt && this.replacement == replacement
    {
      this.tree, this.txt, this.replacement := tree, txt, replacement;
      txtLen, matched := 0, map[];
    }

    method Replace(start: nat, end: nat)
      requires start <= end <= txt.Length
      modifies txt
      ensures forall k | 0 <= k < txt.Length :: txt[k] == if start <= k < end then replacement else old(txt[k])
    {
      for i := start to end
        invariant forall k | 0 <= k < txt.Length :: txt[k] == if start <= k < i then replacement else old(txt[k])
      {
        txt[i] := replacement;
      }
    }

    /** The inner loop of `run`: the first length, shortest first, at which a word lies at i. The loop stops at the
        first length that does not fit. */
    method MatchAt(i: nat, ghost original: seq<string>) returns (n: nat, word: string)
      requires tree.Valid() && i < txtLen == txt.Length == |original| && txt[i..] == original[i..]
      ensures n == FirstHit(tree.dict, original, i, 1)
      ensures n > 0 ==> i + n <= txtLen && word == Join(original[i..i + n])
    {
      hide Indexed, FirstHit, Hit, Join, WordTree.Valid, LengthInUse;
      n, word := 0, "";
      var first := txt[i];
      assert first == txt[i..][0] == original[i];
      if first in tree.trees {
        var m := tree.trees[first];
        var lenLen := |m.lenSlice|;
        for j := 0 to lenLen
          invariant NoneBefore(tree, original, i, j)
        {
          var end := i + m.lenSlice[j];
          if end > txtLen {
            NoHit(tree, original, i, j);
            return;
          }
          assert txt[i..end] == txt[i..][..end - i] == original[i..][..end - i] == original[i..end];
          word := Join(txt[i..end]);
          HitByIndex(tree, original, i, m.lenSlice[j]);
          if (if word in m.words then m.words[word] else "") != "" {
            n := m.lenSlice[j];
            IsFirstHit(tree, original, i, j);
            return;
          }
        }
        NoHit(tree, original, i, lenLen);
      } else {
        NoTreeNoHit(tree, original, i);
      }
    }

    /** The part of `run` behind a match: the slots are replaced and the word is counted. */
    method TakeMatch(i: nat, end: nat, word: string, ghost original: seq<string>, ghost ms: seq<Match>)
      requires i <= end <= txt.Length == |original| && word == Join(original[i..end])
      requires Within(original, ms) && matched == Tally(original, ms) && EndsBy(ms, i)
      requires txt[..] == Masked(original, ms, replacement)
      modifies this`matched, txt
      ensures var more := ms + [Match(i, end - i)];
              && Within(original, more) && matched == Tally(original, more) && EndsBy(more, end)
              && txt[..] == Masked(original, more, replacement)
    {
      hide Join, Masked, Tally, Within, EndsBy;
      ghost var m := Match(i, end - i);
      if replacement != "" {
        Replace(i, end);
      }
      MaskMore(original, ms, replacement, m, txt[..]);
      var sum := if word in matched then matched[word] else 0;
      TallyMore(original, ms, m);
      matched := matched[word := sum + 1];
    }

    /** `run`: text and counts come out as the scan without an index makes them. */
    method Run()
      requires tree.Valid()
      modifies this`txtLen, this`matched, txt
      ensures var original := old(txt[..]);
              var ms := Matches(tree.dict, original, 0);
              && Within(original, ms)
              && txt[..] == Masked(original, ms, replacement)
              && matched == Tally(original, ms)
    {
      hide FirstHit, Hit, Join, WordTree.Valid, Masked, Tally, Matches, Within, EndsBy;
      matched := map[];
      txtLen := txt.Length;
      ghost var original := txt[..];
      ghost var ms: seq<Match> := [];
      MatchesWithin(tree.dict, original, 0);
      ScanStarts(original, replacement);
      var i := 0;
      while i < txtLen
        invariant txtLen == txt.Length == |original| && i <= txtLen
        invariant ms + Matches(tree.dict, original, i) == Matches(tree.dict, original, 0)
        invariant Within(original, ms) && matched == Tally(original, ms)
        invariant txt[..] == Masked(original, ms, replacement)
        invariant EndsBy(ms, i)
      {
        AheadIsOriginal(original, ms, replacement, i);
        assert txt[i..] == txt[..][i..];
        var n, word := MatchAt(i, original);
        MatchesStep(tree.dict, original, i);
        if n > 0 {
          ghost var m := Match(i, n);
          var end := i + n;
          TakeMatch(i, end, word, original, ms);
          assert ms + ([m] + Matches(tree.dict, original, i + n)) == (ms + [m]) + Matches(tree.dict, original, i + n);
          ms := ms + [m];
          i := end - 1;
        } else {
          EndsLater(ms, i);
        }
        i := i + 1;
      }
      MatchesEnd(tree.dict, original, i);
      assert ms + [] == ms;
    }
  }

  /** `Search`. */
  method SearchText(tree: WordTree, txt: array<string>, replacement: string) returns (matched: map<string, int>)
    requires tree.Valid()
    modifies txt
    ensures var original := old(txt[..]);
            var ms := Matches(tree.dict, original, 0);
            && Within(original, ms)
            && txt[..] == Masked(original, ms, replacement)
            && matched == Tally(original, ms)
  {
    hide WordTree.Valid, Masked, Tally, Matches, Within;
    var s := new Search(tree, txt, replacement);
    s.Run();
    matched := s.matched;
  }
}
