/** The chat history: a slice that is appended to and cut to its last fifty elements, with the array behind it. */
module History {
  const HISTORY_RECORD_COUNT: nat := 50

  /** The last n elements, or all of them. */
  function LastOf<T>(s: seq<T>, n: nat): seq<T> {
    if |s| <= n then s else s[|s| - n..]
  }

  lemma LastOfSnoc<T>(s: seq<T>, x: T, n: nat)
    ensures LastOf(LastOf(s, n) + [x], n) == LastOf(s + [x], n)
  {
  }

  /** A Go slice of strings: `len` elements of arr from `off` on, with capacity to the end of arr. */
  datatype Slice = Slice(arr: array<string>, off: nat, len: nat) {
    ghost predicate Fits()
    {
      off + len <= arr.Length
    }

    ghost function Contents(): seq<string>
      requires Fits()
      reads arr
    {
      arr[off..off + len]
    }
  }

  /** Go's `append` of one element: in place while there is capacity, into a larger array otherwise. */
  method Append(s: Slice, x: string) returns (r: Slice)
    requires s.Fits()
    modifies s.arr
    ensures r.Fits() && r.Contents() == old(s.Contents()) + [x]
    ensures if s.off + s.len < s.arr.Length then r == Slice(s.arr, s.off, s.len + 1) else fresh(r.arr)
    ensures s.arr[..s.off + s.len] == old(s.arr[..s.off + s.len])
  {
    if s.off + s.len < s.arr.Length {
      s.arr[s.off + s.len] := x;
      r := Slice(s.arr, s.off, s.len + 1);
    } else {
      var bigger := new string[2 * s.len + 1](_ => "");
      forall i | 0 <= i < s.len {
        bigger[i] := s.arr[s.off + i];
      }
      bigger[s.len] := x;
      r := Slice(bigger, 0, s.len + 1);
      ghost var was := old(s.Contents());
      assert forall k | 0 <= k < s.len :: r.Contents()[k] == bigger[k] == was[k];
    }
  }

  lemma PrefixHoldsSlice(a: seq<string>, b: seq<string>, m: nat, i: nat, j: nat)
    requires i <= j <= m <= |a| && m <= |b| && a[..m] == b[..m]
    ensures a[i..j] == b[i..j]
  {
    assert a[i..j] == a[..m][i..j] && b[i..j] == b[..m][i..j];
  }

  lemma CutLast(s: Slice, n: nat)
    requires s.Fits()
    ensures if s.len > n then Slice(s.arr, s.off + s.len - n, n).Contents() == LastOf(s.Contents(), n)
            else s.Contents() == LastOf(s.Contents(), n)
  {
  }

  class HistoryRecord {
    var history: Slice
    ghost var all: seq<string>  // every message added so far
    ghost var issued: seq<Slice>  // every slice handed out so far
    ghost var seen: seq<seq<string>>  // what each of them held then

    /** The history is the last fifty messages, and every slice handed out still holds what it held: what is appended
        lies behind it, or in another array. */
    ghost predicate Valid()
      reads this, history.arr, set s | s in issued :: s.arr
    {
      && history.Fits() && history.Contents() == LastOf(all, HISTORY_RECORD_COUNT)
      && |issued| == |seen|
      && forall i | 0 <= i < |issued| ::
           && issued[i].Fits() && issued[i].Contents() == seen[i]
           && (issued[i].arr == history.arr ==> issued[i].off + issued[i].len <= history.off + history.len)
    }

    constructor ()
      ensures Valid() && all == [] && issued == [] && seen == [] && fresh(history.arr)
    {
      var a := new string[0];
      history, all, issued, seen := Slice(a, 0, 0), [], [], [];
    }

    /** So the history is the last fifty messages, oldest first. */
    lemma IsLastFifty()
      requires Valid()
      ensures history.Fits() && history.Contents() == if |all| <= 50 then all else all[|all| - 50..]
    {
    }

    method GetHistory() returns (s: Slice)
      requires Valid()
      modifies this`issued, this`seen
      ensures Valid() && s.Fits()
      ensures s.Contents() == if |all| <= 50 then all else all[|all| - 50..]
      ensures issued == old(issued) + [s] && seen == old(seen) + [s.Contents()]
    {
      s := history;
      issued, seen := issued + [s], seen + [s.Contents()];
    }

    /** Writing behind the end of the current slice disturbs no slice handed out. */
    lemma KeepIssued(before: Slice, held: seq<string>)
      requires before.Fits() && |issued| == |seen| && |held| == before.arr.Length
      requires before.arr[..before.off + before.len] == held[..before.off + before.len]
      requires forall i | 0 <= i < |issued| ::
                 && issued[i].Fits()
                 && (issued[i].arr == before.arr ==>
                       && issued[i].off + issued[i].len <= before.off + before.len
                       && held[issued[i].off..issued[i].off + issued[i].len] == seen[i])
                 && (issued[i].arr != before.arr ==> issued[i].Contents() == seen[i])
      ensures forall i | 0 <= i < |issued| :: issued[i].Contents() == seen[i]
    {
      forall i | 0 <= i < |issued|
        ensures issued[i].Contents() == seen[i]
      {
        if issued[i].arr == before.arr {
          PrefixHoldsSlice(before.arr[..], held, before.off + before.len, issued[i].off, issued[i].off + issued[i].len);
          assert issued[i].Contents() == before.arr[..][issued[i].off..issued[i].off + issued[i].len];
        }
      }
    }

    method AddHistory(str: string)
      requires Valid()
      modifies this`history, this`all, history.arr
      ensures Valid() && all == old(all) + [str]
      ensures history.arr == old(history.arr) || fresh(history.arr)
    {
      hide LastOf;
      LastOfSnoc(all, str, HISTORY_RECORD_COUNT);
      ghost var before := history;
      ghost var held := history.arr[..];
      history := Append(history, str);
      KeepIssued(before, held);
      CutLast(history, HISTORY_RECORD_COUNT);
      var historyRecordLen := history.len;
      if historyRecordLen > HISTORY_RECORD_COUNT {
        history := Slice(history.arr, history.off + historyRecordLen - HISTORY_RECORD_COUNT, HISTORY_RECORD_COUNT);
      }
      all := all + [str];
    }
  }
}

/** The filter gate in front of history and broadcast. */
module Chat {
  import opened Scan
  import opened BadWords
  import opened FilterLaws
  import opened History

  /** What `onChat` goes on to do. */
  datatype Reply = Popular | Stats(arg: string) | Broadcast(msg: string)

  method CharArray(msg: string) returns (txt: array<string>)
    ensures fresh(txt) && txt[..] == Chars(msg)
  {
    txt := new string[|msg|](i requires 0 <= i < |msg| => [msg[i]]);
  }

  lemma OutputHidesWords(dict: set<string>, msg: string)
    requires "" !in dict
    ensures forall w <- dict | '*' !in w :: !Contains(Output(dict, msg, '*'), w)
  {
    hide Output, Contains;
    forall w <- dict | '*' !in w
      ensures !Contains(Output(dict, msg, '*'), w)
    {
      OutputHidesWord(dict, msg, '*', w);
    }
  }

  lemma NoEmptyWord(tree: WordTree)
    requires tree.Valid()
    ensures "" !in tree.dict
  {
  }

  class ChatService {
    const filterConfig: WordTree
    const historyRecord: HistoryRecord

    /** No message with a dictionary word ever gets into the history. */
    ghost predicate Valid()
      reads this, filterConfig, filterConfig.trees.Values
      reads historyRecord, historyRecord.history.arr, set s | s in historyRecord.issued :: s.arr
    {
      && filterConfig.Valid() && historyRecord.Valid()
      && forall m <- historyRecord.all :: Clean(filterConfig.dict, m)
    }

    constructor (filterConfig: WordTree, historyRecord: HistoryRecord)
      requires filterConfig.Valid() && historyRecord.Valid() && historyRecord.all == []
      ensures Valid() && this.filterConfig == filterConfig && this.historyRecord == historyRecord
    {
      this.filterConfig, this.historyRecord := filterConfig, historyRecord;
    }

    /** A clean message is kept and passed on as it is; any other is kept out and passed on with its dictionary words
        starred. */
    method OnChat(msg: string) returns (reply: Reply)
      requires Valid()
      modifies historyRecord`history, historyRecord`all, historyRecord.history.arr
      ensures Valid()
      ensures reply == Popular <==> msg == "/popular"
      ensures reply.Stats? <==> |msg| > 7 && msg[..7] == "/stats "
      ensures reply.Stats? ==> reply.arg == msg[6..]
      ensures !reply.Broadcast? ==> historyRecord.all == old(historyRecord.all)
      ensures reply.Broadcast? ==>
                if Clean(filterConfig.dict, msg)
                then reply.msg == msg && historyRecord.all == old(historyRecord.all) + [msg]
                else reply.msg == Output(filterConfig.dict, msg, '*') && historyRecord.all == old(historyRecord.all)
      ensures reply.Broadcast? ==> forall w <- filterConfig.dict | '*' !in w :: !Contains(reply.msg, w)
    {
      hide WordTree.Valid, Matches, Tally, Masked, Within, Contains, Join;
      if msg == "/popular" {
        assert msg[..7][1] == 'p';
        return Popular;
      }
      if |msg| > 7 && msg[..7] == "/stats " {
        return Stats(msg[6..]);
      }
      var txt := CharArray(msg);
      NoEmptyWord(filterConfig);
      MatchedEmptyIffClean(filterConfig.dict, msg);
      OutputHidesWords(filterConfig.dict, msg);
      var badWords := SearchText(filterConfig, txt, "*");
      var result := Join(txt[..]);
      if |badWords| == 0 {
        assert badWords == map[];
        historyRecord.AddHistory(msg);
        reply := Broadcast(msg);
      } else {
        reply := Broadcast(result);
      }
    }
  }
}
