/**
 * The local ranking of `components/sidebar/LeaderBoard.tsx`: saving the current progress
 * appends an entry, sorts by XP (highest first, stable) and keeps the ten best; clearing
 * empties the board. The browser dialogs become parameters: the name typed at the prompt
 * (`None` when cancelled) and the answer to the confirmation.
 */
module Leaderboard {
  import opened Wrappers
  import opened AppProvider
  import opened Arith

  datatype Score = Score(name: string, level: int, xp: int)

  const MaxEntries := 10

  predicate SortedByXp(s: seq<Score>) {
    forall i, j :: 0 <= i < j < |s| ==> s[i].xp >= s[j].xp
  }

  /**
   * Inserts `e` ahead of the first entry whose XP it ties or beats. Sorting inserts from the
   * back of the list, so among equal XP the earlier entry stays first: the sort is stable.
   */
  function InsertByXp(e: Score, s: seq<Score>): (r: seq<Score>)
    requires SortedByXp(s)
    ensures SortedByXp(r)
    ensures multiset(r) == multiset(s) + multiset{e}
    ensures |r| == |s| + 1 && (r[0] == e || (s != [] && r[0] == s[0]))
  {
    if s == [] || e.xp >= s[0].xp then
      ConsSorted(e, s);
      [e] + s
    else
      var t := InsertByXp(e, s[1..]);
      InsertBehindHead(e, s, t);
      [s[0]] + t
  }

  /** The step of `InsertByXp` that keeps the head: the result is sorted and gains exactly `e`. */
  lemma InsertBehindHead(e: Score, s: seq<Score>, t: seq<Score>)
    requires SortedByXp(s) && s != [] && e.xp < s[0].xp
    requires SortedByXp(t) && multiset(t) == multiset(s[1..]) + multiset{e}
    requires |t| == |s| && (t[0] == e || (s[1..] != [] && t[0] == s[1..][0]))
    ensures SortedByXp([s[0]] + t)
    ensures multiset([s[0]] + t) == multiset(s) + multiset{e}
  {
    assert s == [s[0]] + s[1..];
    assert s[0].xp >= t[0].xp;
    ConsSorted(s[0], t);
  }

  /** An entry with at least the XP of the head of a sorted list can go in front of it. */
  lemma ConsSorted(x: Score, t: seq<Score>)
    requires SortedByXp(t) && (t == [] || x.xp >= t[0].xp)
    ensures SortedByXp([x] + t)
  {
    var r := [x] + t;
    forall i, j | 0 <= i < j < |r| ensures r[i].xp >= r[j].xp {
      if i == 0 {
        assert r[j] == t[j - 1];
      } else {
        assert r[i] == t[i - 1] && r[j] == t[j - 1];
      }
    }
  }

  /** `[...s].sort((a, b) => b.xp - a.xp)`: a stable sort by XP, highest first. */
  function SortByXp(s: seq<Score>): (r: seq<Score>)
    ensures SortedByXp(r)
    ensures multiset(r) == multiset(s)
  {
    if s == [] then []
    else
      assert s == [s[0]] + s[1..];
      InsertByXp(s[0], SortByXp(s[1..]))
  }

  /** The entries with XP `v`, in the order of `s`. */
  function WithXp(s: seq<Score>, v: int): seq<Score> {
    if s == [] then [] else (if s[0].xp == v then [s[0]] else []) + WithXp(s[1..], v)
  }

  lemma {:induction false} WithXpAppend(a: seq<Score>, b: seq<Score>, v: int)
    ensures WithXp(a + b, v) == WithXp(a, v) + WithXp(b, v)
  {
    if a == [] {
      assert a + b == b;
    } else {
      assert a + b == [a[0]] + (a[1..] + b);
      assert a == [a[0]] + a[1..];
      WithXpCons(a[0], a[1..] + b, v);
      WithXpCons(a[0], a[1..], v);
      WithXpAppend(a[1..], b, v);
    }
  }

  lemma WithXpCons(x: Score, t: seq<Score>, v: int)
    ensures WithXp([x] + t, v) == (if x.xp == v then [x] else []) + WithXp(t, v)
  {
    assert ([x] + t)[1..] == t;
  }

  /** The new entry goes ahead of every entry it ties, and the others keep their order. */
  lemma {:induction false} InsertKeepsTieOrder(e: Score, s: seq<Score>, v: int)
    requires SortedByXp(s)
    ensures WithXp(InsertByXp(e, s), v) == (if e.xp == v then [e] else []) + WithXp(s, v)
  {
    if s == [] || e.xp >= s[0].xp {
      assert InsertByXp(e, s) == [e] + s;
      WithXpCons(e, s, v);
    } else {
      InsertKeepsTieOrder(e, s[1..], v);
      TieOrderPastHead(e, s, v);
    }
  }

  /** Passing over a head with more XP than the new entry keeps the head ahead of the entry's ties. */
  lemma TieOrderPastHead(e: Score, s: seq<Score>, v: int)
    requires SortedByXp(s) && s != [] && e.xp < s[0].xp
    requires WithXp(InsertByXp(e, s[1..]), v) == (if e.xp == v then [e] else []) + WithXp(s[1..], v)
    ensures WithXp(InsertByXp(e, s), v) == (if e.xp == v then [e] else []) + WithXp(s, v)
  {
    var t := InsertByXp(e, s[1..]);
    var mine: seq<Score> := if e.xp == v then [e] else [];
    var head: seq<Score> := if s[0].xp == v then [s[0]] else [];
    var rest := WithXp(s[1..], v);
    assert InsertByXp(e, s) == [s[0]] + t;
    WithXpCons(s[0], t, v);
    assert s == [s[0]] + s[1..];
    WithXpCons(s[0], s[1..], v);
    calc {
      WithXp(InsertByXp(e, s), v);
      head + WithXp(t, v);
      head + (mine + rest);
      { assert mine == [] || head == [];
        SwapEmpty(head, mine, rest); }
      mine + (head + rest);
      mine + WithXp(s, v);
    }
  }

  /** Of two prefixes one of which is empty, either can go first. */
  lemma SwapEmpty(a: seq<Score>, b: seq<Score>, c: seq<Score>)
    requires a == [] || b == []
    ensures a + (b + c) == b + (a + c)
  {
    if a == [] {
      assert a + (b + c) == b + c == b + (a + c);
    } else {
      assert a + (b + c) == a + c == b + (a + c);
    }
  }

  /** The sort is stable: entries with equal XP come out in the order they went in. */
  lemma {:induction false} SortKeepsTieOrder(s: seq<Score>, v: int)
    ensures WithXp(SortByXp(s), v) == WithXp(s, v)
  {
    if s != [] {
      SortKeepsTieOrder(s[1..], v);
      InsertKeepsTieOrder(s[0], SortByXp(s[1..]), v);
    }
  }

  /** An already sorted board is left as it is. */
  lemma {:induction false} SortSorted(s: seq<Score>)
    requires SortedByXp(s)
    ensures SortByXp(s) == s
  {
    if s != [] {
      SortSorted(s[1..]);
      assert s == [s[0]] + s[1..];
    }
  }

  /** The entry saved for the current progress: XP counted as `xp + (level - 1) * 50`. */
  function Entry(name: string, state: AppState): Score {
    Score(name, state.level, state.xp + (state.level - 1) * 50)
  }

  /** The board after adding `entry`: sorted by XP and cut to the ten best. */
  function Rank(scores: seq<Score>, entry: Score): seq<Score> {
    var all := SortByXp(scores + [entry]);
    all[..if |all| < MaxEntries then |all| else MaxEntries]
  }

  lemma TakeSplits(t: seq<Score>, k: nat)
    requires k <= |t|
    ensures multiset(t) == multiset(t[..k]) + multiset(t[k..])
  {
    assert t == t[..k] + t[k..];
  }

  /** The ranking holds min(n + 1, 10) entries, in non-increasing XP order. */
  lemma RankShape(scores: seq<Score>, entry: Score)
    ensures var r := Rank(scores, entry);
      |r| == (if |scores| + 1 < MaxEntries then |scores| + 1 else MaxEntries) && SortedByXp(r)
  {
    var all := SortByXp(scores + [entry]);
    assert |all| == |scores| + 1 by {
      assert |multiset(all)| == |multiset(scores + [entry])|;
    }
  }

  /** Every ranked entry comes from the old board or is the new entry, with its multiplicity. */
  lemma RankDrawsFromBoard(scores: seq<Score>, entry: Score)
    ensures multiset(Rank(scores, entry)) <= multiset(scores + [entry])
  {
    var all := SortByXp(scores + [entry]);
    TakeSplits(all, |Rank(scores, entry)|);
  }

  /** Nothing the ranking drops has more XP than anything it keeps. */
  lemma RankKeepsBest(scores: seq<Score>, entry: Score)
    ensures var r := Rank(scores, entry);
      forall x, y :: x in multiset(scores + [entry]) - multiset(r) && y in r ==> x.xp <= y.xp
  {
    var all := SortByXp(scores + [entry]);
    var r := Rank(scores, entry);
    var k := |r|;
    assert r == all[..k];
    TakeSplits(all, k);
    forall x, y | x in multiset(scores + [entry]) - multiset(r) && y in r
      ensures x.xp <= y.xp
    {
      assert x in multiset(all[k..]);
      var j :| 0 <= j < |all[k..]| && all[k..][j] == x;
      var i :| 0 <= i < |r| && r[i] == y;
      assert all[i] == y && all[k + j] == x;
    }
  }

  /**
   * Among entries with equal XP the ranking keeps the order of the board with the newcomer
   * appended: a newcomer ranks behind every older entry it only ties.
   */
  lemma RankBehindTies(scores: seq<Score>, entry: Score, v: int)
    ensures WithXp(Rank(scores, entry), v) <= WithXp(scores, v) + WithXp([entry], v)
  {
    var all := SortByXp(scores + [entry]);
    var k := |Rank(scores, entry)|;
    assert all == all[..k] + all[k..];
    WithXpAppend(all[..k], all[k..], v);
    SortKeepsTieOrder(scores + [entry], v);
    WithXpAppend(scores, [entry], v);
  }

  /** On a full board, a newcomer who does not beat the last entry's XP leaves the board unchanged. */
  lemma RankFullBoardTie(scores: seq<Score>, entry: Score)
    requires |scores| == MaxEntries && SortedByXp(scores)
    requires entry.xp <= scores[MaxEntries - 1].xp
    ensures Rank(scores, entry) == scores
  {
    var all := scores + [entry];
    assert SortedByXp(all);
    SortSorted(all);
    assert all[..MaxEntries] == scores;
  }

  /** While the board has fewer than ten entries, saving keeps everything, the new entry included. */
  lemma RankKeepsNewcomer(scores: seq<Score>, entry: Score)
    requires |scores| < MaxEntries
    ensures multiset(Rank(scores, entry)) == multiset(scores) + multiset{entry}
    ensures entry in Rank(scores, entry)
  {
    var all := SortByXp(scores + [entry]);
    RankShape(scores, entry);
    assert Rank(scores, entry) == all;
    assert entry in multiset(all);
  }

  /**
   * The recorded XP is not the XP earned: reaching level l costs 50 + 100 + ... + (l-1)*50,
   * but the entry counts (l-1)*50. From level 3 on, the board records less than was earned.
   */
  lemma RecordedXpFallsShort(name: string, state: AppState)
    requires state.level >= 1
    ensures EarnedXp(state) - Entry(name, state).xp == 25 * (state.level - 1) * (state.level - 2)
    ensures state.level >= 3 ==> Entry(name, state).xp < EarnedXp(state)
  {
    ShortfallIdentity(state.level);
  }

  /** Reaching level 3 costs 150 XP; the board records 100. */
  lemma LevelThreeExample()
    ensures var state := Run(InitialState, [AddXp(50, "a"), AddXp(50, "b"), AddXp(50, "c")]);
      state.level == 3 && state.xp == 0 && EarnedXp(state) == 150 && Entry("Ana", state).xp == 100
  {
    var actions := [AddXp(50, "a"), AddXp(50, "b"), AddXp(50, "c")];
    var s1 := AppReducer(InitialState, actions[0]);
    var s2 := AppReducer(s1, actions[1]);
    var s3 := AppReducer(s2, actions[2]);
    assert s1.level == 2 && s1.xp == 0;
    assert s2.level == 2 && s2.xp == 50;
    assert s3.level == 3 && s3.xp == 0;
    assert Run(s3, []) == s3;
    assert Run(s2, actions[2..]) == s3;
    assert Run(s1, actions[1..]) == s3 by {
      assert actions[1..][1..] == actions[2..];
    }
  }

  /** The board component: its list of scores is replaced by each action. */
  class Board {
    var scores: seq<Score>

    constructor ()
      ensures scores == [] && Valid()
    {
      scores := [];
    }

    predicate Valid()
      reads this
    {
      |scores| <= MaxEntries && SortedByXp(scores)
    }

    /** `handleSaveScore()`, given the answer to the name prompt. */
    method SaveScore(name: Option<string>, state: AppState)
      requires Valid()
      modifies this
      ensures Valid()
      ensures name.None? || name.value == "" ==> scores == old(scores)
      ensures name.Some? && name.value != "" ==> scores == Rank(old(scores), Entry(name.value, state)) && Valid()
    {
      if name.Some? && name.value != "" {
        var totalXp := state.xp + (state.level - 1) * 50;
        var entry := Score(name.value, state.level, totalXp);
        assert entry == Entry(name.value, state);
        var all := SortByXp(scores + [entry]);
        ghost var ranked := Rank(scores, entry);
        RankShape(scores, entry);
        assert |ranked| <= MaxEntries && SortedByXp(ranked);
        scores := all[..if |all| < MaxEntries then |all| else MaxEntries];
        assert scores == ranked;
      }
    }

    /** `handleClearBoard()`, given the answer to the confirmation. */
    method ClearBoard(confirmed: bool)
      requires Valid()
      modifies this
      ensures Valid()
      ensures confirmed ==> scores == [] && Valid()
      ensures !confirmed ==> scores == old(scores)
    {
      if confirmed {
        scores := [];
      }
    }
  }
}
