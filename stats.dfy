/**
 * The figures of components/StatsDashboard.tsx: the mastery histogram, the per-level
 * counts and the chart entries built from them, the mastered count and the due count.
 * `localeCompare` is replaced by an abstract comparison `le` on names that relates every pair.
 */
module Stats {

  import opened Types
  import opened Seqs
  import opened Store

  // ------------------------------------------------------------ mastery levels

  /** One bar of the mastery chart. */
  datatype MasteryBar = MasteryBar(name: string, count: nat)

  /** `等级 ${level}` for a one-digit level. */
  function MasteryLabel(level: nat): (r: string)
    requires level < 10
    ensures |r| == 4 && r[..3] == "等级 "
    ensures '0' <= r[3] <= '9' && r[3] as int - '0' as int == level
  {
    "等级 " + [('0' as int + level) as char]
  }

  function CountAtMastery(ws: seq<Word>, level: int): nat {
    Count(ws, (w: Word) => w.masteryLevel == level)
  }

  /** `masteryData` (components/StatsDashboard.tsx:24-27): one bar per level 0 to 5. */
  function MasteryData(ws: seq<Word>): (r: seq<MasteryBar>)
    ensures |r| == 6
    ensures forall k :: 0 <= k < 6 ==> r[k].name == MasteryLabel(k)
  {
    seq(6, k requires 0 <= k < 6 => MasteryBar(MasteryLabel(k), CountAtMastery(ws, k)))
  }

  /**
   * Bar `k` counts the words at mastery `k`: it is empty for no words, and one more word
   * adds one to the bar of its own mastery level and leaves the others.
   */
  lemma MasteryBarCounts(ws: seq<Word>, w: Word, k: nat)
    requires k < 6
    ensures MasteryData([])[k].count == 0
    ensures MasteryData(ws + [w])[k].count == MasteryData(ws)[k].count + (if w.masteryLevel == k then 1 else 0)
  {
    FilterAppend(ws, [w], (x: Word) => x.masteryLevel == k);
  }

  /** The six bars and the words outside [0, 5] account for every word. */
  lemma {:induction false} HistogramTotal(ws: seq<Word>)
    ensures CountAtMastery(ws, 0) + CountAtMastery(ws, 1) + CountAtMastery(ws, 2)
          + CountAtMastery(ws, 3) + CountAtMastery(ws, 4) + CountAtMastery(ws, 5)
          + Count(ws, (w: Word) => !MasteryInRange(w)) == |ws|
  {
    if ws != [] {
      HistogramTotal(ws[1..]);
      CountCons(ws, (w: Word) => w.masteryLevel == 0);
      CountCons(ws, (w: Word) => w.masteryLevel == 1);
      CountCons(ws, (w: Word) => w.masteryLevel == 2);
      CountCons(ws, (w: Word) => w.masteryLevel == 3);
      CountCons(ws, (w: Word) => w.masteryLevel == 4);
      CountCons(ws, (w: Word) => w.masteryLevel == 5);
      CountCons(ws, (w: Word) => !MasteryInRange(w));
    }
  }

  /** With every mastery in range, the histogram sums to the number of words. */
  lemma MasteryHistogramSum(ws: seq<Word>)
    requires AllMasteryInRange(ws)
    ensures var d := MasteryData(ws);
      d[0].count + d[1].count + d[2].count + d[3].count + d[4].count + d[5].count == |ws|
  {
    HistogramTotal(ws);
    FilterDropsAll(ws, (w: Word) => !MasteryInRange(w));
  }

  /** The "mastered" figure (components/StatsDashboard.tsx:50) is the histogram's level-5 bar. */
  function MasteredCount(ws: seq<Word>): (n: nat)
    ensures n == MasteryData(ws)[5].count
  {
    FilterExt(ws, (w: Word) => w.masteryLevel == 5, (w: Word) => w.masteryLevel == 5 as int);
    Count(ws, (w: Word) => w.masteryLevel == 5)
  }

  /** The "due" figure (components/StatsDashboard.tsx:54): the length of the App's review list at the same time. */
  function DueCount(ws: seq<Word>, now: Time): (n: nat)
    ensures n == |Due(ws, now)|
  {
    FilterExt(ws, (w: Word) => w.nextReviewDate <= now, (w: Word) => IsDue(w, now));
    Count(ws, (w: Word) => w.nextReviewDate <= now)
  }

  // --------------------------------------------------------------- JLPT levels

  function LevelsPresent(ws: seq<Word>): set<Level> {
    set i | 0 <= i < |ws| :: ws[i].level
  }

  function CountAtLevel(ws: seq<Word>, l: Level): nat {
    Count(ws, (w: Word) => w.level == l)
  }

  /** What `levelCounts` holds: a key for each level that occurs, with its number of words. */
  function LevelCountsOf(ws: seq<Word>): map<Level, nat> {
    map l | l in LevelsPresent(ws) :: CountAtLevel(ws, l)
  }

  lemma CountAtLevelSnoc(ws: seq<Word>, w: Word, l: Level)
    ensures CountAtLevel(ws + [w], l) == CountAtLevel(ws, l) + (if w.level == l then 1 else 0)
  {
    FilterAppend(ws, [w], (x: Word) => x.level == l);
  }

  lemma CountAtAbsentLevel(ws: seq<Word>, l: Level)
    requires l !in LevelsPresent(ws)
    ensures CountAtLevel(ws, l) == 0
  {
    FilterDropsAll(ws, (w: Word) => w.level == l);
  }

  /** A word added to the list adds its level to the levels present, and nothing else. */
  lemma LevelsPresentSnoc(ws: seq<Word>, w: Word)
    ensures LevelsPresent(ws + [w]) == LevelsPresent(ws) + {w.level}
  {
    forall l | l in LevelsPresent(ws + [w]) ensures l in LevelsPresent(ws) + {w.level} {
      var i :| 0 <= i < |ws + [w]| && (ws + [w])[i].level == l;
      if i < |ws| { assert ws[i].level == l; }
    }
    forall l | l in LevelsPresent(ws) ensures l in LevelsPresent(ws + [w]) {
      var i :| 0 <= i < |ws| && ws[i].level == l;
      assert (ws + [w])[i].level == l;
    }
    assert (ws + [w])[|ws|].level == w.level;
  }

  /** The accumulator after one more word has one more key at most: the word's level. */
  lemma LevelCountsSnocKeys(ws: seq<Word>, w: Word)
    ensures LevelCountsOf(ws + [w]).Keys == LevelCountsOf(ws).Keys + {w.level}
  {
    LevelsPresentSnoc(ws, w);
  }

  /** A level's count after one more word: its old count, 0 if it was absent, plus one for the word's own level. */
  lemma LevelCountsSnocAt(ws: seq<Word>, w: Word, l: Level)
    requires l in LevelCountsOf(ws + [w])
    ensures var acc := LevelCountsOf(ws);
      LevelCountsOf(ws + [w])[l] == (if l in acc then acc[l] else 0) + (if w.level == l then 1 else 0)
  {
    CountAtLevelSnoc(ws, w, l);
    if l !in LevelsPresent(ws) { CountAtAbsentLevel(ws, l); }
  }

  /** One step of the `reduce`: `acc[k]` goes up by one, an absent key counting as 0. */
  function Bump(acc: map<Level, nat>, k: Level): (r: map<Level, nat>)
    ensures r.Keys == acc.Keys + {k}
    ensures r[k] == (if k in acc then acc[k] else 0) + 1
    ensures forall l :: l in acc && l != k ==> r[l] == acc[l]
  {
    acc[k := (if k in acc then acc[k] else 0) + 1]
  }

  /** A map with one more key `k`, one more at `k` and the same elsewhere, is `acc` with `k` bumped. */
  lemma BumpedMap(acc: map<Level, nat>, acc': map<Level, nat>, k: Level)
    requires acc'.Keys == acc.Keys + {k}
    requires forall l :: l in acc' ==> acc'[l] == (if l in acc then acc[l] else 0) + (if k == l then 1 else 0)
    ensures acc' == Bump(acc, k)
  {
  }

  /** Adding a word to the fold bumps its level's count, starting from 0 for a new key. */
  lemma LevelCountsSnoc(ws: seq<Word>, w: Word)
    ensures LevelCountsOf(ws + [w]) == Bump(LevelCountsOf(ws), w.level)
  {
    var acc := LevelCountsOf(ws);
    var acc' := LevelCountsOf(ws + [w]);
    LevelCountsSnocKeys(ws, w);
    forall l | l in acc' ensures acc'[l] == (if l in acc then acc[l] else 0) + (if w.level == l then 1 else 0) {
      LevelCountsSnocAt(ws, w, l);
    }
    BumpedMap(acc, acc', w.level);
  }

  /**
   * `levelCounts` (components/StatsDashboard.tsx:29-32): the `reduce` that bumps `acc[w.level]` for each
   * word in turn, an absent key counting as 0.
   */
  method LevelCounts(ws: seq<Word>) returns (acc: map<Level, nat>)
    ensures acc == LevelCountsOf(ws)
    ensures acc.Keys == LevelsPresent(ws)
    ensures forall l :: l in acc ==> acc[l] == CountAtLevel(ws, l) && acc[l] > 0
  {
    acc := map[];
    var i := 0;
    while i < |ws|
      invariant 0 <= i <= |ws|
      invariant acc == LevelCountsOf(ws[..i])
    {
      var w := ws[i];
      assert ws[..i + 1] == ws[..i] + [w];
      LevelCountsSnoc(ws[..i], w);
      acc := Bump(acc, w.level);
      i := i + 1;
    }
    assert ws[..i] == ws;
    forall l | l in acc ensures acc[l] > 0 {
      var j :| 0 <= j < |ws| && ws[j].level == l;
      assert ws[j] in Filter(ws, (w: Word) => w.level == l);
    }
  }

  /** One slice of the level chart. */
  datatype LevelSlice = LevelSlice(name: string, value: nat)

  /** The chart name of a level: `Other` is shown as 其他 (components/StatsDashboard.tsx:35). */
  function DisplayName(l: Level): (name: string)
    ensures l == Other ==> name == "其他"
    ensures l != Other ==> name == LevelName(l)
  {
    if l == Other then "其他" else LevelName(l)
  }

  /** Distinct levels get distinct chart names. */
  lemma DisplayNameInjective(a: Level, b: Level)
    requires a != b
    ensures DisplayName(a) != DisplayName(b)
  {
  }

  /** `e` is the slice of a level of `ls` that is a key of `acc`. */
  predicate IsSliceOf(acc: map<Level, nat>, ls: seq<Level>, e: LevelSlice) {
    exists l :: l in ls && l in acc && e == LevelSlice(DisplayName(l), acc[l])
  }

  /** The slices for the keys of `acc`, taken in the order of `ls` (`Object.keys(...).map`). */
  function Slices(acc: map<Level, nat>, ls: seq<Level>): (r: seq<LevelSlice>)
    ensures forall i :: 0 <= i < |r| ==> IsSliceOf(acc, ls, r[i])
    ensures forall l :: l in ls && l in acc ==> LevelSlice(DisplayName(l), acc[l]) in r
  {
    if ls == [] then []
    else
      var head := if ls[0] in acc then [LevelSlice(DisplayName(ls[0]), acc[ls[0]])] else [];
      var rest := Slices(acc, ls[1..]);
      assert forall l :: l in ls ==> l == ls[0] || l in ls[1..];
      assert forall e :: IsSliceOf(acc, ls[1..], e) ==> IsSliceOf(acc, ls, e) by {
        forall e | IsSliceOf(acc, ls[1..], e) ensures IsSliceOf(acc, ls, e) {
          var l :| l in ls[1..] && l in acc && e == LevelSlice(DisplayName(l), acc[l]);
          assert l in ls;
        }
      }
      assert head != [] ==> IsSliceOf(acc, ls, head[0]) by {
        if head != [] { assert ls[0] in ls; }
      }
      head + rest
  }

  /**
   * `le` compares every pair of names, one way or the other. This is all the sorting
   * proofs need; antisymmetry and transitivity are not assumed.
   */
  ghost predicate ComparesAll(le: (string, string) -> bool) {
    forall a, b :: le(a, b) || le(b, a)
  }

  predicate SortedByName(s: seq<LevelSlice>, le: (string, string) -> bool) {
    forall i :: 0 < i < |s| ==> le(s[i - 1].name, s[i].name)
  }

  /** Insert `e` before the first slice it does not sort after. */
  function InsertByName(e: LevelSlice, s: seq<LevelSlice>, le: (string, string) -> bool): (r: seq<LevelSlice>)
    requires ComparesAll(le)
    ensures SortedByName(s, le) ==> SortedByName(r, le)
    ensures multiset(r) == multiset(s) + multiset{e}
    ensures |r| == |s| + 1 && (r[0] == e || (s != [] && r[0] == s[0]))
  {
    if s == [] then [e]
    else if le(e.name, s[0].name) then [e] + s
    else
      var rest := InsertByName(e, s[1..], le);
      assert s == [s[0]] + s[1..];
      assert SortedByName(s, le) ==> SortedByName([s[0]] + rest, le) by {
        if SortedByName(s, le) {
          assert SortedByName(s[1..], le);
          assert le(s[0].name, rest[0].name);
        }
      }
      [s[0]] + rest
  }

  /** `.sort((a, b) => a.name.localeCompare(b.name))` as an insertion sort by name. */
  function SortByName(s: seq<LevelSlice>, le: (string, string) -> bool): (r: seq<LevelSlice>)
    requires ComparesAll(le)
    ensures SortedByName(r, le)
    ensures multiset(r) == multiset(s)
  {
    if s == [] then []
    else
      assert s == [s[0]] + s[1..];
      InsertByName(s[0], SortByName(s[1..], le), le)
  }

  /**
   * `levelData` (components/StatsDashboard.tsx:34-37): one slice per key of `acc`, named by `DisplayName`
   * and valued by its count, sorted by name.
   */
  function LevelData(acc: map<Level, nat>, le: (string, string) -> bool): (r: seq<LevelSlice>)
    requires ComparesAll(le)
    ensures SortedByName(r, le)
    ensures forall e :: e in r <==> IsSliceOf(acc, AllLevels, e)
    ensures multiset(r) == multiset(Slices(acc, AllLevels))
  {
    var s := Slices(acc, AllLevels);
    var r := SortByName(s, le);
    assert forall e :: e in r <==> e in s by {
      forall e ensures e in r <==> e in s {
        assert e in r <==> e in multiset(r);
        assert e in s <==> e in multiset(s);
      }
    }
    assert forall l :: l in acc ==> LevelSlice(DisplayName(l), acc[l]) in s by {
      forall l | l in acc ensures LevelSlice(DisplayName(l), acc[l]) in s {
        AllLevelsComplete(l);
      }
    }
    r
  }

  predicate NoRepeats(ls: seq<Level>) {
    forall i, j :: 0 <= i < j < |ls| ==> ls[i] != ls[j]
  }

  /** Over a list of distinct levels, each key of `acc` on it gets exactly one slice. */
  lemma {:induction false} SlicesOncePerLevel(acc: map<Level, nat>, ls: seq<Level>, l: Level)
    requires NoRepeats(ls) && l in acc
    ensures multiset(Slices(acc, ls))[LevelSlice(DisplayName(l), acc[l])] == if l in ls then 1 else 0
  {
    if ls != [] {
      var e := LevelSlice(DisplayName(l), acc[l]);
      var head := if ls[0] in acc then [LevelSlice(DisplayName(ls[0]), acc[ls[0]])] else [];
      assert Slices(acc, ls) == head + Slices(acc, ls[1..]);
      assert NoRepeats(ls[1..]) by {
        forall i, j | 0 <= i < j < |ls[1..]| ensures ls[1..][i] != ls[1..][j] {
          assert ls[i + 1] != ls[j + 1];
        }
      }
      SlicesOncePerLevel(acc, ls[1..], l);
      if ls[0] != l { DisplayNameInjective(ls[0], l); }
      assert l in ls <==> l == ls[0] || l in ls[1..];
    }
  }

  /** The level chart has exactly one slice for each level that occurs (components/StatsDashboard.tsx:34-36). */
  lemma LevelDataOncePerLevel(acc: map<Level, nat>, le: (string, string) -> bool, l: Level)
    requires ComparesAll(le) && l in acc
    ensures multiset(LevelData(acc, le))[LevelSlice(DisplayName(l), acc[l])] == 1
  {
    AllLevelsComplete(l);
    SlicesOncePerLevel(acc, AllLevels, l);
  }

  function SumValues(s: seq<LevelSlice>): nat {
    if s == [] then 0 else s[0].value + SumValues(s[1..])
  }

  lemma {:induction false} InsertSum(e: LevelSlice, s: seq<LevelSlice>, le: (string, string) -> bool)
    requires ComparesAll(le)
    ensures SumValues(InsertByName(e, s, le)) == e.value + SumValues(s)
  {
    if s != [] && !le(e.name, s[0].name) {
      InsertSum(e, s[1..], le);
    }
  }

  lemma {:induction false} SortSum(s: seq<LevelSlice>, le: (string, string) -> bool)
    requires ComparesAll(le)
    ensures SumValues(SortByName(s, le)) == SumValues(s)
  {
    if s != [] {
      SortSum(s[1..], le);
      InsertSum(s[0], SortByName(s[1..], le), le);
    }
  }

  /** Each word has exactly one of the six levels. */
  lemma {:induction false} LevelTotal(ws: seq<Word>)
    ensures CountAtLevel(ws, N1) + CountAtLevel(ws, N2) + CountAtLevel(ws, N3)
          + CountAtLevel(ws, N4) + CountAtLevel(ws, N5) + CountAtLevel(ws, Other) == |ws|
  {
    if ws != [] {
      LevelTotal(ws[1..]);
      CountCons(ws, (w: Word) => w.level == N1);
      CountCons(ws, (w: Word) => w.level == N2);
      CountCons(ws, (w: Word) => w.level == N3);
      CountCons(ws, (w: Word) => w.level == N4);
      CountCons(ws, (w: Word) => w.level == N5);
      CountCons(ws, (w: Word) => w.level == Other);
    }
  }

  /** The value a level contributes to the slices: its count if it is a key, else nothing. */
  function SliceValue(ws: seq<Word>, l: Level): nat {
    if l in LevelCountsOf(ws) then LevelCountsOf(ws)[l] else 0
  }

  lemma SliceValueIsCount(ws: seq<Word>, l: Level)
    ensures SliceValue(ws, l) == CountAtLevel(ws, l)
  {
    if l !in LevelsPresent(ws) { CountAtAbsentLevel(ws, l); }
  }

  lemma {:induction false} SlicesSum(acc: map<Level, nat>, ls: seq<Level>, ws: seq<Word>)
    requires acc == LevelCountsOf(ws)
    ensures SumValues(Slices(acc, ls)) == SumOfSliceValues(ws, ls)
  {
    if ls != [] {
      SlicesSum(acc, ls[1..], ws);
      var head := if ls[0] in acc then [LevelSlice(DisplayName(ls[0]), acc[ls[0]])] else [];
      assert Slices(acc, ls) == head + Slices(acc, ls[1..]);
      SumValuesAppend(head, Slices(acc, ls[1..]));
    }
  }

  function SumOfSliceValues(ws: seq<Word>, ls: seq<Level>): nat {
    if ls == [] then 0 else SliceValue(ws, ls[0]) + SumOfSliceValues(ws, ls[1..])
  }

  lemma {:induction false} SumValuesAppend(a: seq<LevelSlice>, b: seq<LevelSlice>)
    ensures SumValues(a + b) == SumValues(a) + SumValues(b)
  {
    if a != [] {
      assert (a + b)[0] == a[0];
      assert (a + b)[1..] == a[1..] + b;
      SumValuesAppend(a[1..], b);
    } else {
      assert a + b == b;
    }
  }

  lemma SumOfSliceValuesAll(ws: seq<Word>)
    ensures SumOfSliceValues(ws, AllLevels) == SliceValue(ws, N1) + SliceValue(ws, N2)
      + SliceValue(ws, N3) + SliceValue(ws, N4) + SliceValue(ws, N5) + SliceValue(ws, Other)
  {
    assert [Other][1..] == [];
    assert SumOfSliceValues(ws, [Other]) == SliceValue(ws, Other);
    assert [N5, Other][1..] == [Other];
    assert SumOfSliceValues(ws, [N5, Other]) == SliceValue(ws, N5) + SliceValue(ws, Other);
    assert [N4, N5, Other][1..] == [N5, Other];
    assert [N3, N4, N5, Other][1..] == [N4, N5, Other];
    assert SumOfSliceValues(ws, [N3, N4, N5, Other]) == SliceValue(ws, N3) + SliceValue(ws, N4)
      + SliceValue(ws, N5) + SliceValue(ws, Other);
    assert [N2, N3, N4, N5, Other][1..] == [N3, N4, N5, Other];
    assert AllLevels[1..] == [N2, N3, N4, N5, Other];
  }

  /** The level chart's values sum to the number of words (components/StatsDashboard.tsx:29-37). */
  lemma LevelDataSum(ws: seq<Word>, le: (string, string) -> bool)
    requires ComparesAll(le)
    ensures SumValues(LevelData(LevelCountsOf(ws), le)) == |ws|
  {
    var acc := LevelCountsOf(ws);
    SortSum(Slices(acc, AllLevels), le);
    SlicesSum(acc, AllLevels, ws);
    SumOfSliceValuesAll(ws);
    SliceValueIsCount(ws, N1);
    SliceValueIsCount(ws, N2);
    SliceValueIsCount(ws, N3);
    SliceValueIsCount(ws, N4);
    SliceValueIsCount(ws, N5);
    SliceValueIsCount(ws, Other);
    LevelTotal(ws);
  }
}
