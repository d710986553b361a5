/** The commit aggregation of the statistics generator: each commit's instant is
    reduced to a local calendar day, hour of day and Monday-first weekday, and from
    those the report derives a per-day count series, a (weekday, hour) count
    matrix and a top-10 author leaderboard. The local time zone is an explicit
    offset in seconds. */
module GitStats {
  import opened Counting
  import Civil
  import Clock

  /** A commit as read from the repository's history; `instant` is Unix seconds. */
  datatype Commit = Commit(hash: string, author: string, instant: int, message: string)

  /** A commit after normalisation: the original record plus its local calendar day
      (day number, 0 = 1970-01-01), hour of day and weekday. */
  datatype Stamped = Stamped(commit: Commit, day: int, hour: int, weekday: Civil.Weekday)

  /** Number of authors the leaderboard keeps. */
  const LeaderboardSize: nat := 10

  /** Local wall-clock seconds of an instant in a zone `offset` seconds ahead of UTC. */
  function LocalSeconds(instant: int, offset: int): int
  {
    instant + offset
  }

  /** Normalises one commit. */
  function Stamp(c: Commit, offset: int): (s: Stamped)
    ensures s.commit == c
    ensures 0 <= s.hour < 24
    ensures Civil.WeekdayIndex(s.weekday) == (s.day + 3) % 7
    ensures s.day * 86400 + s.hour * 3600 <= LocalSeconds(c.instant, offset) < s.day * 86400 + (s.hour + 1) * 3600
  {
    var w := Clock.ReadingOf(LocalSeconds(c.instant, offset), 1);
    Civil.WeekdayOrder(Civil.Thursday, (w.day + 3) % 7);
    Stamped(c, w.day, w.hour, Civil.WeekdayOfDay(w.day))
  }

  /** `process_data`: normalises every commit, keeping the records, their order and
      their hash, author and message. */
  function ProcessData(commits: seq<Commit>, offset: int): (r: seq<Stamped>)
    ensures |r| == |commits|
    ensures forall i :: 0 <= i < |r| ==> r[i].commit == commits[i]
    ensures forall i :: 0 <= i < |r| ==> 0 <= r[i].hour < 24
    ensures forall i :: 0 <= i < |r| ==> r[i] == Stamp(commits[i], offset)
  {
    seq(|commits|, i requires 0 <= i < |commits| => Stamp(commits[i], offset))
  }

  /** The local day of every record. */
  function Days(ps: seq<Stamped>): seq<int>
  {
    seq(|ps|, i requires 0 <= i < |ps| => ps[i].day)
  }

  /** The (weekday, hour) cell of every record. */
  function Cells(ps: seq<Stamped>): seq<(Civil.Weekday, int)>
  {
    seq(|ps|, i requires 0 <= i < |ps| => (ps[i].weekday, ps[i].hour))
  }

  /** The author of every record. */
  function Authors(ps: seq<Stamped>): seq<string>
  {
    seq(|ps|, i requires 0 <= i < |ps| => ps[i].commit.author)
  }

  /** Per-day commit counts: one entry per day that has a commit, ascending by day.
      Days without commits are not listed. */
  function DailyCounts(ps: seq<Stamped>): (r: seq<(int, nat)>)
    ensures StrictlyIncreasing(Keys(r))
    ensures forall d :: d in Keys(r) <==> d in Days(ps)
    ensures forall i :: 0 <= i < |r| ==> r[i].1 == Count(Days(ps), r[i].0) && r[i].1 >= 1
    ensures Total(r) == |ps|
  {
    var keys := AscendingKeys(Days(ps));
    var r := Tally(Days(ps), keys);
    TallyEntries(Days(ps), keys);
    AscendingIsDistinct(keys);
    TallyConserves(Days(ps), keys);
    assert forall i :: 0 <= i < |r| ==> r[i].0 in Days(ps) && Count(Days(ps), r[i].0) > 0 by {
      forall i | 0 <= i < |r|
        ensures r[i].0 in Days(ps) && Count(Days(ps), r[i].0) > 0
      {
        assert r[i].0 == keys[i];
        CountPositive(Days(ps), keys[i]);
      }
    }
    r
  }

  /** Every (weekday, hour) cell, Monday first and hours ascending within a day. */
  function AllCells(): seq<(Civil.Weekday, int)>
  {
    seq(7 * 24, i requires 0 <= i < 7 * 24 => (Civil.WeekdayAt(i / 24), i % 24))
  }

  /** The cell list holds 168 distinct cells and contains every cell a record can have. */
  lemma AllCellsComplete(w: Civil.Weekday, h: int)
    ensures |AllCells()| == 168
    ensures NoDuplicates(AllCells())
    ensures 0 <= h < 24 ==> (w, h) in AllCells()
  {
    var cells := AllCells();
    forall i, j | 0 <= i < j < |cells|
      ensures cells[i] != cells[j]
    {
      Civil.WeekdayOrder(cells[i].0, i / 24);
      Civil.WeekdayOrder(cells[j].0, j / 24);
      assert i == 24 * (i / 24) + i % 24;
      assert j == 24 * (j / 24) + j % 24;
    }
    if 0 <= h < 24 {
      var k := Civil.WeekdayIndex(w) * 24 + h;
      Civil.WeekdayOrder(w, 0);
      assert k / 24 == Civil.WeekdayIndex(w) && k % 24 == h;
      assert cells[k] == (w, h);
    }
  }

  /** The hour of every record. */
  function Hours(ps: seq<Stamped>): seq<int>
  {
    seq(|ps|, i requires 0 <= i < |ps| => ps[i].hour)
  }

  /** Position of a cell in the grouping's order: by weekday category (Monday
      first), then by hour. */
  function CellRank(c: (Civil.Weekday, int)): int
  {
    Civil.WeekdayIndex(c.0) * 24 + c.1
  }

  /** Whether `groupby(['weekday', 'hour']).size()` lists cell `c`. With `observed`
      set, only the cells some record falls in are listed. Without it, the weekday
      categories are crossed with the hours that occur, so a weekday is listed
      even for an hour it has no record in. */
  predicate Listed(ps: seq<Stamped>, observed: bool, c: (Civil.Weekday, int))
  {
    if observed then c in Cells(ps) else c.1 in Hours(ps)
  }

  /** Every record's cell is listed, whichever way the grouping treats empty cells. */
  lemma OccupiedIsListed(ps: seq<Stamped>, observed: bool, c: (Civil.Weekday, int))
    requires c in Cells(ps)
    ensures Listed(ps, observed, c)
  {
    var k :| 0 <= k < |Cells(ps)| && Cells(ps)[k] == c;
    assert Hours(ps)[k] == c.1;
  }

  /** The grouping order of `AllCells` is the order of the cell ranks. */
  lemma AllCellsRanked()
    ensures RankedBy(AllCells(), CellRank)
  {
    var cells := AllCells();
    forall i | 0 <= i < |cells|
      ensures CellRank(cells[i]) == i
    {
      Civil.WeekdayOrder(cells[i].0, i / 24);
    }
  }

  /** Selecting cells from `AllCells` keeps them in the grouping's order, and any
      in-range cell can be selected. */
  lemma SelectCells(p: ((Civil.Weekday, int)) -> bool)
    requires forall c :: p(c) ==> 0 <= c.1 < 24
    ensures var keys := Filter(AllCells(), p);
      && RankedBy(keys, CellRank) && NoDuplicates(keys)
      && (forall c :: c in keys <==> p(c))
  {
    var keys := Filter(AllCells(), p);
    AllCellsRanked();
    FilterKeepsOrder(AllCells(), p, CellRank);
    RankedIsDistinct(keys, CellRank);
    forall c | p(c)
      ensures c in AllCells()
    {
      AllCellsComplete(c.0, c.1);
    }
  }

  /** The cells the grouping lists, in its order. */
  function ListedCells(ps: seq<Stamped>, observed: bool): (keys: seq<(Civil.Weekday, int)>)
    requires forall i :: 0 <= i < |ps| ==> 0 <= ps[i].hour < 24
    ensures RankedBy(keys, CellRank) && NoDuplicates(keys)
    ensures forall c :: c in keys <==> Listed(ps, observed, c)
  {
    var p := c => Listed(ps, observed, c);
    forall c | p(c)
      ensures 0 <= c.1 < 24
    {
      if observed {
        var k :| 0 <= k < |Cells(ps)| && Cells(ps)[k] == c;
      } else {
        var k :| 0 <= k < |Hours(ps)| && Hours(ps)[k] == c.1;
      }
    }
    SelectCells(p);
    Filter(AllCells(), p)
  }

  /** Tallying the records' cells over distinct cells, ranked in the grouping's
      order, that cover every record gives each listed cell its count, keeps the
      order, and the counts sum to the number of records. */
  lemma TallyOfCells(ps: seq<Stamped>, keys: seq<(Civil.Weekday, int)>)
    requires RankedBy(keys, CellRank) && NoDuplicates(keys)
    requires forall i :: 0 <= i < |ps| ==> Cells(ps)[i] in keys
    ensures var r := Tally(Cells(ps), keys);
      && Keys(r) == keys
      && (forall i, j :: 0 <= i < j < |r| ==> CellRank(r[i].0) < CellRank(r[j].0))
      && (forall i :: 0 <= i < |r| ==> r[i].0 == keys[i] && r[i].1 == Count(Cells(ps), r[i].0))
      && Total(r) == |ps|
  {
    TallyEntries(Cells(ps), keys);
    TallyConserves(Cells(ps), keys);
  }

  /** Every record's hour is in range, so every occupied cell is. */
  lemma CellsInRange(ps: seq<Stamped>, c: (Civil.Weekday, int))
    requires forall i :: 0 <= i < |ps| ==> 0 <= ps[i].hour < 24
    requires c in Cells(ps) || c.1 in Hours(ps)
    ensures 0 <= c.1 < 24
  {
    if c in Cells(ps) {
      var k :| 0 <= k < |Cells(ps)| && Cells(ps)[k] == c;
    } else {
      var k :| 0 <= k < |Hours(ps)| && Hours(ps)[k] == c.1;
    }
  }

  /** The (weekday, hour) activity matrix, `groupby(['weekday', 'hour']).size()`:
      the listed cells in the grouping's order, each with the number of records in
      it. `observed` is the grouping's treatment of empty categorical cells. */
  function Heatmap(ps: seq<Stamped>, observed: bool): (r: seq<((Civil.Weekday, int), nat)>)
    requires forall i :: 0 <= i < |ps| ==> 0 <= ps[i].hour < 24
    ensures NoDuplicates(Keys(r))
    ensures forall i, j :: 0 <= i < j < |r| ==> CellRank(r[i].0) < CellRank(r[j].0)
    ensures forall c :: c in Keys(r) <==> Listed(ps, observed, c)
    ensures forall i :: 0 <= i < |r| ==> 0 <= r[i].0.1 < 24 && r[i].1 == Count(Cells(ps), r[i].0)
    ensures observed ==> forall i :: 0 <= i < |r| ==> r[i].1 >= 1
    ensures Total(r) == |ps|
  {
    var keys := ListedCells(ps, observed);
    forall i | 0 <= i < |ps|
      ensures Cells(ps)[i] in keys
    {
      OccupiedIsListed(ps, observed, Cells(ps)[i]);
    }
    TallyOfCells(ps, keys);
    var r := Tally(Cells(ps), keys);
    forall i | 0 <= i < |r|
      ensures 0 <= r[i].0.1 < 24
      ensures observed ==> r[i].1 >= 1
    {
      assert keys[i] in keys;
      CellsInRange(ps, keys[i]);
      if observed {
        CountPositive(Cells(ps), keys[i]);
      }
    }
    r
  }

  /** Every occupied cell has its entry in the heatmap, with its true count. */
  lemma HeatmapEntry(ps: seq<Stamped>, observed: bool, c: (Civil.Weekday, int))
    requires forall i :: 0 <= i < |ps| ==> 0 <= ps[i].hour < 24
    requires c in Cells(ps)
    ensures exists i :: 0 <= i < |Heatmap(ps, observed)| && Heatmap(ps, observed)[i] == (c, Count(Cells(ps), c))
  {
    var r := Heatmap(ps, observed);
    OccupiedIsListed(ps, observed, c);
    assert c in Keys(r);
    var i :| 0 <= i < |r| && Keys(r)[i] == c;
    assert r[i].0 == c;
  }

  /** The ranked author entries: each distinct author with its commit count, most
      commits first. */
  function RankedAuthors(ps: seq<Stamped>): seq<(string, nat)>
  {
    RankByCount(Tally(Authors(ps), Distinct(Authors(ps))))
  }

  function Min(a: nat, b: nat): nat
  {
    if a <= b then a else b
  }

  /** The top-10 author leaderboard (`value_counts().head(10)`). */
  function Leaderboard(ps: seq<Stamped>): (r: seq<(string, nat)>)
    ensures |r| == Min(LeaderboardSize, |Distinct(Authors(ps))|)
  {
    var ranked := RankedAuthors(ps);
    assert |ranked| == |multiset(ranked)|;
    TallyEntries(Authors(ps), Distinct(Authors(ps)));
    ranked[..Min(LeaderboardSize, |ranked|)]
  }

  /** The author tally lists each distinct author once, with that author's count. */
  lemma AuthorTallyFacts(authors: seq<string>)
    ensures var entries := Tally(authors, Distinct(authors));
      && NoDuplicates(Keys(entries))
      && (forall k :: 0 <= k < |entries| ==> entries[k].0 in authors && entries[k].1 == Count(authors, entries[k].0))
      && (forall a :: a in authors ==> (a, Count(authors, a)) in entries)
  {
    var distinct := Distinct(authors);
    var entries := Tally(authors, distinct);
    TallyEntries(authors, distinct);
    forall a | a in authors
      ensures (a, Count(authors, a)) in entries
    {
      var k :| 0 <= k < |distinct| && distinct[k] == a;
      assert entries[k] == (a, Count(authors, a));
    }
  }

  /** Every ranked entry is a distinct author of the history with that author's
      true commit count. */
  lemma RankedEntries(authors: seq<string>)
    ensures var ranked := RankByCount(Tally(authors, Distinct(authors)));
      && NoDuplicates(Keys(ranked))
      && (forall i :: 0 <= i < |ranked| ==> ranked[i].0 in authors && ranked[i].1 == Count(authors, ranked[i].0))
  {
    var entries := Tally(authors, Distinct(authors));
    var ranked := RankByCount(entries);
    AuthorTallyFacts(authors);
    PermutationKeepsKeysDistinct(ranked, entries);
    forall i | 0 <= i < |ranked|
      ensures ranked[i].0 in authors && ranked[i].1 == Count(authors, ranked[i].0)
    {
      assert ranked[i] in multiset(entries);
    }
  }

  /** Every author of the history is ranked. */
  lemma RankedCovers(authors: seq<string>)
    ensures forall a :: a in authors ==> a in Keys(RankByCount(Tally(authors, Distinct(authors))))
  {
    var entries := Tally(authors, Distinct(authors));
    var ranked := RankByCount(entries);
    AuthorTallyFacts(authors);
    forall a | a in authors
      ensures a in Keys(ranked)
    {
      assert (a, Count(authors, a)) in multiset(ranked);
      var j :| 0 <= j < |ranked| && ranked[j] == (a, Count(authors, a));
      assert Keys(ranked)[j] == a;
    }
  }

  /** The ranking lists every author of the history exactly once, each with the
      author's true commit count, most commits first. */
  lemma RankedAuthorsComplete(ps: seq<Stamped>)
    ensures var ranked := RankedAuthors(ps);
      && NonIncreasing(ranked)
      && NoDuplicates(Keys(ranked))
      && (forall i :: 0 <= i < |ranked| ==> ranked[i].0 in Authors(ps) && ranked[i].1 == Count(Authors(ps), ranked[i].0))
      && (forall a :: a in Authors(ps) ==> a in Keys(ranked))
  {
    RankedEntries(Authors(ps));
    RankedCovers(Authors(ps));
  }

  /** Every leaderboard entry is a distinct author with that author's true count,
      most commits first, and there are at most ten. */
  lemma LeaderboardEntries(ps: seq<Stamped>)
    ensures var r := Leaderboard(ps);
      && |r| <= LeaderboardSize
      && NoDuplicates(Keys(r))
      && (forall i :: 0 <= i < |r| ==> r[i].0 in Authors(ps) && r[i].1 == Count(Authors(ps), r[i].0))
      && NonIncreasing(r)
  {
    var ranked := RankedAuthors(ps);
    var r := Leaderboard(ps);
    RankedAuthorsComplete(ps);
    assert |ranked| == |multiset(ranked)|;
    var n := |r|;
    assert r == ranked[..n];
    if n > 0 {
      RankingPrefix(ranked, n);
    }
  }

  /** An author left off the leaderboard means the board is full and that author
      has no more commits than the last entry. */
  lemma LeaderboardOmitted(ps: seq<Stamped>, a: string)
    requires a in Authors(ps) && a !in Keys(Leaderboard(ps))
    ensures |Leaderboard(ps)| == LeaderboardSize
    ensures Count(Authors(ps), a) <= Leaderboard(ps)[LeaderboardSize - 1].1
  {
    var ranked := RankedAuthors(ps);
    var r := Leaderboard(ps);
    RankedAuthorsComplete(ps);
    assert |ranked| == |multiset(ranked)|;
    var n := |r|;
    assert r == ranked[..n];
    assert a in Keys(ranked);
    if n == 0 {
      assert false;
    }
    RankingPrefix(ranked, n);
    var j :| n <= j < |ranked| && ranked[j].0 == a;
  }

  /** The leaderboard is a correct top-K: at most ten entries, no author twice,
      every entry an author of the history with that author's true commit count,
      counts non-increasing, and every author left off has no more commits than the
      last listed one (so ten entries are listed whenever more than ten authors exist). */
  lemma LeaderboardIsTopK(ps: seq<Stamped>)
    ensures var r := Leaderboard(ps);
      && |r| <= LeaderboardSize
      && NoDuplicates(Keys(r))
      && (forall i :: 0 <= i < |r| ==> r[i].0 in Authors(ps) && r[i].1 == Count(Authors(ps), r[i].0))
      && NonIncreasing(r)
      && (forall a :: a in Authors(ps) && a !in Keys(r) ==> |r| == LeaderboardSize && Count(Authors(ps), a) <= r[|r| - 1].1)
  {
    LeaderboardEntries(ps);
    forall a | a in Authors(ps) && a !in Keys(Leaderboard(ps))
      ensures |Leaderboard(ps)| == LeaderboardSize
      ensures Count(Authors(ps), a) <= Leaderboard(ps)[|Leaderboard(ps)| - 1].1
    {
      LeaderboardOmitted(ps, a);
    }
  }

  /** Everything the report is built from. */
  datatype Report = Report(
    daily: seq<(int, nat)>,
    heatmap: seq<((Civil.Weekday, int), nat)>,
    leaderboard: seq<(string, nat)>)

  datatype Outcome = NoOutput | Generated(report: Report)

  /** The generator's main flow after fetching: an empty history produces nothing;
      otherwise the history is normalised and every table is built from it. Every
      count table sums to the number of commits. */
  function Run(commits: seq<Commit>, offset: int, observed: bool): (r: Outcome)
    ensures r.NoOutput? <==> |commits| == 0
    ensures r.Generated? ==>
      && Total(r.report.daily) == |commits|
      && Total(r.report.heatmap) == |commits|
      && |r.report.leaderboard| <= LeaderboardSize
      && Total(r.report.leaderboard) <= |commits|
  {
    if |commits| == 0 then NoOutput
    else
      var ps := ProcessData(commits, offset);
      LeaderboardWithinTotal(ps);
      Generated(Report(DailyCounts(ps), Heatmap(ps, observed), Leaderboard(ps)))
  }

  /** The author tally accounts for every commit exactly once. */
  lemma AuthorTallyTotal(authors: seq<string>)
    ensures Total(Tally(authors, Distinct(authors))) == |authors|
  {
    var distinct := Distinct(authors);
    forall i | 0 <= i < |authors|
      ensures authors[i] in distinct
    {
      assert authors[i] in authors;
    }
    TallyConserves(authors, distinct);
  }

  /** The leaderboard never accounts for more commits than there are. */
  lemma LeaderboardWithinTotal(ps: seq<Stamped>)
    ensures Total(Leaderboard(ps)) <= |ps|
  {
    var authors := Authors(ps);
    var ranked := RankedAuthors(ps);
    AuthorTallyTotal(authors);
    TotalOfPermutation(ranked, Tally(authors, Distinct(authors)));
    var n := Min(LeaderboardSize, |ranked|);
    assert ranked == ranked[..n] + ranked[n..];
    TotalAppend(ranked[..n], ranked[n..]);
  }

  /** Taking one entry out of a list lowers the total by that entry's count. */
  lemma TotalRemove<T>(b: seq<(T, nat)>, k: nat)
    requires k < |b|
    ensures Total(b) == Total(b[..k] + b[k + 1..]) + b[k].1
  {
    var pre, post := b[..k], b[k + 1..];
    var mid := [b[k]] + post;
    assert b == pre + mid;
    TotalAppend(pre, mid);
    assert mid[0] == b[k] && mid[1..] == post;
    assert Total(mid) == b[k].1 + Total(post);
    TotalAppend(pre, post);
  }

  /** Removing the entry at `k` removes one copy of it from the multiset. */
  lemma MultisetRemove<T>(b: seq<T>, k: nat)
    requires k < |b|
    ensures multiset(b[..k] + b[k + 1..]) == multiset(b) - multiset{b[k]}
  {
    assert b == b[..k] + [b[k]] + b[k + 1..];
  }

  /** Reordering entries does not change their total. */
  lemma {:induction false} TotalOfPermutation<T>(a: seq<(T, nat)>, b: seq<(T, nat)>)
    requires multiset(a) == multiset(b)
    ensures Total(a) == Total(b)
    decreases |a|
  {
    if a == [] {
      assert |b| == |multiset(b)| == 0;
    } else {
      assert a == [a[0]] + a[1..];
      assert a[0] in multiset(b);
      var k :| 0 <= k < |b| && b[k] == a[0];
      MultisetRemove(b, k);
      assert multiset(a[1..]) == multiset(a) - multiset{a[0]};
      TotalOfPermutation(a[1..], b[..k] + b[k + 1..]);
      TotalRemove(b, k);
    }
  }
}
