/**
  Properties of the `applyCursors` window and of the `paging` page, stated for any
  collection `datas` with cursors `cs` (for the source, `cs` is `Cursors(datas, keyOption)`,
  and `Paginated(datas, keyOption, options)` is `PageOf` of that window).
*/
module ConnectionLemmas {
  import opened Wrappers
  import opened CursorCodec
  import opened JsArray
  import opened Connection

  /** No two records share a cursor. */
  predicate Distinct(cs: seq<string>) {
    forall i, j | 0 <= i < j < |cs| :: cs[i] != cs[j]
  }

  /** `edges` are the records of `datas` from position `lo` on, each with its own cursor. */
  predicate EdgesFrom(edges: seq<Edge>, datas: seq<Record>, cs: seq<string>, lo: nat) {
    && |cs| == |datas|
    && lo + |edges| <= |datas|
    && forall k | 0 <= k < |edges| :: edges[k] == Edge(datas[lo + k], cs[lo + k])
  }

  /** Runs over two collections that agree on `[lo, hi)` are equal. */
  lemma {:induction false} RunAgrees(d1: seq<Record>, c1: seq<string>, d2: seq<Record>, c2: seq<string>, lo: nat, hi: nat)
    requires |c1| == |d1| && |c2| == |d2| && lo <= hi <= |d1| && hi <= |d2|
    requires forall j | lo <= j < hi :: d1[j] == d2[j] && c1[j] == c2[j]
    ensures Run(d1, c1, lo, hi) == Run(d2, c2, lo, hi)
    decreases hi - lo
  {
    if lo < hi {
      RunAgrees(d1, c1, d2, c2, lo, hi - 1);
    }
  }

  /** The first and last edge of a non-empty run carry the cursors of its ends. */
  lemma RunEnds(datas: seq<Record>, cs: seq<string>, lo: nat, hi: nat)
    requires |cs| == |datas| && lo < hi <= |datas|
    ensures Run(datas, cs, lo, hi)[0].cursor == cs[lo]
    ensures Run(datas, cs, lo, hi)[hi - lo - 1].cursor == cs[hi - 1]
  {
    RunAt(datas, cs, lo, hi, 0);
    RunAt(datas, cs, lo, hi, hi - lo - 1);
  }

  /** With no record matching either cursor, every record is kept. */
  lemma NoMatchKeepsAll(datas: seq<Record>, cs: seq<string>, targets: TargetCursors)
    requires |cs| == |datas|
    requires forall i | 0 <= i < |cs| :: !Matches(targets.after, cs[i]) && !Matches(targets.before, cs[i])
    ensures Window(datas, cs, targets).edges == Run(datas, cs, 0, |datas|)
    ensures Window(datas, cs, targets).firstCursor == if 0 < |datas| then cs[0] else ""
    ensures Window(datas, cs, targets).endCursor == if 0 < |datas| then cs[|datas| - 1] else ""
  {
    StopIndexUnique(cs, targets, |cs|);
    StartIndexUnique(cs, targets.after, |cs|, 0);
  }

  /**
    Without a stop, the records kept are those after the last `after` match: an
    earlier match is undone by a later one.
  */
  lemma AfterKeepsTail(datas: seq<Record>, cs: seq<string>, targets: TargetCursors, i: nat)
    requires |cs| == |datas| && i < |datas|
    requires Matches(targets.after, cs[i])
    requires forall j | i < j < |cs| :: !Matches(targets.after, cs[j])
    requires forall j | 0 <= j < |cs| :: !IsStop(targets, cs[j])
    ensures Window(datas, cs, targets).edges == Run(datas, cs, i + 1, |datas|)
  {
    StopIndexUnique(cs, targets, |cs|);
    StartIndexUnique(cs, targets.after, |cs|, i + 1);
  }

  /**
    A `before` match with no match of either cursor ahead of it keeps exactly the records
    before it, and leaves the end cursor empty unless it is the last record.
  */
  lemma BeforeKeepsPrefix(datas: seq<Record>, cs: seq<string>, targets: TargetCursors, i: nat)
    requires |cs| == |datas| && i < |datas|
    requires IsStop(targets, cs[i])
    requires forall j | 0 <= j < i :: !Matches(targets.after, cs[j]) && !Matches(targets.before, cs[j])
    ensures Window(datas, cs, targets).edges == Run(datas, cs, 0, i)
    ensures Window(datas, cs, targets).endCursor == if i == |datas| - 1 then cs[i] else ""
  {
    StopIndexUnique(cs, targets, i);
    StartIndexUnique(cs, targets.after, i, 0);
  }

  /** Records after a stop have no effect on the edges or on the first cursor. */
  lemma StopIgnoresRest(d1: seq<Record>, c1: seq<string>, d2: seq<Record>, c2: seq<string>,
                        targets: TargetCursors, i: nat)
    requires |c1| == |d1| && |c2| == |d2| && i < |d1| && i < |d2|
    requires d1[..i + 1] == d2[..i + 1] && c1[..i + 1] == c2[..i + 1]
    requires IsStop(targets, c1[i])
    ensures Window(d1, c1, targets).edges == Window(d2, c2, targets).edges
    ensures Window(d1, c1, targets).firstCursor == Window(d2, c2, targets).firstCursor
  {
    var s := StopIndex(c1, targets);
    StopIndexIsFirstStop(c1, targets);
    assert s <= i;
    forall j | 0 <= j <= i
      ensures d1[j] == d2[j] && c1[j] == c2[j]
    {
      assert d1[j] == d1[..i + 1][j] && d2[j] == d2[..i + 1][j];
      assert c1[j] == c1[..i + 1][j] && c2[j] == c2[..i + 1][j];
    }
    StopIndexUnique(c2, targets, s);
    var t := StartIndex(c1, targets.after, s);
    StartIndexIsPastLastAfter(c1, targets.after, s);
    StartIndexUnique(c2, targets.after, s, t);
    RunAgrees(d1, c1, d2, c2, t, s);
  }

  /** A `before` equal to `after` never stops the pass: the `after` test wins. */
  lemma BeforeEqualToAfterNeverStops(datas: seq<Record>, cs: seq<string>, c: string)
    requires |cs| == |datas|
    ensures Window(datas, cs, TargetCursors(Some(c), Some(c))) == Window(datas, cs, TargetCursors(Some(c), None))
  {
    StopIndexUnique(cs, TargetCursors(Some(c), Some(c)), |cs|);
    StopIndexUnique(cs, TargetCursors(Some(c), None), |cs|);
  }

  /** The edges are one contiguous run of the records, each with its own cursor. */
  lemma WindowIsContiguousRun(datas: seq<Record>, cs: seq<string>, targets: TargetCursors)
    requires |cs| == |datas|
    ensures exists lo: nat :: EdgesFrom(Window(datas, cs, targets).edges, datas, cs, lo)
  {
    var s := StopIndex(cs, targets);
    var t := StartIndex(cs, targets.after, s);
    var edges := Window(datas, cs, targets).edges;
    assert edges == Run(datas, cs, t, s);
    forall k | 0 <= k < |edges|
      ensures edges[k] == Edge(datas[t + k], cs[t + k])
    {
      RunAt(datas, cs, t, s, k);
    }
    assert EdgesFrom(edges, datas, cs, t);
  }

  /** The cursor of every edge is the cursor of the record it carries. */
  lemma EdgesCarryOwnCursors(datas: seq<Record>, keyOption: CursorKeyOption, targets: TargetCursors)
    ensures var edges := CursorWindow(datas, keyOption, targets).edges;
      forall k | 0 <= k < |edges| :: edges[k].cursor == Cursor(keyOption, edges[k].node)
  {
    var cs := Cursors(datas, keyOption);
    var s := StopIndex(cs, targets);
    var t := StartIndex(cs, targets.after, s);
    var edges := Run(datas, cs, t, s);
    forall k | 0 <= k < |edges|
      ensures edges[k].cursor == Cursor(keyOption, edges[k].node)
    {
      RunAt(datas, cs, t, s, k);
      CursorsAt(datas, keyOption, t + k);
    }
  }

  /**
    The first cursor is the first record's; the end cursor is the last record's when no
    stop comes before it, and empty when one does.
  */
  lemma BoundaryCursors(datas: seq<Record>, cs: seq<string>, targets: TargetCursors)
    requires |cs| == |datas|
    ensures var w, n := Window(datas, cs, targets), |datas|;
      && (n == 0 ==> w.firstCursor == "" && w.endCursor == "")
      && (0 < n ==> w.firstCursor == cs[0])
      && (0 < n && (forall j | 0 <= j < n - 1 :: !IsStop(targets, cs[j])) ==> w.endCursor == cs[n - 1])
      && ((exists j | 0 <= j < n - 1 :: IsStop(targets, cs[j])) ==> w.endCursor == "")
  {
    StopIndexIsFirstStop(cs, targets);
  }

  /** `first` and `last`, when not negative, cut the window to at most that many edges. */
  lemma PageSlices(info: EdgeInfo, first: int, last: int)
    requires 0 <= first && 0 <= last
    ensures var p, n := PageOf(info, first, last), |info.edges|;
      var hi := if first > 0 then Min(first, n) else n;
      var lo := if last > 0 then hi - Min(last, hi) else 0;
      && p.edges == info.edges[lo..hi]
      && (first > 0 ==> |p.edges| <= first)
      && (last > 0 ==> |p.edges| <= last)
  {
  }

  /** An empty page has neither a previous nor a next page. */
  lemma EmptyPageHasNoNeighbours(info: EdgeInfo, first: int, last: int)
    requires PageOf(info, first, last).edges == []
    ensures !PageOf(info, first, last).pageInfo.hasPreviousPage
    ensures !PageOf(info, first, last).pageInfo.hasNextPage
  {
  }

  /**
    `PageOf` a run `[t, s)` holds the records of the part of it that `SlicedBounds` names,
    and its flags compare the cursors at the ends of that part.
  */
  lemma PageOfRun(datas: seq<Record>, cs: seq<string>, info: EdgeInfo, t: nat, s: nat, first: int, last: int)
    requires |cs| == |datas| && t <= s <= |datas|
    requires info.edges == Run(datas, cs, t, s)
    ensures var b := SlicedBounds(s - t, first, last);
      var p := PageOf(info, first, last);
      && |p.edges| == b.1 - b.0
      && EdgesFrom(p.edges, datas, cs, t + b.0)
      && (p.pageInfo.hasPreviousPage <==> b.0 < b.1 && cs[t + b.0] != info.firstCursor)
      && (p.pageInfo.hasNextPage <==> b.0 < b.1 && cs[t + b.1 - 1] != info.endCursor)
  {
    var b := SlicedBounds(s - t, first, last);
    var p := PageOf(info, first, last);
    assert p.edges == info.edges[b.0..b.1];
    forall k | 0 <= k < |p.edges|
      ensures p.edges[k] == Edge(datas[t + b.0 + k], cs[t + b.0 + k])
    {
      RunAt(datas, cs, t, s, b.0 + k);
    }
  }

  /**
    The page holds the records from `t + lo` to `t + hi`, where `[t, s)` is the window
    and `SlicedBounds` gives `lo` and `hi`; the flags compare the cursors at its ends.
  */
  lemma PageIsRun(datas: seq<Record>, cs: seq<string>, targets: TargetCursors, first: int, last: int)
    requires |cs| == |datas|
    ensures var s := StopIndex(cs, targets);
      var t := StartIndex(cs, targets.after, s);
      var b := SlicedBounds(s - t, first, last);
      var w := Window(datas, cs, targets);
      var p := PageOf(w, first, last);
      && t + b.1 <= |datas|
      && |p.edges| == b.1 - b.0
      && EdgesFrom(p.edges, datas, cs, t + b.0)
      && (p.pageInfo.hasPreviousPage <==> b.0 < b.1 && cs[t + b.0] != w.firstCursor)
      && (p.pageInfo.hasNextPage <==> b.0 < b.1 && cs[t + b.1 - 1] != w.endCursor)
  {
    var s := StopIndex(cs, targets);
    var t := StartIndex(cs, targets.after, s);
    PageOfRun(datas, cs, Window(datas, cs, targets), t, s, first, last);
  }

  /**
    With distinct, non-empty cursors, there is a previous page exactly when the page
    starts after the first record, and a next page exactly when it ends before the last.
  */
  lemma FlagsMeaning(datas: seq<Record>, cs: seq<string>, targets: TargetCursors, first: int, last: int)
    requires |cs| == |datas| && Distinct(cs)
    requires forall i | 0 <= i < |cs| :: cs[i] != ""
    ensures var s := StopIndex(cs, targets);
      var t := StartIndex(cs, targets.after, s);
      var b := SlicedBounds(s - t, first, last);
      var p := PageOf(Window(datas, cs, targets), first, last);
      && (p.pageInfo.hasPreviousPage <==> b.0 < b.1 && 0 < t + b.0)
      && (p.pageInfo.hasNextPage <==> b.0 < b.1 && t + b.1 < |datas|)
  {
    PageIsRun(datas, cs, targets, first, last);
  }

  /** An empty collection gives an empty page with both flags false, whatever the arguments. */
  lemma EmptyCollection(targets: TargetCursors, first: int, last: int)
    ensures Window([], [], targets) == EdgeInfo([], "", "")
    ensures PageOf(Window([], [], targets), first, last) == Page([], PageInfo(false, false))
  {
  }

  /** With no arguments, the page is the whole collection with both flags false. */
  lemma NoArgumentsReturnsAll(datas: seq<Record>, cs: seq<string>)
    requires |cs| == |datas|
    ensures var p := PageOf(Window(datas, cs, TargetCursors(None, None)), 0, 0);
      p.edges == Run(datas, cs, 0, |datas|) && !p.pageInfo.hasNextPage && !p.pageInfo.hasPreviousPage
  {
    var w := Window(datas, cs, TargetCursors(None, None));
    NoMatchKeepsAll(datas, cs, TargetCursors(None, None));
    assert w.edges[0..|datas|] == w.edges;
    if 0 < |datas| {
      RunAt(datas, cs, 0, |datas|, 0);
      RunAt(datas, cs, 0, |datas|, |datas| - 1);
    }
  }

  /** `first: k` alone gives the first k records, with a next page exactly when there are more. */
  lemma FirstPage(datas: seq<Record>, cs: seq<string>, first: int)
    requires |cs| == |datas| && Distinct(cs) && 0 < first
    ensures var p := PageOf(Window(datas, cs, TargetCursors(None, None)), first, 0);
      && |p.edges| == Min(first, |datas|)
      && EdgesFrom(p.edges, datas, cs, 0)
      && !p.pageInfo.hasPreviousPage
      && (p.pageInfo.hasNextPage <==> first < |datas|)
  {
    var w := Window(datas, cs, TargetCursors(None, None));
    NoMatchKeepsAll(datas, cs, TargetCursors(None, None));
    PageOfRun(datas, cs, w, 0, |datas|, first, 0);
  }

  /** `last: k` alone gives the last k records, with a previous page exactly when there are more. */
  lemma LastPage(datas: seq<Record>, cs: seq<string>, last: int)
    requires |cs| == |datas| && Distinct(cs) && 0 < last
    ensures var p := PageOf(Window(datas, cs, TargetCursors(None, None)), 0, last);
      && |p.edges| == Min(last, |datas|)
      && EdgesFrom(p.edges, datas, cs, |datas| - Min(last, |datas|))
      && !p.pageInfo.hasNextPage
      && (p.pageInfo.hasPreviousPage <==> last < |datas|)
  {
    var w := Window(datas, cs, TargetCursors(None, None));
    NoMatchKeepsAll(datas, cs, TargetCursors(None, None));
    PageOfRun(datas, cs, w, 0, |datas|, 0, last);
  }

  /**
    `after` the first record's cursor with `last: 1` gives the last record alone, which has
    a previous page and no next page.
  */
  lemma AfterFirstLastOne(datas: seq<Record>, cs: seq<string>)
    requires |cs| == |datas| && 2 <= |datas| && Distinct(cs)
    ensures var p := PageOf(Window(datas, cs, TargetCursors(Some(cs[0]), None)), 0, 1);
      && p.edges == [Edge(datas[|datas| - 1], cs[|datas| - 1])]
      && p.pageInfo.hasPreviousPage
      && !p.pageInfo.hasNextPage
  {
    var targets := TargetCursors(Some(cs[0]), None);
    StopIndexUnique(cs, targets, |cs|);
    StartIndexUnique(cs, targets.after, |cs|, 1);
    var n := |datas|;
    var w := Window(datas, cs, targets);
    assert w.edges == Run(datas, cs, 1, n);
    PageOfRun(datas, cs, w, 1, n, 0, 1);
    assert SlicedBounds(n - 1, 0, 1) == (n - 2, n - 1);
  }
}
