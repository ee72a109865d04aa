/**
  Cursor pagination over an ordered in-memory collection: `applyCursors` cuts the
  collection at the `after` and `before` cursors in one left-to-right pass, and
  `paging` narrows that run with `first` and `last` and sets the page flags from the
  cursors of the collection's first and last records.
*/
module Connection {
  import opened Wrappers
  import opened CursorCodec
  import opened JsArray

  datatype Edge = Edge(node: Record, cursor: string)

  /** The `{ after, before }` cursors; None stands for the `null` default, which equals no cursor. */
  datatype TargetCursors = TargetCursors(after: Option<string>, before: Option<string>)

  datatype EdgeInfo = EdgeInfo(edges: seq<Edge>, firstCursor: string, endCursor: string)

  datatype PaginationOption = PaginationOption(first: int, after: Option<string>, last: int, before: Option<string>)

  datatype PageInfo = PageInfo(hasNextPage: bool, hasPreviousPage: bool)

  datatype Page = Page(edges: seq<Edge>, pageInfo: PageInfo)

  /** `cursor === target`, where an absent target equals nothing. */
  predicate Matches(target: Option<string>, cursor: string) {
    target == Some(cursor)
  }

  /** A record stops the pass when it matches `before`; the `after` test comes first and wins. */
  predicate IsStop(targets: TargetCursors, cursor: string) {
    !Matches(targets.after, cursor) && Matches(targets.before, cursor)
  }

  /** The cursor of every record, in order. */
  function Cursors(datas: seq<Record>, keyOption: CursorKeyOption): (cs: seq<string>)
    ensures |cs| == |datas|
  {
    if datas == [] then [] else [Cursor(keyOption, datas[0])] + Cursors(datas[1..], keyOption)
  }

  lemma {:induction false} CursorsAt(datas: seq<Record>, keyOption: CursorKeyOption, i: nat)
    requires i < |datas|
    ensures Cursors(datas, keyOption)[i] == Cursor(keyOption, datas[i])
  {
    if i > 0 {
      CursorsAt(datas[1..], keyOption, i - 1);
    }
  }

  /** The edges of the records at positions `lo <= i < hi`, in order, each with its cursor. */
  function Run(datas: seq<Record>, cs: seq<string>, lo: nat, hi: nat): (edges: seq<Edge>)
    requires |cs| == |datas| && lo <= hi <= |datas|
    ensures |edges| == hi - lo
    decreases hi - lo
  {
    if lo == hi then [] else Run(datas, cs, lo, hi - 1) + [Edge(datas[hi - 1], cs[hi - 1])]
  }

  /** The edge at offset `k` of a run is the record at `lo + k` with its cursor. */
  lemma {:induction false} RunAt(datas: seq<Record>, cs: seq<string>, lo: nat, hi: nat, k: nat)
    requires |cs| == |datas| && lo <= hi <= |datas| && k < hi - lo
    ensures Run(datas, cs, lo, hi)[k] == Edge(datas[lo + k], cs[lo + k])
    decreases hi - lo
  {
    if k < hi - lo - 1 {
      RunAt(datas, cs, lo, hi - 1, k);
    }
  }

  /** The index of the first stopping record, or the length when none stops. */
  function StopIndex(cs: seq<string>, targets: TargetCursors): (s: nat)
    ensures s <= |cs|
  {
    if cs == [] then 0
    else if IsStop(targets, cs[0]) then 0
    else 1 + StopIndex(cs[1..], targets)
  }

  /** No record before `StopIndex` stops the pass, and the record at it does. */
  lemma {:induction false} StopIndexIsFirstStop(cs: seq<string>, targets: TargetCursors)
    ensures forall i | 0 <= i < StopIndex(cs, targets) :: !IsStop(targets, cs[i])
    ensures StopIndex(cs, targets) < |cs| ==> IsStop(targets, cs[StopIndex(cs, targets)])
  {
    if cs != [] && !IsStop(targets, cs[0]) {
      StopIndexIsFirstStop(cs[1..], targets);
      forall i | 1 <= i < StopIndex(cs, targets)
        ensures !IsStop(targets, cs[i])
      {
        assert cs[i] == cs[1..][i - 1];
      }
    }
  }

  /** `StopIndex` is the one index these two facts describe. */
  lemma StopIndexUnique(cs: seq<string>, targets: TargetCursors, i: nat)
    requires i <= |cs|
    requires forall j | 0 <= j < i :: !IsStop(targets, cs[j])
    requires i < |cs| ==> IsStop(targets, cs[i])
    ensures StopIndex(cs, targets) == i
  {
    StopIndexIsFirstStop(cs, targets);
  }

  /** One past the last `after` match below `s`, or 0 when there is none. */
  function StartIndex(cs: seq<string>, after: Option<string>, s: nat): (t: nat)
    requires s <= |cs|
    ensures t <= s
  {
    if s == 0 then 0
    else if Matches(after, cs[s - 1]) then s
    else StartIndex(cs, after, s - 1)
  }

  /** No record from `StartIndex` up to `s` matches `after`, and the one before it does. */
  lemma {:induction false} StartIndexIsPastLastAfter(cs: seq<string>, after: Option<string>, s: nat)
    requires s <= |cs|
    ensures forall i | StartIndex(cs, after, s) <= i < s :: !Matches(after, cs[i])
    ensures 0 < StartIndex(cs, after, s) ==> Matches(after, cs[StartIndex(cs, after, s) - 1])
  {
    if s > 0 && !Matches(after, cs[s - 1]) {
      StartIndexIsPastLastAfter(cs, after, s - 1);
    }
  }

  /** `StartIndex` is the one index these facts describe. */
  lemma {:induction false} StartIndexUnique(cs: seq<string>, after: Option<string>, s: nat, t: nat)
    requires t <= s <= |cs|
    requires 0 < t ==> Matches(after, cs[t - 1])
    requires forall j | t <= j < s :: !Matches(after, cs[j])
    ensures StartIndex(cs, after, s) == t
  {
    if s > t {
      StartIndexUnique(cs, after, s - 1, t);
    }
  }

  /**
    What `applyCursors` computes, stated as index arithmetic over the cursors `cs` of
    `datas`: the records strictly after the last `after` match that precedes the first
    stop, up to that stop; the cursor of the first record; and the cursor of the last
    record unless a stop came before it.
  */
  function Window(datas: seq<Record>, cs: seq<string>, targets: TargetCursors): (info: EdgeInfo)
    requires |cs| == |datas|
  {
    var n := |datas|;
    var s := StopIndex(cs, targets);
    var t := StartIndex(cs, targets.after, s);
    EdgeInfo(Run(datas, cs, t, s),
             if 0 < n then cs[0] else "",
             if 0 < n && n - 1 <= s then cs[n - 1] else "")
  }

  function CursorWindow(datas: seq<Record>, keyOption: CursorKeyOption, targets: TargetCursors): EdgeInfo {
    Window(datas, Cursors(datas, keyOption), targets)
  }

  /** Past a record that does not match `after`, the run grows by that record. */
  lemma RunGrows(datas: seq<Record>, cs: seq<string>, after: Option<string>, i: nat)
    requires |cs| == |datas| && i < |datas|
    requires !Matches(after, cs[i])
    ensures StartIndex(cs, after, i + 1) == StartIndex(cs, after, i)
    ensures Run(datas, cs, StartIndex(cs, after, i), i + 1) ==
      Run(datas, cs, StartIndex(cs, after, i), i) + [Edge(datas[i], cs[i])]
  {
  }

  /** An `after` match restarts the run just past itself. */
  lemma RunRestarts(datas: seq<Record>, cs: seq<string>, after: Option<string>, i: nat)
    requires |cs| == |datas| && i < |datas|
    requires Matches(after, cs[i])
    ensures StartIndex(cs, after, i + 1) == i + 1 && Run(datas, cs, i + 1, i + 1) == []
  {
  }

  /**
    The state of the pass after the records before `idx`: no record before `stop` stops
    it, the record at `stop` does once `cursorEnd` is set (and `stop` follows the
    records seen otherwise), and `result` is the run from the last `after` match to `stop`.
  */
  ghost predicate PassState(datas: seq<Record>, cs: seq<string>, targets: TargetCursors,
                            idx: nat, stop: nat, cursorEnd: bool, result: seq<Edge>)
    requires |cs| == |datas|
  {
    && stop <= idx <= |datas|
    && (!cursorEnd ==> stop == idx)
    && (cursorEnd ==> stop < idx && IsStop(targets, cs[stop]))
    && (forall i | 0 <= i < stop :: !IsStop(targets, cs[i]))
    && result == Run(datas, cs, StartIndex(cs, targets.after, stop), stop)
  }

  /** An `after` match empties the result and moves past itself. */
  lemma AfterStep(datas: seq<Record>, cs: seq<string>, targets: TargetCursors, idx: nat, result: seq<Edge>)
    requires |cs| == |datas| && idx < |datas|
    requires PassState(datas, cs, targets, idx, idx, false, result)
    requires Matches(targets.after, cs[idx])
    ensures PassState(datas, cs, targets, idx + 1, idx + 1, false, [])
  {
    RunRestarts(datas, cs, targets.after, idx);
  }

  /** A `before` match that is no `after` match stops the pass at itself. */
  lemma BeforeStep(datas: seq<Record>, cs: seq<string>, targets: TargetCursors, idx: nat, result: seq<Edge>)
    requires |cs| == |datas| && idx < |datas|
    requires PassState(datas, cs, targets, idx, idx, false, result)
    requires !Matches(targets.after, cs[idx]) && Matches(targets.before, cs[idx])
    ensures PassState(datas, cs, targets, idx + 1, idx, true, result)
  {
  }

  /** Any other record joins the result. */
  lemma GrowStep(datas: seq<Record>, cs: seq<string>, targets: TargetCursors, idx: nat, result: seq<Edge>)
    requires |cs| == |datas| && idx < |datas|
    requires PassState(datas, cs, targets, idx, idx, false, result)
    requires !Matches(targets.after, cs[idx]) && !Matches(targets.before, cs[idx])
    ensures PassState(datas, cs, targets, idx + 1, idx + 1, false, result + [Edge(datas[idx], cs[idx])])
  {
    RunGrows(datas, cs, targets.after, idx);
  }

  /** Once stopped, a record changes nothing. */
  lemma SkipStep(datas: seq<Record>, cs: seq<string>, targets: TargetCursors, idx: nat, stop: nat, result: seq<Edge>)
    requires |cs| == |datas| && idx < |datas|
    requires PassState(datas, cs, targets, idx, stop, true, result)
    ensures PassState(datas, cs, targets, idx + 1, stop, true, result)
  {
  }

  /** At the end of the pass, `stop` is the first stop and the result is the window's run. */
  lemma PassEnd(datas: seq<Record>, cs: seq<string>, targets: TargetCursors, stop: nat, cursorEnd: bool, result: seq<Edge>)
    requires |cs| == |datas|
    requires PassState(datas, cs, targets, |datas|, stop, cursorEnd, result)
    ensures stop == StopIndex(cs, targets)
    ensures result == Window(datas, cs, targets).edges
  {
    StopIndexUnique(cs, targets, stop);
  }

  /** One pass over `datas`, as the `reduce` in the source makes it. */
  method ApplyCursors(datas: seq<Record>, keyOption: CursorKeyOption, targetCursors: TargetCursors)
    returns (info: EdgeInfo)
    ensures info == CursorWindow(datas, keyOption, targetCursors)
  {
    var after, before := targetCursors.after, targetCursors.before;
    var cursorEnd := false;
    var firstCursor, endCursor := "", "";
    var result: seq<Edge> := [];
    ghost var cs := Cursors(datas, keyOption);
    ghost var stop := 0;
    var idx := 0;
    while idx < |datas|
      invariant idx <= |datas|
      invariant PassState(datas, cs, targetCursors, idx, stop, cursorEnd, result)
      invariant firstCursor == if 0 < idx then cs[0] else ""
      invariant endCursor == if 0 < |datas| <= idx && |datas| - 1 <= stop then cs[|datas| - 1] else ""
    {
      if cursorEnd {
        SkipStep(datas, cs, targetCursors, idx, stop, result);
      } else {
        var cursor := Cursor(keyOption, datas[idx]);
        CursorsAt(datas, keyOption, idx);
        if idx == 0 {
          firstCursor := cursor;
        }
        if idx == |datas| - 1 {
          endCursor := cursor;
        }
        if Matches(after, cursor) {
          AfterStep(datas, cs, targetCursors, idx, result);
          result := [];
          stop := idx + 1;
        } else if Matches(before, cursor) {
          BeforeStep(datas, cs, targetCursors, idx, result);
          cursorEnd := true;
        } else {
          GrowStep(datas, cs, targetCursors, idx, result);
          result := result + [Edge(datas[idx], cursor)];
          stop := idx + 1;
        }
      }
      idx := idx + 1;
    }
    PassEnd(datas, cs, targetCursors, stop, cursorEnd, result);
    info := EdgeInfo(result, firstCursor, endCursor);
  }

  /**
    The page `paging` cuts from the result `info` of `applyCursors`: the part of its
    edges that `slice(0, first)` (only when `first` is non-zero, a JavaScript truthy
    number) and then `slice(-last)` keep, with a previous page when the first edge of the
    page is not the collection's first, and a next page when the last edge of the page
    is not the collection's last.
  */
  function PageOf(info: EdgeInfo, first: int, last: int): (page: Page)
  {
    var b := SlicedBounds(|info.edges|, first, last);
    var edges := info.edges[b.0..b.1];
    Page(edges, PageInfo(b.0 < b.1 && edges[|edges| - 1].cursor != info.endCursor,
                         b.0 < b.1 && edges[0].cursor != info.firstCursor))
  }

  function Paginated(datas: seq<Record>, keyOption: CursorKeyOption, options: PaginationOption): Page {
    PageOf(CursorWindow(datas, keyOption, TargetCursors(options.after, options.before)), options.first, options.last)
  }

  /** What the slices and comparisons of `paging` compute is `PageOf`. */
  lemma PagingComputesPageOf(info: EdgeInfo, first: int, last: int, firstSliced: seq<Edge>, edges: seq<Edge>)
    requires firstSliced == if first != 0 then Slice(info.edges, 0, Some(first)) else info.edges
    requires edges == Slice(firstSliced, -last, None)
    ensures PageOf(info, first, last) ==
      Page(edges, PageInfo(|edges| != 0 && info.endCursor != edges[|edges| - 1].cursor,
                           |edges| != 0 && info.firstCursor != edges[0].cursor))
  {
    SlicesCompose(info.edges, |info.edges|, first, last, firstSliced);
  }

  method Paging(datas: seq<Record>, keyOption: CursorKeyOption, options: PaginationOption)
    returns (page: Page)
    ensures page == Paginated(datas, keyOption, options)
  {
    var result := ApplyCursors(datas, keyOption, TargetCursors(options.after, options.before));
    var firstCursor, endCursor := result.firstCursor, result.endCursor;
    var edges := result.edges;
    var hasPreviousPage := false;
    var hasNextPage := false;

    if options.first != 0 {
      edges := Slice(edges, 0, Some(options.first));
    }
    ghost var firstSliced := edges;
    edges := Slice(edges, -options.last, None);

    if |edges| != 0 && firstCursor != edges[0].cursor {
      hasPreviousPage := true;
    }
    if |edges| != 0 && endCursor != edges[|edges| - 1].cursor {
      hasNextPage := true;
    }
    page := Page(edges, PageInfo(hasNextPage, hasPreviousPage));
    PagingComputesPageOf(result, options.first, options.last, firstSliced, edges);
  }
}
