/**
 * The index arithmetic of the channel page: which rows of the video list are on screen, which
 * rows have a thumbnail requested, the cancel/request transition between two request windows,
 * the loading priorities, and what a tap selects. Loader calls are recorded as events.
 */
module Channel {
  import opened Wrappers
  import opened CppArith
  import opened YoutubeTypes

  const THUMBNAIL_HEIGHT := 54
  const VIDEOS_MARGIN := 6
  const VIDEOS_VERTICAL_INTERVAL := THUMBNAIL_HEIGHT + VIDEOS_MARGIN
  const BANNER_HEIGHT := 55
  const ICON_SIZE := 55
  const TAB_SELECTOR_HEIGHT := 20
  const MAX_THUMBNAIL_LOAD_REQUEST := 30
  const TAB_NUM := 2
  const SCREEN_WIDTH := 320
  const DISPLAYED_PRIORITY := 500

  // ---------------------------------------------------------------- displayed rows

  /**
   * The height above the video list: the banner if there is one, the icon row and the tab
   * selector. `SMALL_MARGIN` is defined outside this file, so it is a parameter.
   */
  function ListTop(hasBanner: bool, smallMargin: int): (y: int)
    ensures y >= ICON_SIZE + 2 * smallMargin + TAB_SELECTOR_HEIGHT
    ensures hasBanner <==> y >= BANNER_HEIGHT + ICON_SIZE + 2 * smallMargin + TAB_SELECTOR_HEIGHT
  {
    (if hasBanner then BANNER_HEIGHT else 0) + ICON_SIZE + smallMargin * 2 + TAB_SELECTOR_HEIGHT
  }

  function Min(a: int, b: int): int { if a < b then a else b }
  function Max(a: int, b: int): int { if a < b then b else a }

  /** `displayed_l`/`displayed_r` for a scroll offset and a list viewport `listHeight` px high. */
  function DisplayedRange(offset: int, listTop: int, listHeight: int, videoNum: int): (r: (int, int))
    ensures r.0 <= videoNum && r.1 <= videoNum
    ensures videoNum >= 0 ==> 0 <= r.0 && 0 <= r.1
  {
    var l := Min(videoNum, Max(0, Quot(offset - listTop, VIDEOS_VERTICAL_INTERVAL)));
    var r := Min(videoNum, Max(0, Quot(offset - listTop + listHeight - 1, VIDEOS_VERTICAL_INTERVAL) + 1));
    (l, r)
  }

  /** Row `i` (with its margin) overlaps the viewport `[offset, offset + listHeight)`. */
  predicate RowVisible(offset: int, listTop: int, listHeight: int, i: int) {
    listTop + VIDEOS_VERTICAL_INTERVAL * i < offset + listHeight &&
    offset < listTop + VIDEOS_VERTICAL_INTERVAL * i + VIDEOS_VERTICAL_INTERVAL
  }

  lemma {:induction false} DisplayedRangeBounds(offset: int, listTop: int, listHeight: int, videoNum: int)
    requires listHeight >= 1 && videoNum >= 0
    ensures var (l, r) := DisplayedRange(offset, listTop, listHeight, videoNum);
            0 <= l <= r <= videoNum
  {
    QuotMonotone(offset - listTop, offset - listTop + listHeight - 1, VIDEOS_VERTICAL_INTERVAL);
  }

  /**
   * Once the list has started above the bottom of the viewport, the displayed rows are exactly
   * the rows that overlap it. (Without that condition truncating division can report row 0 as
   * displayed while the list still lies below the viewport.)
   */
  lemma {:induction false} DisplayedIffVisible(offset: int, listTop: int, listHeight: int, videoNum: int, i: int)
    requires listHeight >= 1 && offset - listTop + listHeight >= 1
    requires 0 <= i < videoNum
    ensures var (l, r) := DisplayedRange(offset, listTop, listHeight, videoNum);
            l <= i < r <==> RowVisible(offset, listTop, listHeight, i)
  {
    var a := offset - listTop;
    var b := a + listHeight - 1;
    QuotOfNatural(b, VIDEOS_VERTICAL_INTERVAL);
    if a >= 0 {
      QuotOfNatural(a, VIDEOS_VERTICAL_INTERVAL);
      LowerBoundIff(a, i);
    } else {
      assert Quot(a, VIDEOS_VERTICAL_INTERVAL) <= 0;
    }
    UpperBoundIff(b, i);
  }

  lemma LowerBoundIff(a: int, i: int)
    requires a >= 0 && i >= 0
    ensures a / VIDEOS_VERTICAL_INTERVAL <= i <==> a < VIDEOS_VERTICAL_INTERVAL * i + VIDEOS_VERTICAL_INTERVAL
  {
  }

  lemma UpperBoundIff(b: int, i: int)
    requires b >= 0 && i >= 0
    ensures i < b / VIDEOS_VERTICAL_INTERVAL + 1 <==> VIDEOS_VERTICAL_INTERVAL * i <= b
  {
  }

  // ---------------------------------------------------------------- request window

  /** `[request_target_l, request_target_r)`: up to 30 rows centred on the displayed ones. */
  function RequestWindow(displayedL: int, displayedR: int, videoNum: int): (w: (int, int))
    ensures 0 <= w.0 && w.1 <= videoNum && w.1 <= w.0 + MAX_THUMBNAIL_LOAD_REQUEST
  {
    var l := Max(0, displayedL - Quot(MAX_THUMBNAIL_LOAD_REQUEST - (displayedR - displayedL), 2));
    (l, Min(videoNum, l + MAX_THUMBNAIL_LOAD_REQUEST))
  }

  lemma {:induction false} RequestWindowBounds(displayedL: int, displayedR: int, videoNum: int)
    requires 0 <= displayedL <= displayedR <= videoNum
    ensures var (l, r) := RequestWindow(displayedL, displayedR, videoNum);
            0 <= l <= r <= videoNum && r - l <= MAX_THUMBNAIL_LOAD_REQUEST
  {
    var d := displayedR - displayedL;
    var q := Quot(MAX_THUMBNAIL_LOAD_REQUEST - d, 2);
    if d <= MAX_THUMBNAIL_LOAD_REQUEST {
      assert q >= 0;
    } else {
      assert q >= -d;
    }
  }

  /** When at most 30 rows are displayed, every displayed row gets its thumbnail requested. */
  lemma {:induction false} RequestWindowCoversDisplayed(displayedL: int, displayedR: int, videoNum: int)
    requires 0 <= displayedL <= displayedR <= videoNum
    requires displayedR - displayedL <= MAX_THUMBNAIL_LOAD_REQUEST
    ensures var (l, r) := RequestWindow(displayedL, displayedR, videoNum);
            l <= displayedL && displayedR <= r
  {
    var d := displayedR - displayedL;
    var q := Quot(MAX_THUMBNAIL_LOAD_REQUEST - d, 2);
    assert 0 <= q <= MAX_THUMBNAIL_LOAD_REQUEST - d;
  }

  // ---------------------------------------------------------------- priorities

  /** `dist`: how many rows `i` lies outside `[displayedL, displayedR)`, not positive inside it. */
  function Dist(i: int, displayedL: int, displayedR: int): (d: int)
    ensures d > 0 <==> i < displayedL || displayedR <= i
  {
    if i < displayedL then displayedL - i else i - displayedR + 1
  }

  /** `500 - dist(i)`: outside the displayed rows, 500 less the number of rows to the nearest one. */
  function Priority(i: int, displayedL: int, displayedR: int): (p: int)
    ensures i < displayedL ==> p == DISPLAYED_PRIORITY - (displayedL - i)
    ensures displayedL <= displayedR <= i ==> p == DISPLAYED_PRIORITY - (i + 1 - displayedR)
  {
    DISPLAYED_PRIORITY - Dist(i, displayedL, displayedR)
  }

  /** Displayed rows load at priority 500 or more, every other row below 500. */
  lemma PriorityIff(i: int, displayedL: int, displayedR: int)
    ensures Priority(i, displayedL, displayedR) >= DISPLAYED_PRIORITY <==> displayedL <= i < displayedR
  {
  }

  /** Outside the displayed rows the priority falls by one per row of distance. */
  lemma PriorityFallsWithDistance(i: int, j: int, displayedL: int, displayedR: int)
    requires displayedL <= displayedR
    requires j < i < displayedL || displayedR <= i < j
    ensures Priority(j, displayedL, displayedR) < Priority(i, displayedL, displayedR)
  {
  }

  // ---------------------------------------------------------------- taps

  datatype Tap = TabTap(tab: int) | VideoTap(index: int) | NoTap

  /** The tab under `x` on the tab bar. */
  function TabAt(x: int): (tab: int)
    ensures 0 <= x < SCREEN_WIDTH ==> 0 <= tab < TAB_NUM
  {
    Quot(x * TAB_NUM, SCREEN_WIDTH)
  }

  lemma TabAtScreen(x: int)
    requires 0 <= x < SCREEN_WIDTH
    ensures TabAt(x) == 0 <==> x < SCREEN_WIDTH / TAB_NUM
  {
    QuotOfNatural(x * TAB_NUM, SCREEN_WIDTH);
  }

  /**
   * The tap handling of `Channel_draw` for a release at (x, y), leaving out the subscribe button:
   * the tab bar selects a tab; on the video tab, the thumbnail part of a displayed row selects
   * that video.
   */
  function TapTarget(x: int, y: int, hasBanner: bool, smallMargin: int, selectedTab: int,
                     videoNum: int, displayedL: int, displayedR: int): (t: Tap)
    ensures t.TabTap? && 0 <= x < SCREEN_WIDTH ==> 0 <= t.tab < TAB_NUM
    ensures t.VideoTap? ==> selectedTab == 0 && displayedL <= t.index < displayedR
    ensures t.VideoTap? ==> ListTop(hasBanner, smallMargin) <= y
  {
    var tabTop := (if hasBanner then BANNER_HEIGHT else 0) + smallMargin + ICON_SIZE + smallMargin;
    if tabTop <= y < tabTop + TAB_SELECTOR_HEIGHT then TabTap(TabAt(x))
    else
      var listTop := tabTop + TAB_SELECTOR_HEIGHT;
      if selectedTab == 0 && listTop <= y < listTop + videoNum * VIDEOS_VERTICAL_INTERVAL then
        var index := Quot(y - listTop, VIDEOS_VERTICAL_INTERVAL);
        var remainder := Rem(y - listTop, VIDEOS_VERTICAL_INTERVAL);
        if remainder < THUMBNAIL_HEIGHT && displayedL <= index < displayedR then VideoTap(index) else NoTap
      else NoTap
  }

  /** A tap selects video `i` exactly when it lands on the thumbnail part of displayed row `i`. */
  lemma {:induction false} VideoTapIff(x: int, y: int, hasBanner: bool, smallMargin: int,
                                       videoNum: int, displayedL: int, displayedR: int, i: int)
    requires smallMargin >= 0 && 0 <= displayedL && displayedR <= videoNum
    ensures var listTop := ListTop(hasBanner, smallMargin);
            TapTarget(x, y, hasBanner, smallMargin, 0, videoNum, displayedL, displayedR) == VideoTap(i) <==>
              displayedL <= i < displayedR &&
              listTop + VIDEOS_VERTICAL_INTERVAL * i <= y < listTop + VIDEOS_VERTICAL_INTERVAL * i + THUMBNAIL_HEIGHT
  {
    var listTop := ListTop(hasBanner, smallMargin);
    var d := y - listTop;
    if d >= 0 {
      QuotOfNatural(d, VIDEOS_VERTICAL_INTERVAL);
      RowOf(d, i);
    }
  }

  lemma RowOf(d: int, i: int)
    requires d >= 0
    ensures (d / VIDEOS_VERTICAL_INTERVAL == i && d % VIDEOS_VERTICAL_INTERVAL < THUMBNAIL_HEIGHT) <==>
              VIDEOS_VERTICAL_INTERVAL * i <= d < VIDEOS_VERTICAL_INTERVAL * i + THUMBNAIL_HEIGHT
  {
  }

  // ---------------------------------------------------------------- thumbnail requests

  /** The calls into the thumbnail loader, in the order they are made. */
  datatype Event = Cancel(handle: int) | Request(index: int) | SetPriorities(list: seq<(int, int)>)

  predicate InWindow(l: int, r: int, i: int) {
    l <= i < r
  }

  /** The indexes of `[l, r)`. */
  function Window(l: int, r: int): set<int> {
    set i | l <= i < r && InWindow(l, r, i)
  }

  /** The `thumbnail_cancel_request` calls for the indexes of `cancel` in `[lo, hi)`, ascending. */
  function CancelEvents(handles: seq<int>, lo: int, hi: int, cancel: set<int>): (es: seq<Event>)
    requires 0 <= lo <= hi <= |handles|
    decreases hi - lo
  {
    if hi == lo then []
    else CancelEvents(handles, lo, hi - 1, cancel) + (if hi - 1 in cancel then [Cancel(handles[hi - 1])] else [])
  }

  /** The `thumbnail_request` calls for the indexes of `added` in `[lo, hi)`, ascending. */
  function RequestEvents(lo: int, hi: int, added: set<int>): (es: seq<Event>)
    requires lo <= hi
    decreases hi - lo
  {
    if hi == lo then []
    else RequestEvents(lo, hi - 1, added) + (if hi - 1 in added then [Request(hi - 1)] else [])
  }

  /** The handle list after `thumbnail_cancel_request`: every index of `cancel` holds -1. */
  function Cancelled(handles: seq<int>, cancel: set<int>): (r: seq<int>)
    ensures |r| == |handles|
  {
    seq(|handles|, j requires 0 <= j < |handles| => if j in cancel then -1 else handles[j])
  }

  /** The handle list after `thumbnail_request`: every index of `added` holds the loader's handle. */
  function Requested(handles: seq<int>, added: set<int>, newHandle: int -> int): (r: seq<int>)
    ensures |r| == |handles|
  {
    seq(|handles|, j requires 0 <= j < |handles| => if j in added then newHandle(j) else handles[j])
  }

  /** The `priority_list` handed to `thumbnail_set_priorities`. */
  function PriorityList(handles: seq<int>, l: int, r: int, displayedL: int, displayedR: int): (list: seq<(int, int)>)
    requires 0 <= l <= r <= |handles|
    ensures |list| == r - l
  {
    seq(r - l, k requires 0 <= k < r - l => (handles[l + k], Priority(l + k, displayedL, displayedR)))
  }

  /** Each entry pairs a row's handle with its priority: 500 or more exactly for the displayed rows. */
  lemma PriorityListEntries(handles: seq<int>, l: int, r: int, displayedL: int, displayedR: int, k: int)
    requires 0 <= l <= r <= |handles| && 0 <= k < r - l
    ensures PriorityList(handles, l, r, displayedL, displayedR)[k].0 == handles[l + k]
    ensures PriorityList(handles, l, r, displayedL, displayedR)[k].1 >= DISPLAYED_PRIORITY <==> displayedL <= l + k < displayedR
  {
    PriorityIff(l + k, displayedL, displayedR);
  }

  datatype RequestState = RequestState(handles: seq<int>, requestL: int, requestR: int, events: seq<Event>)

  predicate ValidState(s: RequestState) {
    0 <= s.requestL <= s.requestR <= |s.handles|
  }

  /** The thumbnail-request update of `Channel_draw`, for a list of `|s.handles|` videos. */
  function Transition(s: RequestState, displayedL: int, displayedR: int, newHandle: int -> int): (t: RequestState)
    requires ValidState(s) && 0 <= displayedL <= displayedR <= |s.handles|
    ensures ValidState(t) && |t.handles| == |s.handles|
    ensures |s.events| <= |t.events| && t.events[..|s.events|] == s.events
  {
    if |s.handles| == 0 then s
    else
      RequestWindowBounds(displayedL, displayedR, |s.handles|);
      var (l, r) := RequestWindow(displayedL, displayedR, |s.handles|);
      var cancel := Window(s.requestL, s.requestR) - Window(l, r);
      var added := Window(l, r) - Window(s.requestL, s.requestR);
      var handles := Requested(Cancelled(s.handles, cancel), added, newHandle);
      RequestState(handles, l, r,
        s.events + CancelEvents(s.handles, s.requestL, s.requestR, cancel) + RequestEvents(l, r, added)
          + [SetPriorities(PriorityList(handles, l, r, displayedL, displayedR))])
  }

  /**
   * After the transition the request window is the target window within the list, no more
   * than 30 rows wide; cancelled rows hold -1, new rows the loader's handle, and every other
   * row keeps its handle.
   */
  lemma {:induction false} TransitionEffect(s: RequestState, displayedL: int, displayedR: int, newHandle: int -> int, j: int)
    requires ValidState(s) && 0 <= displayedL <= displayedR <= |s.handles| && |s.handles| > 0
    requires 0 <= j < |s.handles|
    ensures var t := Transition(s, displayedL, displayedR, newHandle);
            && ValidState(t) && |t.handles| == |s.handles|
            && (t.requestL, t.requestR) == RequestWindow(displayedL, displayedR, |s.handles|)
            && t.requestR - t.requestL <= MAX_THUMBNAIL_LOAD_REQUEST
            && (s.requestL <= j < s.requestR && !(t.requestL <= j < t.requestR) ==> t.handles[j] == -1)
            && (t.requestL <= j < t.requestR && !(s.requestL <= j < s.requestR) ==> t.handles[j] == newHandle(j))
            && (s.requestL <= j < s.requestR && t.requestL <= j < t.requestR ==> t.handles[j] == s.handles[j])
            && (!(s.requestL <= j < s.requestR) && !(t.requestL <= j < t.requestR) ==> t.handles[j] == s.handles[j])
  {
    RequestWindowBounds(displayedL, displayedR, |s.handles|);
  }

  /** The loader is asked only for, and for every, row in the new window but not the old one. */
  lemma {:induction false} RequestedRowsAreNew(s: RequestState, displayedL: int, displayedR: int,
                                               newHandle: int -> int, i: int)
    requires ValidState(s) && 0 <= displayedL <= displayedR <= |s.handles| && |s.handles| > 0
    ensures var t := Transition(s, displayedL, displayedR, newHandle);
            Request(i) in t.events[|s.events|..] <==> t.requestL <= i < t.requestR && !(s.requestL <= i < s.requestR)
  {
    RequestWindowBounds(displayedL, displayedR, |s.handles|);
    var (l, r) := RequestWindow(displayedL, displayedR, |s.handles|);
    var added := Window(l, r) - Window(s.requestL, s.requestR);
    var cancel := Window(s.requestL, s.requestR) - Window(l, r);
    var t := Transition(s, displayedL, displayedR, newHandle);
    var handles := Requested(Cancelled(s.handles, cancel), added, newHandle);
    var ce := CancelEvents(s.handles, s.requestL, s.requestR, cancel);
    var re := RequestEvents(l, r, added);
    var pe := [SetPriorities(PriorityList(handles, l, r, displayedL, displayedR))];
    assert t.events[|s.events|..] == ce + re + pe;
    CancelEventsAreCancels(s.handles, s.requestL, s.requestR, cancel);
    RequestEventsAreAdded(l, r, added, i);
    assert Request(i) in ce + re + pe <==> Request(i) in re;
  }

  /** The cancel calls name the old handles of the cancelled rows, and nothing else. */
  lemma {:induction false} CancelledRowsAreOld(s: RequestState, displayedL: int, displayedR: int,
                                               newHandle: int -> int, x: int)
    requires ValidState(s) && 0 <= displayedL <= displayedR <= |s.handles| && |s.handles| > 0
    ensures var t := Transition(s, displayedL, displayedR, newHandle);
            Cancel(x) in t.events[|s.events|..] <==>
              exists i :: s.requestL <= i < s.requestR && !(t.requestL <= i < t.requestR) && s.handles[i] == x
  {
    RequestWindowBounds(displayedL, displayedR, |s.handles|);
    var (l, r) := RequestWindow(displayedL, displayedR, |s.handles|);
    var added := Window(l, r) - Window(s.requestL, s.requestR);
    var cancel := Window(s.requestL, s.requestR) - Window(l, r);
    var t := Transition(s, displayedL, displayedR, newHandle);
    var handles := Requested(Cancelled(s.handles, cancel), added, newHandle);
    var ce := CancelEvents(s.handles, s.requestL, s.requestR, cancel);
    var re := RequestEvents(l, r, added);
    var pe := [SetPriorities(PriorityList(handles, l, r, displayedL, displayedR))];
    assert t.events[|s.events|..] == ce + re + pe;
    RequestEventsAreRequests(l, r, added);
    assert Cancel(x) in ce + re + pe <==> Cancel(x) in ce;
    CancelEventsOf(s.handles, s.requestL, s.requestR, cancel, Cancel(x));
    assert (exists i :: s.requestL <= i < s.requestR && i in cancel && Cancel(x) == Cancel(s.handles[i])) <==>
           (exists i :: s.requestL <= i < s.requestR && !(l <= i < r) && s.handles[i] == x);
  }

  /** `CancelEvents` holds one cancel per index of `cancel` in `[lo, hi)`, with that row's handle. */
  lemma {:induction false} CancelEventsOf(handles: seq<int>, lo: int, hi: int, cancel: set<int>, e: Event)
    requires 0 <= lo <= hi <= |handles|
    decreases hi - lo
    ensures e in CancelEvents(handles, lo, hi, cancel) <==>
              exists i :: lo <= i < hi && i in cancel && e == Cancel(handles[i])
  {
    if hi > lo {
      CancelEventsOf(handles, lo, hi - 1, cancel, e);
      var prev := CancelEvents(handles, lo, hi - 1, cancel);
      var last := if hi - 1 in cancel then [Cancel(handles[hi - 1])] else [];
      assert CancelEvents(handles, lo, hi, cancel) == prev + last;
      if e in prev {
        var i :| lo <= i < hi - 1 && i in cancel && e == Cancel(handles[i]);
        assert lo <= i < hi;
      } else if e in last {
        assert lo <= hi - 1 < hi && hi - 1 in cancel && e == Cancel(handles[hi - 1]);
      }
      if exists i :: lo <= i < hi && i in cancel && e == Cancel(handles[i]) {
        var i :| lo <= i < hi && i in cancel && e == Cancel(handles[i]);
        if i < hi - 1 {
          assert e in prev;
        } else {
          assert e in last;
        }
      }
    }
  }

  lemma {:induction false} CancelEventsAreCancels(handles: seq<int>, lo: int, hi: int, cancel: set<int>)
    requires 0 <= lo <= hi <= |handles|
    decreases hi - lo
    ensures forall e :: (e in CancelEvents(handles, lo, hi, cancel) ==> e.Cancel?)
  {
    if hi > lo {
      CancelEventsAreCancels(handles, lo, hi - 1, cancel);
    }
  }

  lemma {:induction false} RequestEventsAreAdded(lo: int, hi: int, added: set<int>, i: int)
    requires lo <= hi
    decreases hi - lo
    ensures Request(i) in RequestEvents(lo, hi, added) <==> lo <= i < hi && i in added
  {
    if hi > lo {
      RequestEventsAreAdded(lo, hi - 1, added, i);
    }
  }

  lemma {:induction false} RequestEventsAreRequests(lo: int, hi: int, added: set<int>)
    requires lo <= hi
    decreases hi - lo
    ensures forall e :: (e in RequestEvents(lo, hi, added) ==> e.Request?)
  {
    if hi > lo {
      RequestEventsAreRequests(lo, hi - 1, added);
    }
  }

  lemma WindowEmpty(l: int, r: int)
    requires r <= l
    ensures Window(l, r) == {}
  {
  }

  lemma WindowSnoc(l: int, i: int)
    requires l <= i
    ensures Window(l, i + 1) == Window(l, i) + {i}
  {
    assert InWindow(l, i + 1, i);
  }

  /**
   * The state `Channel_draw` and `reset_channel_info` work on: the handle of every video's
   * thumbnail request (-1 for none), the requested window, the icon and banner handles and the
   * channel record. `load_channel` keeps one handle per video.
   */
  class ChannelThumbnails {
    var handles: seq<int>
    var requestL: int
    var requestR: int
    var iconHandle: int
    var bannerHandle: int
    var info: ChannelDetail
    var events: seq<Event>

    ghost predicate Valid()
      reads this
    {
      0 <= requestL <= requestR <= |handles| && |handles| == |info.videos|
    }

    function State(): (s: RequestState)
      reads this
      ensures s.handles == handles && s.requestL == requestL && s.requestR == requestR && s.events == events
    {
      RequestState(handles, requestL, requestR, events)
    }

    constructor()
      ensures Valid() && handles == [] && requestL == 0 && requestR == 0
      ensures iconHandle == -1 && bannerHandle == -1 && info == NO_CHANNEL_DETAIL && events == []
    {
      handles, requestL, requestR := [], 0, 0;
      iconHandle, bannerHandle := -1, -1;
      info := NO_CHANNEL_DETAIL;
      events := [];
    }

    /** `reset_channel_info`: cancel every outstanding request, then forget the channel. */
    method ResetChannelInfo()
      requires Valid()
      modifies this
      ensures Valid()
      ensures handles == [] && requestL == 0 && requestR == 0
      ensures iconHandle == -1 && bannerHandle == -1 && info == NO_CHANNEL_DETAIL
      ensures events == old(events)
                        + CancelEvents(old(handles), old(requestL), old(requestR), Window(old(requestL), old(requestR)))
                        + (if old(iconHandle) != -1 then [Cancel(old(iconHandle))] else [])
                        + (if old(bannerHandle) != -1 then [Cancel(old(bannerHandle))] else [])
    {
      var h, l, r := handles, requestL, requestR;
      var all := Window(l, r);
      var es := events;
      for i := l to r
        invariant es == old(events) + CancelEvents(h, l, i, all)
      {
        assert InWindow(l, r, i);
        es := es + [Cancel(h[i])];
      }
      handles := [];
      requestL, requestR := 0, 0;
      if iconHandle != -1 {
        es := es + [Cancel(iconHandle)];
        iconHandle := -1;
      }
      if bannerHandle != -1 {
        es := es + [Cancel(bannerHandle)];
        bannerHandle := -1;
      }
      events := es;
      info := NO_CHANNEL_DETAIL;
    }

    /** The thumbnail-request update of `Channel_draw`; `newHandle` stands for the loader's replies. */
    method UpdateRequests(displayedL: int, displayedR: int, newHandle: int -> int)
      requires Valid() && 0 <= displayedL <= displayedR <= |info.videos|
      modifies this
      ensures Valid()
      ensures State() == Transition(old(State()), displayedL, displayedR, newHandle)
      ensures iconHandle == old(iconHandle) && bannerHandle == old(bannerHandle) && info == old(info)
    {
      if |info.videos| == 0 {
        return;
      }
      RequestWindowBounds(displayedL, displayedR, |info.videos|);
      var targetL := Max(0, displayedL - Quot(MAX_THUMBNAIL_LOAD_REQUEST - (displayedR - displayedL), 2));
      var targetR := Min(|info.videos|, targetL + MAX_THUMBNAIL_LOAD_REQUEST);
      var newIndexes, cancellingIndexes := TransitionSets(requestL, requestR, targetL, targetR);
      var h1, cancels := CancelRequests(handles, requestL, requestR, cancellingIndexes);
      var h2, requests := RequestThumbnails(h1, targetL, targetR, newIndexes, newHandle);
      var priorityList := BuildPriorityList(h2, targetL, targetR, displayedL, displayedR);
      handles := h2;
      requestL, requestR := targetL, targetR;
      events := events + cancels + requests + [SetPriorities(priorityList)];
    }
  }

  /** The four loops that build `new_indexes` and `cancelling_indexes`. */
  method TransitionSets(oldL: int, oldR: int, targetL: int, targetR: int)
    returns (newIndexes: set<int>, cancellingIndexes: set<int>)
    ensures cancellingIndexes == Window(oldL, oldR) - Window(targetL, targetR)
    ensures newIndexes == Window(targetL, targetR) - Window(oldL, oldR)
  {
    WindowEmpty(oldL, oldL);
    WindowEmpty(targetL, targetL);
    if oldR < oldL {
      WindowEmpty(oldL, oldR);
    }
    if targetR < targetL {
      WindowEmpty(targetL, targetR);
    }
    newIndexes, cancellingIndexes := {}, {};
    var i := oldL;
    while i < oldR
      invariant oldL <= i && (i <= oldR || i == oldL)
      invariant cancellingIndexes == Window(oldL, i)
      decreases oldR - i
    {
      WindowSnoc(oldL, i);
      cancellingIndexes := cancellingIndexes + {i};
      i := i + 1;
    }
    i := targetL;
    while i < targetR
      invariant targetL <= i && (i <= targetR || i == targetL)
      invariant newIndexes == Window(targetL, i)
      decreases targetR - i
    {
      WindowSnoc(targetL, i);
      newIndexes := newIndexes + {i};
      i := i + 1;
    }
    i := oldL;
    while i < oldR
      invariant oldL <= i && (i <= oldR || i == oldL)
      invariant newIndexes == Window(targetL, targetR) - Window(oldL, i)
      decreases oldR - i
    {
      WindowSnoc(oldL, i);
      newIndexes := newIndexes - {i};
      i := i + 1;
    }
    i := targetL;
    while i < targetR
      invariant targetL <= i && (i <= targetR || i == targetL)
      invariant cancellingIndexes == Window(oldL, oldR) - Window(targetL, i)
      decreases targetR - i
    {
      WindowSnoc(targetL, i);
      cancellingIndexes := cancellingIndexes - {i};
      i := i + 1;
    }
  }

  /** The loop over `cancelling_indexes`: cancel each row's request and clear its handle. */
  method CancelRequests(handles: seq<int>, lo: int, hi: int, cancel: set<int>)
    returns (h: seq<int>, es: seq<Event>)
    requires 0 <= lo <= hi <= |handles|
    requires forall j :: j in cancel ==> lo <= j < hi
    ensures h == Cancelled(handles, cancel)
    ensures es == CancelEvents(handles, lo, hi, cancel)
  {
    h, es := handles, [];
    for i := lo to hi
      invariant |h| == |handles|
      invariant forall j :: 0 <= j < |h| ==> h[j] == if lo <= j < i && j in cancel then -1 else handles[j]
      invariant es == CancelEvents(handles, lo, i, cancel)
    {
      if i in cancel {
        es := es + [Cancel(h[i])];
        h := h[i := -1];
      }
    }
  }

  /** The loop over `new_indexes`: request each row's thumbnail and keep the handle. */
  method RequestThumbnails(handles: seq<int>, lo: int, hi: int, added: set<int>, newHandle: int -> int)
    returns (h: seq<int>, es: seq<Event>)
    requires 0 <= lo <= hi <= |handles|
    requires forall j :: j in added ==> lo <= j < hi
    ensures h == Requested(handles, added, newHandle)
    ensures es == RequestEvents(lo, hi, added)
  {
    h, es := handles, [];
    for i := lo to hi
      invariant |h| == |handles|
      invariant forall j :: 0 <= j < |h| ==> h[j] == if lo <= j < i && j in added then newHandle(j) else handles[j]
      invariant es == RequestEvents(lo, i, added)
    {
      if i in added {
        es := es + [Request(i)];
        h := h[i := newHandle(i)];
      }
    }
  }

  /** The loop filling `priority_list`. */
  method BuildPriorityList(handles: seq<int>, l: int, r: int, displayedL: int, displayedR: int)
    returns (list: seq<(int, int)>)
    requires 0 <= l <= r <= |handles|
    ensures list == PriorityList(handles, l, r, displayedL, displayedR)
  {
    list := [];
    for i := l to r
      invariant |list| == i - l
      invariant forall k :: 0 <= k < i - l ==> list[k] == (handles[l + k], Priority(l + k, displayedL, displayedR))
    {
      list := list + [(handles[i], Priority(i, displayedL, displayedR))];
    }
  }
}
