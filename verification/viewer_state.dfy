/**
 * The viewer's module-level state as a value, and each event handler of the
 * script as a transition on it. The class in viewer.dfy updates its fields in
 * place and is proved to follow these transitions; the properties of the
 * viewer are proved here, once, about the transitions.
 */
module ViewerState {
  import opened Wrappers
  import opened Fragment
  import opened Rotation

  /**
   * `pageNum`, `rotation`, the in-flight flag `pageRendering`, the one-slot
   * `pageNumPending`, `location.hash`, the page-number label, and the pages
   * whose render was started, oldest first.
   */
  datatype State = State(
    pageNum: int,
    rotation: int,
    pageRendering: bool,
    pageNumPending: Option<int>,
    hash: string,
    pageLabel: string,
    started: seq<int>)

  function Last(s: seq<int>): int
    requires |s| > 0
  {
    s[|s| - 1]
  }

  /** The state once a document is loaded and before anything was rendered. */
  function Initial(pageNum: int, hash: string, pageLabel: string): State {
    State(pageNum, 0, false, None, hash, pageLabel, [])
  }

  /**
   * What every reachable state keeps: a page waits only while a render is in
   * flight, a render in flight was started, the label shows the page started
   * last, and rotation is a quarter turn.
   */
  predicate Inv(s: State) {
    && (s.pageNumPending.Some? ==> s.pageRendering)
    && (s.pageRendering ==> s.started != [])
    && (s.started != [] ==> s.pageLabel == IntToString(Last(s.started)))
    && IsQuarterTurn(s.rotation)
  }

  /** The current page lies within the document. */
  predicate InRange(s: State, numPages: int) {
    1 <= s.pageNum <= numPages
  }

  /** The synchronous part of `renderPage(num)`: set the flag, ask for the page, show its number. */
  function RenderPage(s: State, num: int): State {
    s.(pageRendering := true, started := s.started + [num], pageLabel := IntToString(num))
  }

  /** `queueRenderPage(num)`: wait in the single slot if busy, otherwise render now. */
  function QueueRenderPage(s: State, num: int): State {
    if s.pageRendering then s.(pageNumPending := Some(num)) else RenderPage(s, num)
  }

  /** The render task's completion callback: go idle, then start the waiting page if any. */
  function RenderComplete(s: State): State {
    var idle := s.(pageRendering := false);
    match idle.pageNumPending
    case None => idle
    case Some(p) => RenderPage(idle, p).(pageNumPending := None)
  }

  /**
   * The completion callback runs only for a render in flight whose page the
   * document has: for any other page pdf.js rejects `getPage` and the
   * callback is never attached.
   */
  predicate CompletionEnabled(s: State, numPages: int) {
    s.pageRendering && s.started != [] && 1 <= Last(s.started) <= numPages
  }

  /** `updateHash(n)`. */
  function UpdateHash(s: State, n: int): State {
    s.(hash := HashFor(n))
  }

  /** `onPrevPage`. */
  function PrevPage(s: State): State {
    if s.pageNum <= 1 then s
    else
      var moved := s.(pageNum := s.pageNum - 1);
      UpdateHash(QueueRenderPage(moved, moved.pageNum), moved.pageNum)
  }

  /** `onNextPage` on a document of `numPages` pages. */
  function NextPage(s: State, numPages: int): State {
    if s.pageNum >= numPages then s
    else
      var moved := s.(pageNum := s.pageNum + 1);
      UpdateHash(QueueRenderPage(moved, moved.pageNum), moved.pageNum)
  }

  /** `onHashChange`. */
  function HashChange(s: State): State {
    var newPageNum := HashPage(s.hash);
    if newPageNum != s.pageNum then
      QueueRenderPage(s.(pageNum := newPageNum), newPageNum)
    else s
  }

  /** `onRotateLeft`. */
  function RotateLeft(s: State): State {
    QueueRenderPage(s.(rotation := RotateLeftDeg(s.rotation)), s.pageNum)
  }

  /** `onRotateRight`. */
  function RotateRight(s: State): State {
    QueueRenderPage(s.(rotation := RotateRightDeg(s.rotation)), s.pageNum)
  }

  /**
   * What can happen to a loaded viewer: a direct render request, the
   * completion callback, the user's buttons, the browser changing the
   * fragment, and the `hashchange` event that follows.
   */
  datatype Event =
    | Request(num: int)
    | Complete
    | Prev
    | Next
    | RotLeft
    | RotRight
    | FragmentSet(h: string)
    | HashChanged

  predicate Enabled(s: State, e: Event, numPages: int) {
    e.Complete? ==> CompletionEnabled(s, numPages)
  }

  function Step(s: State, e: Event, numPages: int): State {
    match e
    case Request(num) => QueueRenderPage(s, num)
    case Complete => RenderComplete(s)
    case Prev => PrevPage(s)
    case Next => NextPage(s, numPages)
    case RotLeft => RotateLeft(s)
    case RotRight => RotateRight(s)
    case FragmentSet(h) => s.(hash := h)
    case HashChanged => HashChange(s)
  }

  /** Every event of `es` is enabled in the state it reaches. */
  predicate Allowed(s: State, es: seq<Event>, numPages: int)
    decreases |es|
  {
    es == [] || (Enabled(s, es[0], numPages) && Allowed(Step(s, es[0], numPages), es[1..], numPages))
  }

  function Run(s: State, es: seq<Event>, numPages: int): State
    decreases |es|
  {
    if es == [] then s else Run(Step(s, es[0], numPages), es[1..], numPages)
  }

  /** Render requests arriving one after another, as from repeated clicks. */
  function QueueAll(s: State, nums: seq<int>): State
    decreases |nums|
  {
    if nums == [] then s else QueueAll(QueueRenderPage(s, nums[0]), nums[1..])
  }

  // ---------------------------------------------------------------------
  // Render-request coalescing
  // ---------------------------------------------------------------------

  /** Idle: the requested page is started at once and the flag is set; nothing waits. */
  lemma QueueWhileIdle(s: State, num: int)
    requires !s.pageRendering
    ensures QueueRenderPage(s, num).started == s.started + [num]
    ensures QueueRenderPage(s, num).pageRendering
    ensures QueueRenderPage(s, num).pageNumPending == s.pageNumPending
    ensures QueueRenderPage(s, num).pageLabel == IntToString(num)
    ensures QueueRenderPage(s, num).pageNum == s.pageNum
    ensures QueueRenderPage(s, num).rotation == s.rotation
    ensures QueueRenderPage(s, num).hash == s.hash
  {
  }

  /** Busy: nothing is started; the slot holds `num`, whatever it held before. */
  lemma QueueWhileBusy(s: State, num: int)
    requires s.pageRendering
    ensures QueueRenderPage(s, num) == s.(pageNumPending := Some(num))
  {
  }

  /** Completion with a waiting page starts exactly that page and empties the slot. */
  lemma CompleteWithPending(s: State, p: int)
    requires s.pageRendering && s.pageNumPending == Some(p)
    ensures RenderComplete(s).started == s.started + [p]
    ensures RenderComplete(s).pageRendering
    ensures RenderComplete(s).pageNumPending.None?
    ensures RenderComplete(s).pageLabel == IntToString(p)
    ensures RenderComplete(s).pageNum == s.pageNum
    ensures RenderComplete(s).rotation == s.rotation
    ensures RenderComplete(s).hash == s.hash
  {
  }

  /** Completion with an empty slot leaves the viewer idle and starts nothing. */
  lemma CompleteWithoutPending(s: State)
    requires s.pageNumPending.None?
    ensures RenderComplete(s) == s.(pageRendering := false)
  {
  }

  /**
   * A burst of requests during a render is coalesced: once it completes,
   * exactly one render follows, of the page requested last.
   */
  lemma {:induction false} BurstCoalesces(s: State, nums: seq<int>)
    requires s.pageRendering && nums != []
    ensures QueueAll(s, nums) == s.(pageNumPending := Some(nums[|nums| - 1]))
    ensures RenderComplete(QueueAll(s, nums)).started == s.started + [nums[|nums| - 1]]
    ensures RenderComplete(QueueAll(s, nums)).pageNumPending.None?
    decreases |nums|
  {
    var next := QueueRenderPage(s, nums[0]);
    if |nums| > 1 {
      BurstCoalesces(next, nums[1..]);
      assert nums[1..][|nums[1..]| - 1] == nums[|nums| - 1];
      assert next.(pageNumPending := Some(nums[|nums| - 1])) == s.(pageNumPending := Some(nums[|nums| - 1]));
    } else {
      assert QueueAll(next, nums[1..]) == next;
    }
  }

  // ---------------------------------------------------------------------
  // The invariant and the single render in flight
  // ---------------------------------------------------------------------

  /** Every event keeps the invariant. */
  lemma StepKeepsInv(s: State, e: Event, numPages: int)
    requires Inv(s)
    ensures Inv(Step(s, e, numPages))
  {
    match e
    case RotLeft => QuarterTurnsClosed(s.rotation);
    case RotRight => QuarterTurnsClosed(s.rotation);
    case _ =>
  }

  /** Every allowed run from a state satisfying the invariant keeps it. */
  lemma {:induction false} RunKeepsInv(s: State, es: seq<Event>, numPages: int)
    requires Inv(s)
    ensures Inv(Run(s, es, numPages))
    decreases |es|
  {
    if es != [] {
      StepKeepsInv(s, es[0], numPages);
      RunKeepsInv(Step(s, es[0], numPages), es[1..], numPages);
    }
  }

  /**
   * No event but completion starts a render while one is in flight, and none
   * of them clears the flag. Completion clears the flag before it starts the
   * waiting page, and starts at most that one page.
   */
  lemma NoSecondRenderInFlight(s: State, e: Event, numPages: int)
    requires s.pageRendering
    ensures !e.Complete? ==> Step(s, e, numPages).started == s.started
    ensures !e.Complete? ==> Step(s, e, numPages).pageRendering
    ensures e.Complete? ==> |Step(s, e, numPages).started| <= |s.started| + 1
  {
  }

  /**
   * Without a completion the flag stays set and nothing more is rendered,
   * whatever the user does meanwhile.
   */
  lemma {:induction false} BusyUntilCompletion(s: State, es: seq<Event>, numPages: int)
    requires s.pageRendering
    requires forall i :: 0 <= i < |es| ==> !es[i].Complete?
    ensures Run(s, es, numPages).pageRendering
    ensures Run(s, es, numPages).started == s.started
    decreases |es|
  {
    if es != [] {
      NoSecondRenderInFlight(s, es[0], numPages);
      BusyUntilCompletion(Step(s, es[0], numPages), es[1..], numPages);
    }
  }

  /**
   * A render of a page the document lacks never completes, so no allowed
   * run clears the flag or renders anything else afterwards.
   */
  lemma {:induction false} BadPageBlocksRendering(s: State, es: seq<Event>, numPages: int)
    requires s.pageRendering && s.started != []
    requires !(1 <= Last(s.started) <= numPages)
    requires Allowed(s, es, numPages)
    ensures Run(s, es, numPages).pageRendering
    ensures Run(s, es, numPages).started == s.started
    decreases |es|
  {
    if es != [] {
      assert !es[0].Complete?;
      NoSecondRenderInFlight(s, es[0], numPages);
      BadPageBlocksRendering(Step(s, es[0], numPages), es[1..], numPages);
    }
  }

  // ---------------------------------------------------------------------
  // Navigation
  // ---------------------------------------------------------------------

  /** At the first page (or before it) `onPrevPage` changes nothing. */
  lemma PrevAtFirstPage(s: State)
    requires s.pageNum <= 1
    ensures PrevPage(s) == s
  {
  }

  /** Otherwise it moves back one page, requests it and writes its fragment. */
  lemma PrevMovesBack(s: State)
    requires s.pageNum > 1
    ensures PrevPage(s).pageNum == s.pageNum - 1
    ensures PrevPage(s).hash == HashFor(s.pageNum - 1)
    ensures PrevPage(s) == QueueRenderPage(s.(pageNum := s.pageNum - 1), s.pageNum - 1).(hash := HashFor(s.pageNum - 1))
  {
  }

  /** At the last page (or past it) `onNextPage` changes nothing. */
  lemma NextAtLastPage(s: State, numPages: int)
    requires s.pageNum >= numPages
    ensures NextPage(s, numPages) == s
  {
  }

  /** Otherwise it moves on one page, requests it and writes its fragment. */
  lemma NextMovesOn(s: State, numPages: int)
    requires s.pageNum < numPages
    ensures NextPage(s, numPages).pageNum == s.pageNum + 1
    ensures NextPage(s, numPages).hash == HashFor(s.pageNum + 1)
    ensures NextPage(s, numPages) == QueueRenderPage(s.(pageNum := s.pageNum + 1), s.pageNum + 1).(hash := HashFor(s.pageNum + 1))
  {
  }

  /** Navigation, rotation and rendering never take the page out of the document. */
  lemma StepKeepsRange(s: State, e: Event, numPages: int)
    requires InRange(s, numPages)
    requires !e.HashChanged?
    ensures InRange(Step(s, e, numPages), numPages)
  {
  }

  // ---------------------------------------------------------------------
  // Rotation
  // ---------------------------------------------------------------------

  /** Each rotation turns by a quarter and asks for the current page again. */
  lemma RotationRequeues(s: State)
    requires Inv(s)
    ensures RotateLeft(s).rotation == RotateLeftDeg(s.rotation)
    ensures RotateRight(s).rotation == RotateRightDeg(s.rotation)
    ensures IsQuarterTurn(RotateLeft(s).rotation) && IsQuarterTurn(RotateRight(s).rotation)
    ensures !s.pageRendering ==> RotateLeft(s).started == s.started + [s.pageNum]
    ensures !s.pageRendering ==> RotateRight(s).started == s.started + [s.pageNum]
    ensures s.pageRendering ==> RotateLeft(s).pageNumPending == Some(s.pageNum)
    ensures s.pageRendering ==> RotateRight(s).pageNumPending == Some(s.pageNum)
    ensures RotateLeft(s).pageNum == s.pageNum && RotateRight(s).pageNum == s.pageNum
  {
    QuarterTurnsClosed(s.rotation);
  }

  /** Left then right (or right then left) gives back the original rotation. */
  lemma RotationsUndo(s: State)
    requires Inv(s)
    ensures RotateRight(RotateLeft(s)).rotation == s.rotation
    ensures RotateLeft(RotateRight(s)).rotation == s.rotation
  {
    LeftThenRightCancels(s.rotation);
    RightThenLeftCancels(s.rotation);
  }

  // ---------------------------------------------------------------------
  // Fragment sync
  // ---------------------------------------------------------------------

  /**
   * A fragment naming no page, or page 0, after its first `=` sends the
   * viewer to page 1, whatever follows a second `=`.
   */
  lemma HashWithoutPageGoesToFirst(s: State, pre: string, rest: string)
    requires '=' !in pre
    requires ParseInt(UpToEquals(rest)).None? || ParseInt(UpToEquals(rest)) == Some(0)
    ensures HashChange(s.(hash := pre + "=" + rest)).pageNum == 1
  {
    SecondFieldAfterFirstEquals(pre, rest);
  }

  /** A fragment naming the current page changes nothing. */
  lemma HashOfCurrentPageIsNoOp(s: State)
    requires HashPage(s.hash) == s.pageNum
    ensures HashChange(s) == s
  {
  }

  /** A fragment naming another page `n` moves there and requests it, unclamped. */
  lemma HashNamesPage(s: State, n: int)
    requires n != 0 && n != s.pageNum
    ensures HashChange(s.(hash := HashFor(n))).pageNum == n
    ensures !s.pageRendering ==> HashChange(s.(hash := HashFor(n))).started == s.started + [n]
    ensures s.pageRendering ==> HashChange(s.(hash := HashFor(n))).pageNumPending == Some(n)
  {
    HashPageOfHashFor(n);
  }

  /**
   * The `hashchange` that follows a move made by the buttons is a no-op: the
   * fragment they wrote reads back as the page they moved to.
   */
  lemma PrevHashIsStable(s: State)
    requires s.pageNum > 1
    ensures HashChange(PrevPage(s)) == PrevPage(s)
  {
    var t := PrevPage(s);
    HashPageOfHashFor(s.pageNum - 1);
    assert t.hash == HashFor(s.pageNum - 1) && t.pageNum == s.pageNum - 1;
  }

  /** The same for `onNextPage`, for every move except the one onto page 0. */
  lemma NextHashIsStable(s: State, numPages: int)
    requires s.pageNum < numPages && s.pageNum != -1
    ensures HashChange(NextPage(s, numPages)) == NextPage(s, numPages)
  {
    var t := NextPage(s, numPages);
    HashPageOfHashFor(s.pageNum + 1);
    assert t.hash == HashFor(s.pageNum + 1) && t.pageNum == s.pageNum + 1;
  }

  /**
   * The fragment is not clamped to the document: one naming the page past the
   * end moves there, and if the viewer was idle it starts a render that can
   * never complete.
   */
  lemma HashPastLastPage(s: State, numPages: int)
    requires InRange(s, numPages) && !s.pageRendering
    ensures !InRange(HashChange(s.(hash := HashFor(numPages + 1))), numPages)
    ensures HashChange(s.(hash := HashFor(numPages + 1))).pageRendering
    ensures !CompletionEnabled(HashChange(s.(hash := HashFor(numPages + 1))), numPages)
  {
    HashPageOfHashFor(numPages + 1);
  }

  /**
   * Once the page has been taken to 0 or below by a fragment, `onNextPage`
   * from page -1 writes `page=0`, which reads back as page 1: the following
   * `hashchange` moves the viewer again.
   */
  lemma NextToPageZeroIsNotStable(s: State, numPages: int)
    requires s.pageNum == -1 && numPages >= 1
    ensures NextPage(s, numPages).pageNum == 0
    ensures HashChange(NextPage(s, numPages)).pageNum == 1
  {
    HashPageOfHashFor(0);
  }
}
