# viewer-pdf: the page viewer's state machine in Dafny

`script.js` drives a single-page PDF viewer: buttons move between pages and
rotate the page, the location fragment `#page=N` is kept in step with the
current page, and every change asks pdf.js to render a page. Under the DOM
and pdf.js calls sits a small state machine over module-level variables:
`pageNum`, `rotation`, the in-flight flag `pageRendering`, the one-slot
`pageNumPending`, `window.location.hash` and the page-number label. This
project models that state machine and proves what it promises.

Files:

- `wrappers.dfy`: `Option`, standing for JavaScript's `null` slot and for
  `NaN`.
- `fragment.dfy` (module `Fragment`): `String(n)`, `split('=')[1]`, the decimal
  part of `parseInt`, and the page that `onHashChange` reads from a fragment.
  It also proves that the fragment written for page `n` reads back as `n`.
- `rotation.dfy` (module `Rotation`): JavaScript's truncating `%` by 360
  (`JsRem360`), related to Dafny's Euclidean `%`, and both rotation updates.
- `viewer_state.dfy` (module `ViewerState`): the variables as a value
  (`State`), plus a ghost record of the pages whose render was started. Each
  handler is a transition, and the events of a session are `Event`/`Run`. The
  invariant and all the viewer's properties are proved here.
- `viewer.dfy` (module `Controller`): class `Viewer` holds the same variables
  as fields. Its methods update them statement by statement, as the handlers
  do. Each method is proved to perform its transition (the one of the same
  name, or a plain update of the fragment for `SetFragment`), and each event
  handler (`QueueRenderPage`, `OnRenderComplete`, `OnPrevPage`, `OnNextPage`,
  `OnHashChange`, `OnRotateLeft`, `OnRotateRight`) to keep `Valid()`. Three verified client methods state how short sessions
  end.

How the model reads the script:

- The completion of a render (`renderTask.promise.then`) is the method
  `OnRenderComplete`. pdf.js rejects `getPage` for a page the document does
  not have, and then no completion is ever attached. So completion is enabled
  only while a render is in flight and only when that render's page is
  between 1 and `numPages` (`CompletionEnabled`).
- `location.hash` is modelled as the browser reads it back. Assigning
  `page=N` reads back as `#page=N` (`HashFor`). The browser changing the
  fragment is the method `SetFragment`, and the `hashchange` event is
  `OnHashChange`.
- The handlers require a loaded document (`IsPdfLoaded`); what they do
  before one is loaded is left out (see below).
- The module-level variables are declared outside `script.js`. The
  constructor starts from `rotation = 0`, no render in flight, an empty slot
  and `1 <= pageNum <= numPages`.

The fragment is not clamped to the document:

- script.js:156 maps only `NaN` and 0 to page 1, so a fragment naming a page
  past the end, or a negative page, becomes `pageNum` as it is.
- That render's completion never comes, so `pageRendering` stays set. After
  that, every request only overwrites the pending slot and nothing is
  rendered again. `HashPastLastPage` and `BadPageBlocksRendering` state this,
  and the client `OutOfRangeFragmentScenario` shows it on a 5-page document.
- From such a page, `onNextPage` can write `page=0`, which reads back as page
  1 (`NextToPageZeroIsNotStable`).

## Model

| member | source | states |
|---|---|---|
| `Controller.Viewer.IsPdfLoaded` | script.js:5-7 | a document is loaded exactly when the loader produced one; every handler requires it |
| `Controller.Viewer.QueueRenderPage` | script.js:14-20 | the fields change exactly as `ViewerState.QueueRenderPage`; the invariant is kept |
| `Controller.Viewer.RenderPage` | script.js:38-99 | sets the in-flight flag, records the page as started and shows its number in the label (lines 39, 40, 98); nothing else changes |
| `Controller.Viewer.OnRenderComplete` | script.js:76-82 | callable only for an in-flight render of an existing page; fields change exactly as `ViewerState.RenderComplete`; invariant kept |
| `Controller.Viewer.UpdateHash` | script.js:131-133 | only the fragment changes, to `#page=` followed by the number |
| `Controller.Viewer.OnPrevPage` | script.js:105-112 | fields change exactly as `ViewerState.PrevPage`; invariant kept |
| `Controller.Viewer.OnNextPage` | script.js:118-125 | fields change exactly as `ViewerState.NextPage` with the document's page count; invariant kept |
| `Controller.Viewer.OnHashChange` | script.js:155-161 | fields change exactly as `ViewerState.HashChange`; invariant kept |
| `Controller.Viewer.OnRotateLeft` | script.js:166-170 | fields change exactly as `ViewerState.RotateLeft`; invariant (quarter-turn rotation) kept |
| `Controller.Viewer.OnRotateRight` | script.js:175-178 | fields change exactly as `ViewerState.RotateRight`; invariant kept |
| `Fragment.NatToString` | script.js:131-133 | the decimal text of `n`: at least one digit, all digits, no leading zero unless it is the single digit `0`, and its digits denote `n` |
| `Fragment.IntToString` | script.js:131-133 | non-empty, starts with `-` exactly for negative numbers, never contains `=` |
| `Fragment.DigitPrefix` | script.js:156 | the longest prefix of digits: a prefix, all digits, followed by a non-digit or the end |
| `Fragment.ParseInt` | script.js:156 | `NaN` exactly when no digit follows the optional sign; a negative result only after `-`; the value read is given by `ParseIntOfDigits`, `ParseIntOfPlusDigits` and `ParseIntOfMinusDigits` |
| `Fragment.ParseIntOfIntToString` | script.js:156 | `parseInt(String(i))` is `i` for every integer |
| `Fragment.FirstIndexOf` | script.js:156 | the index of the first `=`, or the length when there is none |
| `Fragment.UpToEquals` | script.js:156 | the prefix up to the first `=`: it holds no `=` and is followed by `=` or the end |
| `Fragment.SecondField` | script.js:156 | `split('=')[1]` is undefined exactly when there is no `=`, and the field holds no `=`; which text it is, is given by `SecondFieldAfterFirstEquals` |
| `Fragment.SecondFieldOf` | script.js:156 | `pre=v`, with no other `=`, splits to exactly `v` |
| `Fragment.HashPage` | script.js:156 | the page read from any fragment is never 0, since `NaN` and 0 fall back to 1; the page itself is given by `HashPageReadsNumber`, `HashPageReadsSignedNumber`, `HashWithoutNumberIsPageOne` and `HashWithoutEqualsIsPageOne` |
| `Fragment.HashPageOfHashFor` | script.js:156 | the fragment written for page `n` reads back as `n`, except that 0 reads back as 1 |
| `Fragment.HashWithoutEqualsIsPageOne` | script.js:156 | a fragment with no `=` selects page 1 |
| `Fragment.SecondFieldAfterFirstEquals` | script.js:156 | `split('=')[1]` of any fragment with an `=` is the text after the first `=` up to the next `=` or the end (`#page=3=4` gives `3`) |
| `Fragment.ParseIntOfDigits` | script.js:156 | `parseInt` of a run of digits followed by a non-digit or the end is that run's value, leading zeros and trailing text included (`03x` gives 3) |
| `Fragment.ParseIntOfPlusDigits` | script.js:156 | the same after a `+` sign |
| `Fragment.ParseIntOfMinusDigits` | script.js:156 | after a `-` sign the value read is negated |
| `Fragment.DigitPrefixOfDigits` | script.js:156 | the digit run `parseInt` reads from `d` followed by a non-digit or the end is exactly `d` |
| `Fragment.UpToEqualsKeepsPrefix` | script.js:156 | cutting at the first `=` keeps a leading part that holds no `=` |
| `Fragment.HashPageReadsNumber` | script.js:156 | a fragment whose field after the first `=` starts with a non-zero number selects that page, whatever follows (`#page=03`, `#page=3=4`, `#page=3&x`) |
| `Fragment.HashPageReadsSignedNumber` | script.js:156 | the same after a `+` or `-` sign: `#page=+3` selects page 3 and `#page=-3x` page -3, with no clamp |
| `Fragment.HashWithoutNumberIsPageOne` | script.js:156 | a fragment whose field after the first `=`, cut at the next `=`, holds no digit after its optional sign selects page 1 (`#page==3`, `#page=x=2`) |
| `Rotation.JsRem360` | script.js:167 | JavaScript's remainder by 360: magnitude below 360, sign of the dividend, equal to Dafny's `%` for non-negative dividends, and 360 less than it for negative dividends not divisible by 360 |
| `Rotation.RotateLeftDeg` | script.js:167-168 | always in [0, 360), and equal to Euclidean `(rotation - 90) % 360` for every input |
| `Rotation.RotateRightDeg` | script.js:176 | magnitude below 360, equal to Euclidean `(rotation + 90) % 360` from -90 up |
| `Rotation.LeftFixUpIsNeeded` | script.js:167-168 | without the fix-up, rotating left from 0 would give -90; with it, 270 |
| `Rotation.RotationsStayNormalised` | script.js:166-178 | from [0, 360) both rotations stay in [0, 360) |
| `Rotation.QuarterTurnsClosed` | script.js:166-178 | from 0, 90, 180 or 270 both rotations give one of these |
| `Rotation.RightStep` | script.js:175-176 | from [0, 360), a right rotation adds 90 and wraps 270 to 0 |
| `Rotation.LeftStep` | script.js:166-168 | from [0, 360), a left rotation subtracts 90 and wraps 0 to 270 |
| `Rotation.LeftThenRightCancels` | script.js:166-178 | from [0, 360), a left rotation followed by a right one restores the angle |
| `Rotation.RightThenLeftCancels` | script.js:166-178 | from [0, 360), a right rotation followed by a left one restores the angle |
| `Rotation.FourRightTurnsAreIdentity` | script.js:175-178 | four right rotations restore the angle |
| `Rotation.FourLeftTurnsAreIdentity` | script.js:166-170 | four left rotations restore the angle |
| `ViewerState.QueueWhileIdle` | script.js:14-20 | while idle, a request starts a render of exactly that page, sets the flag and shows its number; page, rotation, fragment and slot are unchanged |
| `ViewerState.QueueWhileBusy` | script.js:15-16 | while busy, a request starts nothing; the slot holds the new page, whatever it held before, and nothing else changes |
| `ViewerState.CompleteWithPending` | script.js:76-82 | completion with a waiting page starts exactly that page, the flag is set again, and the slot becomes empty; page, rotation and fragment stay as they were |
| `ViewerState.CompleteWithoutPending` | script.js:76-82 | completion with an empty slot only clears the flag |
| `ViewerState.BurstCoalesces` | script.js:14-20 | any number of requests during a render leave only the last in the slot; the completion then starts exactly that one page |
| `ViewerState.StepKeepsInv` | script.js:14-82 | every event keeps the invariant: the slot is filled only while a render is in flight, a render in flight was started, the label shows the last started page, and rotation is a quarter turn |
| `ViewerState.RunKeepsInv` | script.js:14-82 | every session of events keeps the invariant |
| `ViewerState.NoSecondRenderInFlight` | script.js:14-82 | while a render is in flight, no event but completion starts a render or clears the flag; completion starts at most one |
| `ViewerState.BusyUntilCompletion` | script.js:76-82 | without a completion, the flag stays set and nothing more is rendered |
| `ViewerState.BadPageBlocksRendering` | script.js:38-82 | if the in-flight page is not in the document, no session clears the flag or renders anything more |
| `ViewerState.PrevAtFirstPage` | script.js:105-108 | at page 1 or below, `onPrevPage` changes nothing: no render, no fragment |
| `ViewerState.PrevMovesBack` | script.js:105-112 | otherwise the page goes down by exactly 1; that page is requested, and the fragment names it |
| `ViewerState.NextAtLastPage` | script.js:118-121 | at the last page or beyond, `onNextPage` changes nothing |
| `ViewerState.NextMovesOn` | script.js:118-125 | otherwise the page goes up by exactly 1; that page is requested, and the fragment names it |
| `ViewerState.StepKeepsRange` | script.js:105-125 | every event except `hashchange` keeps `1 <= pageNum <= numPages` |
| `ViewerState.RotationRequeues` | script.js:166-178 | each rotation turns by a quarter, stays a quarter turn, keeps the page, and requests the current page again |
| `ViewerState.RotationsUndo` | script.js:166-178 | rotating left then right, or right then left, restores the viewer's rotation |
| `ViewerState.HashWithoutPageGoesToFirst` | script.js:155-161 | a fragment with no number after its first `=` (cut at the next `=`), or one naming 0, sends the viewer to page 1 |
| `ViewerState.HashOfCurrentPageIsNoOp` | script.js:155-161 | a fragment naming the current page changes nothing |
| `ViewerState.HashNamesPage` | script.js:155-161 | a fragment naming another non-zero page moves there and requests it, with no clamp |
| `ViewerState.PrevHashIsStable` | script.js:105-112 | the `hashchange` after a backward move is a no-op, so a move renders once |
| `ViewerState.NextHashIsStable` | script.js:118-125 | the `hashchange` after a forward move is a no-op, except for a move onto page 0 |
| `ViewerState.HashPastLastPage` | script.js:155-161 | a fragment naming the page past the end takes the page out of range and starts a render that cannot complete |
| `ViewerState.NextToPageZeroIsNotStable` | script.js:118-133 | from page -1, `onNextPage` writes `page=0`, and the following `hashchange` moves to page 1 |

## Left out

- `getScaleForContainer`, the 2.5 render-scale factor, the one-time scale
  division at the first render and `onWheelZoom` (script.js:27-32, 41-47,
  139-150) are left out. They are floating-point arithmetic, and zooming in
  and out again restores the scale only within a tolerance.
- DOM work is left out: creating the page and text-layer elements, removing
  the old children, canvas sizing and style transforms. Only the page-number
  label (line 98) is modelled.
- The pdf.js calls (`getPage`, `getViewport`, `render`, `getTextContent`,
  `renderTextLayer`) are opaque. A render's start is recorded in the ghost
  `started` sequence. Its completion is the explicit `OnRenderComplete`.
- Promise scheduling and concurrency are not modelled. A request and a
  completion are separate atomic methods, in any order the event loop allows.
- `parseInt` is modelled only on decimal text with an optional sign. Leading
  whitespace, `0x` prefixes, radix handling and the loss of precision above
  2^53 are left out. Integers are unbounded.
- Loading the document and declaring the module-level variables happen
  outside `script.js`. They appear only as the constructor's starting state.
  A failed load gives a viewer with no document.
- The handlers are not modelled before a document is loaded; all of them
  require `IsPdfLoaded`. Called then, the script behaves as follows:
  - `onPrevPage` at page 1 or below returns before touching `pdfDoc`
    (script.js:106-108), and so does `onHashChange` when the fragment names
    the current page (script.js:157).
  - `onNextPage` throws a `TypeError` at `pdfDoc.numPages` (script.js:119)
    before changing anything.
  - Every other call reaches `renderPage` when idle: it sets
    `pageRendering` (script.js:39) and then throws at `pdfDoc.getPage`
    (script.js:40), so the flag stays set. By then `onPrevPage` and
    `onHashChange` have already changed `pageNum`, and `onRotateLeft` and
    `onRotateRight` have already changed `rotation` (script.js:167, 176).
    A call that arrives while the flag is set makes the same changes to
    `pageNum`, `rotation` and the fragment, but its `queueRenderPage` only
    fills the pending slot, so it throws nothing.
- A `hashchange` event fires only when the fragment actually changes. The
  model lets `OnHashChange` be called at any time, which covers every case
  the browser produces.
