/**
 * The viewer controller: the script's module-level variables as the fields of
 * one object, and its event handlers as methods that update them in place,
 * statement by statement. Each method is proved to perform its transition in
 * ViewerState (the one of the same name, or a plain update of the fragment for
 * `SetFragment`), where the viewer's properties are proved; each event handler
 * also keeps `Valid()`.
 */
module Controller {
  import opened Wrappers
  import opened Fragment
  import opened Rotation
  import ViewerState

  /** The loaded document as far as the viewer uses it: its page count. */
  datatype Document = Document(numPages: int)

  class Viewer {
    /** `pdfDoc`: set once by the loader, `None` when loading failed. */
    const pdfDoc: Option<Document>
    var pageNum: int
    var rotation: int
    var pageRendering: bool
    var pageNumPending: Option<int>
    /** `window.location.hash`, as the browser reads it back. */
    var hash: string
    /** The text of the page-number element. */
    var pageLabel: string
    /** The pages whose render was started, oldest first. */
    ghost var started: seq<int>

    ghost function Model(): ViewerState.State
      reads this
    {
      ViewerState.State(pageNum, rotation, pageRendering, pageNumPending, hash, pageLabel, started)
    }

    ghost predicate Valid()
      reads this
    {
      && ViewerState.Inv(Model())
      && (pdfDoc.Some? ==> pdfDoc.value.numPages >= 1)
    }

    /** `isPdfLoaded()`: the loader produced a document. */
    predicate IsPdfLoaded()
      ensures IsPdfLoaded() <==> pdfDoc != None
    {
      pdfDoc.Some?
    }

    /** The viewer just after loading, before its first render. */
    constructor (pdfDoc: Option<Document>, pageNum: int, hash: string, pageLabel: string)
      requires pdfDoc.Some? ==> 1 <= pageNum <= pdfDoc.value.numPages
      ensures this.pdfDoc == pdfDoc
      ensures Valid()
      ensures Model() == ViewerState.Initial(pageNum, hash, pageLabel)
    {
      this.pdfDoc := pdfDoc;
      this.pageNum := pageNum;
      rotation := 0;
      pageRendering := false;
      pageNumPending := None;
      this.hash := hash;
      this.pageLabel := pageLabel;
      started := [];
    }

    /** The synchronous part of `renderPage(num)`. */
    method RenderPage(num: int)
      requires IsPdfLoaded()
      modifies this
      ensures Model() == ViewerState.RenderPage(old(Model()), num)
    {
      pageRendering := true;
      started := started + [num];
      pageLabel := IntToString(num);
    }

    /** `queueRenderPage(num)`. */
    method QueueRenderPage(num: int)
      requires Valid() && IsPdfLoaded()
      modifies this
      ensures Valid()
      ensures Model() == ViewerState.QueueRenderPage(old(Model()), num)
    {
      if pageRendering {
        pageNumPending := Some(num);
      } else {
        RenderPage(num);
      }
    }

    /** The render task's completion callback. */
    method OnRenderComplete()
      requires Valid() && IsPdfLoaded()
      requires ViewerState.CompletionEnabled(Model(), pdfDoc.value.numPages)
      modifies this
      ensures Valid()
      ensures Model() == ViewerState.RenderComplete(old(Model()))
    {
      pageRendering := false;
      if pageNumPending != None {
        RenderPage(pageNumPending.value);
        pageNumPending := None;
      }
    }

    /** `updateHash(n)`. */
    method UpdateHash(n: int)
      modifies this
      ensures Model() == ViewerState.UpdateHash(old(Model()), n)
    {
      hash := HashFor(n);
    }

    /** `onPrevPage`. */
    method OnPrevPage()
      requires Valid() && IsPdfLoaded()
      modifies this
      ensures Valid()
      ensures Model() == ViewerState.PrevPage(old(Model()))
    {
      if pageNum <= 1 {
        return;
      }
      pageNum := pageNum - 1;
      ghost var moved := Model();
      QueueRenderPage(pageNum);
      assert Model() == ViewerState.QueueRenderPage(moved, moved.pageNum);
      UpdateHash(pageNum);
    }

    /** `onNextPage`. */
    method OnNextPage()
      requires Valid() && IsPdfLoaded()
      modifies this
      ensures Valid()
      ensures Model() == ViewerState.NextPage(old(Model()), pdfDoc.value.numPages)
    {
      if pageNum >= pdfDoc.value.numPages {
        return;
      }
      pageNum := pageNum + 1;
      ghost var moved := Model();
      QueueRenderPage(pageNum);
      assert Model() == ViewerState.QueueRenderPage(moved, moved.pageNum);
      UpdateHash(pageNum);
    }

    /** The browser changing `location.hash` (the address bar, history, a link). */
    method SetFragment(h: string)
      modifies this
      ensures Model() == old(Model()).(hash := h)
    {
      hash := h;
    }

    /** `onHashChange`. */
    method OnHashChange()
      requires Valid() && IsPdfLoaded()
      modifies this
      ensures Valid()
      ensures Model() == ViewerState.HashChange(old(Model()))
    {
      var newPageNum := HashPage(hash);
      if newPageNum != pageNum {
        pageNum := newPageNum;
        QueueRenderPage(pageNum);
      }
    }

    /** `onRotateLeft`. */
    method OnRotateLeft()
      requires Valid() && IsPdfLoaded()
      modifies this
      ensures Valid()
      ensures Model() == ViewerState.RotateLeft(old(Model()))
    {
      QuarterTurnsClosed(rotation);
      rotation := JsRem360(rotation - 90);
      if rotation < 0 {
        rotation := rotation + 360;
      }
      QueueRenderPage(pageNum);
    }

    /** `onRotateRight`. */
    method OnRotateRight()
      requires Valid() && IsPdfLoaded()
      modifies this
      ensures Valid()
      ensures Model() == ViewerState.RotateRight(old(Model()))
    {
      QuarterTurnsClosed(rotation);
      rotation := JsRem360(rotation + 90);
      QueueRenderPage(pageNum);
    }
  }

  /**
   * A client: a request during a render, then another, then the completion.
   * Only the page requested last is rendered, and the viewer stays busy with it.
   */
  method CoalescingScenario(pageLabel: string)
  {
    var v := new Viewer(Some(Document(5)), 1, "", pageLabel);
    v.QueueRenderPage(1);
    assert v.started == [1] && v.pageRendering;
    v.OnNextPage();
    v.OnNextPage();
    assert v.pageNum == 3 && v.started == [1] && v.pageNumPending == Some(3);
    v.OnRenderComplete();
    assert v.started == [1, 3] && v.pageRendering && v.pageNumPending == None;
    assert v.pageLabel == IntToString(3);
  }

  /** A client: a fragment naming page 3 of a 5-page document renders page 3. */
  method FragmentScenario(pageLabel: string)
  {
    var v := new Viewer(Some(Document(5)), 1, "", pageLabel);
    v.SetFragment(HashFor(3));
    HashPageOfHashFor(3);
    v.OnHashChange();
    assert v.pageNum == 3 && v.started == [3] && v.pageRendering;
  }

  /**
   * A client: a fragment naming page 6 of a 5-page document is followed as
   * well, and that render never completes.
   */
  method OutOfRangeFragmentScenario(pageLabel: string)
  {
    var v := new Viewer(Some(Document(5)), 5, "", pageLabel);
    v.SetFragment(HashFor(6));
    HashPageOfHashFor(6);
    v.OnHashChange();
    assert v.pageNum == 6 && v.started == [6] && v.pageRendering;
    assert !ViewerState.CompletionEnabled(v.Model(), 5);
  }
}
