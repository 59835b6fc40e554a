/**
  The retained viewport panel: a control that keeps the last bitmap it was
  given, repaints from it on request, and retires replaced bitmaps through
  a FIFO queue that every paint pass drains.
 */
module ViewportPanel {
  import opened Imaging
  import opened Retirement
  import opened Render

  class RetainedViewportPanel {
    /** The current bitmap; None stands for null. */
    var bmp: Option<Bitmap>
    /** Replaced bitmaps waiting for the next drain, oldest first. */
    var disposeQueue: seq<Bitmap>
    var releaseCallback: ReleaseCallback
    var scaleImage: bool
    /** A paint worker exists (the thread field is non-null). */
    var threaded: bool
    /** The worker's auto-reset wake event is set. */
    var wake: bool
    /** The control's client size, set by the host framework. */
    var width: int
    var height: int
    /** Every drawing call issued so far, in order. */
    var commands: seq<DrawCommand>

    /** Every non-null bitmap handed to SetBitmap, in order; a bitmap
        recycled by the caller appears once per install. */
    ghost var installs: seq<Bitmap>
    /** Every drain decision so far, in order. */
    ghost var history: seq<Disposition>

    ghost function Current(): set<Bitmap>
      reads this
    {
      Elements(Slot(bmp))
    }

    /** What the panel owns now: the queue, then the current bitmap. */
    ghost function Owned(): seq<Bitmap>
      reads this
    {
      Retire(disposeQueue, bmp)
    }

    ghost function DisposedBitmaps(): set<Bitmap>
      reads this
    {
      DisposedIn(history)
    }

    ghost function ReleasedBitmaps(): set<Bitmap>
      reads this
    {
      ReleasedIn(history)
    }

    /** Ownership invariant. Every install, in order, has been processed by
        a drain, is still queued, or is the current bitmap (so each is
        accounted for exactly once); the panel owns no bitmap twice; and it
        owns no bitmap it has disposed. */
    ghost predicate Valid()
      reads this
    {
      && Bitmaps(history) + Owned() == installs
      && Distinct(Owned())
      && Elements(Owned()) !! DisposedBitmaps()
    }

    /** newbmp may be installed without breaking ownership: null, or a bitmap
        the panel neither owns nor has disposed. A bitmap handed back by the
        release callback qualifies. */
    ghost predicate Adoptable(newbmp: Option<Bitmap>)
      reads this
    {
      newbmp.Some? ==> newbmp.value !in Elements(Owned()) && newbmp.value !in DisposedBitmaps()
    }

    /** The panel starts unthreaded, scaling, with an empty client area, and
        installs a 2x2 placeholder, which paints once. */
    constructor (placeholderId: nat)
      ensures Valid()
      ensures bmp == Some(Bitmap(placeholderId, 2, 2))
      ensures installs == [Bitmap(placeholderId, 2, 2)]
      ensures disposeQueue == [] && history == []
      ensures releaseCallback == None && scaleImage && !threaded && !wake
      ensures width == 0 && height == 0
      ensures commands == [DrawImage(Bitmap(placeholderId, 2, 2), Rect(0, 0, 0, 0))]
    {
      bmp := None;
      disposeQueue := [];
      releaseCallback := None;
      scaleImage := true;
      threaded := false;
      wake := false;
      width, height := 0, 0;
      commands := [];
      installs := [];
      history := [];
      new;
      SetBitmap(Some(Bitmap(placeholderId, 2, 2)));
    }

    /** Switches to threaded painting with the wake event clear. */
    method ActivateThreaded()
      modifies this`threaded, this`wake
      ensures threaded && !wake
    {
      wake := false;
      threaded := true;
    }

    /** Empties the queue front to back, disposing or releasing each bitmap
        as the release policy decides; the current bitmap is untouched. */
    method CleanupDisposeQueue()
      modifies this`disposeQueue, this`history
      ensures disposeQueue == []
      ensures history == old(history) + DecideAll(releaseCallback, old(disposeQueue))
      ensures bmp == old(bmp)
      ensures old(Valid()) ==> Valid()
    {
      while |disposeQueue| > 0
        invariant history + DecideAll(releaseCallback, disposeQueue)
               == old(history) + DecideAll(releaseCallback, old(disposeQueue))
        decreases |disposeQueue|
      {
        var b := disposeQueue[0];
        var rest := disposeQueue[1..];
        assert DecideAll(releaseCallback, disposeQueue) == [Decide(releaseCallback, b)] + DecideAll(releaseCallback, rest);
        disposeQueue := rest;
        var dispose := true;
        if releaseCallback.Some? {
          dispose := releaseCallback.value(b);
        }
        if dispose {
          history := history + [Disposed(b)];
        } else {
          history := history + [Released(b)];
        }
      }
      DrainKeepsOwnership(old(history), old(disposeQueue), old(Valid()));
    }

    /** The invariant carries over a drain of the whole queue. */
    lemma DrainKeepsOwnership(log: seq<Disposition>, queue: seq<Bitmap>, wasValid: bool)
      requires wasValid ==> Bitmaps(log) + Retire(queue, bmp) == installs
      requires wasValid ==> Distinct(Retire(queue, bmp)) && Elements(Retire(queue, bmp)) !! DisposedIn(log)
      requires disposeQueue == [] && history == log + DecideAll(releaseCallback, queue)
      ensures wasValid ==> Valid()
    {
      DrainExtendsLog(log, releaseCallback, queue);
      DisposedAppend(log, DecideAll(releaseCallback, queue));
      DrainPartition(releaseCallback, queue);
      ElementsAppend(queue, Slot(bmp));
      if wasValid {
        assert Owned() == Slot(bmp);
        assert Bitmaps(history) + Owned() == Bitmaps(log) + Retire(queue, bmp);
        if bmp.Some? {
          var k := |queue|;
          assert Retire(queue, bmp)[k] == bmp.value;
          assert forall i :: 0 <= i < k ==> Retire(queue, bmp)[i] == queue[i];
          assert bmp.value !in queue;
        }
      }
    }

    /** One paint pass: draw the current bitmap if there is one, then drain. */
    method DoPaint()
      modifies this`commands, this`disposeQueue, this`history
      ensures commands == old(commands) + PaintPass(bmp, width, height, scaleImage)
      ensures disposeQueue == []
      ensures history == old(history) + DecideAll(releaseCallback, old(disposeQueue))
      ensures old(Valid()) ==> Valid()
    {
      if bmp.Some? {
        commands := commands + PaintCommands(bmp.value, width, height, scaleImage);
      }
      CleanupDisposeQueue();
    }

    /** One round of the paint worker: waking consumes the auto-reset event,
        then a full paint pass runs. */
    method WakeAndPaint()
      requires threaded && wake
      modifies this`wake, this`commands, this`disposeQueue, this`history
      ensures !wake
      ensures commands == old(commands) + PaintPass(bmp, width, height, scaleImage)
      ensures disposeQueue == []
      ensures history == old(history) + DecideAll(releaseCallback, old(disposeQueue))
      ensures old(Valid()) ==> Valid()
    {
      wake := false;
      DoPaint();
    }

    /** Without a worker, paint now; with one, only set its wake event, so
        repeated signals before it wakes coalesce into one pending paint. */
    method SignalPaint()
      modifies this`wake, this`commands, this`disposeQueue, this`history
      ensures threaded ==> (wake && commands == old(commands)
                            && disposeQueue == old(disposeQueue) && history == old(history))
      ensures !threaded ==> (wake == old(wake)
                             && commands == old(commands) + PaintPass(bmp, width, height, scaleImage)
                             && disposeQueue == []
                             && history == old(history) + DecideAll(releaseCallback, old(disposeQueue)))
      ensures old(Valid()) ==> Valid()
    {
      if !threaded {
        DoPaint();
      } else {
        wake := true;
      }
    }

    /** Takes ownership of newbmp (which may be null): the previous bitmap,
        if any, joins the end of the queue, then a paint is signalled. The
        invariant is kept when newbmp is adoptable. */
    method SetBitmap(newbmp: Option<Bitmap>)
      modifies this`bmp, this`installs, this`disposeQueue, this`wake, this`commands, this`history
      ensures bmp == newbmp
      ensures installs == old(installs) + Slot(newbmp)
      ensures threaded ==> (disposeQueue == Retire(old(disposeQueue), old(bmp))
                            && history == old(history) && commands == old(commands) && wake)
      ensures !threaded ==> (disposeQueue == []
                             && history == old(history) + DecideAll(releaseCallback, Retire(old(disposeQueue), old(bmp)))
                             && commands == old(commands) + PaintPass(newbmp, width, height, scaleImage)
                             && wake == old(wake))
      ensures old(Valid()) && old(Adoptable(newbmp)) ==> Valid()
    {
      if bmp.Some? {
        disposeQueue := disposeQueue + [bmp.value];
      }
      bmp := newbmp;
      installs := installs + Slot(newbmp);
      assert disposeQueue == Retire(old(disposeQueue), old(bmp));
      InstallKeepsOwnership(old(Owned()), old(installs), old(Valid()) && old(Adoptable(newbmp)));
      SignalPaint();
    }

    /** The invariant carries over the swap of the current bitmap. */
    lemma InstallKeepsOwnership(owned: seq<Bitmap>, before: seq<Bitmap>, wasValid: bool)
      requires wasValid ==> Bitmaps(history) + owned == before && Distinct(owned)
      requires wasValid ==> Elements(owned) !! DisposedBitmaps()
      requires wasValid && bmp.Some? ==> bmp.value !in Elements(owned) && bmp.value !in DisposedBitmaps()
      requires Owned() == owned + Slot(bmp) && installs == before + Slot(bmp)
      ensures wasValid ==> Valid()
    {
      ElementsAppend(owned, Slot(bmp));
      if wasValid {
        DistinctAppend(owned, Slot(bmp));
      }
    }

    /** Teardown drains the queue; the current bitmap is neither queued nor
        disposed. */
    method Dispose()
      modifies this`disposeQueue, this`history
      ensures disposeQueue == [] && bmp == old(bmp)
      ensures history == old(history) + DecideAll(releaseCallback, old(disposeQueue))
      ensures old(Valid()) ==> Valid()
    {
      CleanupDisposeQueue();
    }

    /** Under the invariant, every install is accounted for exactly once
        (processed, queued or current), every installed bitmap is current,
        queued, disposed or released, and neither the current bitmap nor a
        queued one has been disposed. */
    lemma OwnershipAccounted()
      requires Valid()
      ensures multiset(installs) == multiset(Bitmaps(history)) + multiset(disposeQueue) + multiset(Slot(bmp))
      ensures Elements(installs) == Current() + Elements(disposeQueue) + DisposedBitmaps() + ReleasedBitmaps()
      ensures Current() !! Elements(disposeQueue)
      ensures Current() !! DisposedBitmaps() && Elements(disposeQueue) !! DisposedBitmaps()
    {
      ProcessedSplit(history);
      ElementsAppend(Bitmaps(history), Owned());
      ElementsAppend(disposeQueue, Slot(bmp));
      if bmp.Some? {
        var k := |disposeQueue|;
        assert Owned()[k] == bmp.value;
        assert forall i :: 0 <= i < k ==> Owned()[i] == disposeQueue[i];
      }
    }
  }

  /** Two installs on a threaded panel only queue the bitmap each replaces
      and raise the wake event; nothing is drawn or drained yet. */
  method Burst(p: RetainedViewportPanel, b1: Bitmap, b2: Bitmap)
    requires p.threaded && p.bmp.Some?
    modifies p
    ensures p.threaded && p.wake && p.bmp == Some(b2)
    ensures p.disposeQueue == old(p.disposeQueue) + [old(p.bmp.value), b1]
    ensures p.history == old(p.history) && p.commands == old(p.commands)
    ensures p.releaseCallback == old(p.releaseCallback)
    ensures p.width == old(p.width) && p.height == old(p.height) && p.scaleImage == old(p.scaleImage)
  {
    p.SetBitmap(Some(b1));
    p.SetBitmap(Some(b2));
  }

  /** Two installs on a threaded panel raise the wake event twice but leave
      one pending paint; the worker's single wake consumes the event, draws
      only the latest bitmap, and the drain after it retires the placeholder
      and the superseded bitmap, oldest first, each exactly once. */
  method BurstThenWake(placeholderId: nat, b1: Bitmap, b2: Bitmap) returns (p: RetainedViewportPanel)
    ensures p.bmp == Some(b2) && p.disposeQueue == [] && !p.wake
    ensures p.history == DecideAll(None, [Bitmap(placeholderId, 2, 2), b1])
    ensures p.commands == [DrawImage(Bitmap(placeholderId, 2, 2), Rect(0, 0, 0, 0)), DrawImage(b2, Rect(0, 0, 0, 0))]
  {
    p := new RetainedViewportPanel(placeholderId);
    p.ActivateThreaded();
    Burst(p, b1, b2);
    assert p.disposeQueue == [Bitmap(placeholderId, 2, 2), b1];
    p.WakeAndPaint();
  }

  /** A panel whose release callback keeps b: installing b and then c
      disposes the placeholder and hands b back to the caller. */
  method ReleaseOne(placeholderId: nat, b: Bitmap, c: Bitmap) returns (p: RetainedViewportPanel)
    requires b != c && b != Bitmap(placeholderId, 2, 2) && c != Bitmap(placeholderId, 2, 2)
    ensures fresh(p) && p.Valid() && !p.threaded && p.bmp == Some(c) && p.disposeQueue == []
    ensures p.installs == [Bitmap(placeholderId, 2, 2), b, c]
    ensures p.history == [Disposed(Bitmap(placeholderId, 2, 2)), Released(b)]
    ensures forall x :: ShouldDispose(p.releaseCallback, x) <==> x != b
  {
    var placeholder := Bitmap(placeholderId, 2, 2);
    p := new RetainedViewportPanel(placeholderId);
    var keep := b;
    p.releaseCallback := Some(x => x != keep);
    p.SetBitmap(Some(b));
    assert p.history == [Disposed(placeholder)];
    p.SetBitmap(Some(c));
  }

  /** A bitmap the release callback handed back can be installed again: the
      panel keeps its ownership invariant, and the bitmap is recorded as
      released once and then current. */
  method RecycleReleased(placeholderId: nat, b: Bitmap, c: Bitmap) returns (p: RetainedViewportPanel)
    requires b != c && b != Bitmap(placeholderId, 2, 2) && c != Bitmap(placeholderId, 2, 2)
    ensures p.Valid() && p.bmp == Some(b)
    ensures p.installs == [Bitmap(placeholderId, 2, 2), b, c, b]
    ensures p.ReleasedBitmaps() == {b}
    ensures p.DisposedBitmaps() == {Bitmap(placeholderId, 2, 2), c}
  {
    var placeholder := Bitmap(placeholderId, 2, 2);
    p := ReleaseOne(placeholderId, b, c);
    assert p.Adoptable(Some(b));
    p.SetBitmap(Some(b));
    assert p.history == [Disposed(placeholder), Released(b), Disposed(c)];
  }
}
