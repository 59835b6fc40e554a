/**
  Retirement of replaced bitmaps. The panel queues every bitmap it stops
  showing; a drain takes them from the front of the queue and, for each,
  asks the optional release callback whether to dispose it. A callback
  answering false keeps the bitmap alive: ownership goes back to the caller.
 */
module Retirement {
  import opened Imaging

  /** The panel's `ReleaseCallback` field: absent, or a function that answers
      true when the bitmap should be disposed now. */
  type ReleaseCallback = Option<Bitmap -> bool>

  /** What happened to one bitmap taken off the queue. */
  datatype Disposition = Disposed(bitmap: Bitmap) | Released(bitmap: Bitmap)

  /** With no callback a retired bitmap is always disposed. */
  predicate ShouldDispose(callback: ReleaseCallback, b: Bitmap) {
    match callback
    case None => true
    case Some(f) => f(b)
  }

  /** The decision for one dequeued bitmap. */
  function Decide(callback: ReleaseCallback, b: Bitmap): Disposition {
    if ShouldDispose(callback, b) then Disposed(b) else Released(b)
  }

  /** The decisions a drain of `queue` makes, front to back. */
  function DecideAll(callback: ReleaseCallback, queue: seq<Bitmap>): seq<Disposition> {
    if queue == [] then [] else [Decide(callback, queue[0])] + DecideAll(callback, queue[1..])
  }

  /** The bitmap a slot holds, as a sequence of zero or one bitmaps. */
  function Slot(current: Option<Bitmap>): seq<Bitmap> {
    match current
    case None => []
    case Some(b) => [b]
  }

  /** The queue after the current bitmap (if any) is retired onto its end. */
  function Retire(queue: seq<Bitmap>, current: Option<Bitmap>): seq<Bitmap> {
    queue + Slot(current)
  }

  /** The bitmaps a log of decisions is about, in order. */
  function Bitmaps(log: seq<Disposition>): seq<Bitmap> {
    seq(|log|, i requires 0 <= i < |log| => log[i].bitmap)
  }

  function DisposedIn(log: seq<Disposition>): set<Bitmap> {
    set d | d in log && d.Disposed? :: d.bitmap
  }

  function ReleasedIn(log: seq<Disposition>): set<Bitmap> {
    set d | d in log && d.Released? :: d.bitmap
  }

  function Elements<T>(s: seq<T>): set<T> {
    set x | x in s
  }

  predicate Distinct<T(==)>(s: seq<T>) {
    forall i, j :: 0 <= i < j < |s| ==> s[i] != s[j]
  }

  /** A drain handles the queued bitmaps exactly once each, in FIFO order. */
  lemma {:induction false} DrainIsFifo(callback: ReleaseCallback, queue: seq<Bitmap>)
    ensures Bitmaps(DecideAll(callback, queue)) == queue
  {
    if queue != [] {
      DrainIsFifo(callback, queue[1..]);
      assert DecideAll(callback, queue) == [Decide(callback, queue[0])] + DecideAll(callback, queue[1..]);
      assert queue == [queue[0]] + queue[1..];
    }
  }

  /** The i-th decision of a drain is about the i-th queued bitmap, and it is
      a disposal exactly when the callback is absent or answers true. */
  lemma {:induction false} DrainDecidesEach(callback: ReleaseCallback, queue: seq<Bitmap>, i: nat)
    requires i < |queue|
    ensures |DecideAll(callback, queue)| == |queue|
    ensures DecideAll(callback, queue)[i].bitmap == queue[i]
    ensures DecideAll(callback, queue)[i].Disposed? <==> ShouldDispose(callback, queue[i])
  {
    if i == 0 {
      if |queue| > 1 { DrainDecidesEach(callback, queue[1..], 0); }
    } else {
      DrainDecidesEach(callback, queue[1..], i - 1);
    }
  }

  /** A drain disposes exactly the queued bitmaps the policy condemns and
      hands back exactly the others. */
  lemma {:induction false} DrainPartition(callback: ReleaseCallback, queue: seq<Bitmap>)
    ensures forall b :: b in DisposedIn(DecideAll(callback, queue)) <==> b in queue && ShouldDispose(callback, b)
    ensures forall b :: b in ReleasedIn(DecideAll(callback, queue)) <==> b in queue && !ShouldDispose(callback, b)
  {
    if queue != [] {
      DrainPartition(callback, queue[1..]);
      var rest := DecideAll(callback, queue[1..]);
      var log := [Decide(callback, queue[0])] + rest;
      assert DecideAll(callback, queue) == log;
      assert DisposedIn(log) == DisposedIn([Decide(callback, queue[0])]) + DisposedIn(rest);
      assert ReleasedIn(log) == ReleasedIn([Decide(callback, queue[0])]) + ReleasedIn(rest);
      assert forall b :: b in queue <==> b == queue[0] || b in queue[1..];
    }
  }

  /** One drain never both disposes and hands back the same bitmap, even
      when the queue holds it twice: the callback answers the same for both. */
  lemma DrainExclusive(callback: ReleaseCallback, queue: seq<Bitmap>)
    ensures DisposedIn(DecideAll(callback, queue)) !! ReleasedIn(DecideAll(callback, queue))
  {
    DrainPartition(callback, queue);
  }

  /** Without a callback a drain disposes every queued bitmap and hands none back. */
  lemma NoCallbackDisposesAll(queue: seq<Bitmap>)
    ensures DisposedIn(DecideAll(None, queue)) == Elements(queue)
    ensures ReleasedIn(DecideAll(None, queue)) == {}
  {
    DrainPartition(None, queue);
  }

  /** Every logged bitmap was either disposed or released. */
  lemma ProcessedSplit(log: seq<Disposition>)
    ensures Elements(Bitmaps(log)) == DisposedIn(log) + ReleasedIn(log)
  {
    forall b | b in Elements(Bitmaps(log)) ensures b in DisposedIn(log) + ReleasedIn(log) {
      var i :| 0 <= i < |log| && Bitmaps(log)[i] == b;
      assert log[i] in log;
    }
    forall b | b in DisposedIn(log) + ReleasedIn(log) ensures b in Elements(Bitmaps(log)) {
      var d :| d in log && d.bitmap == b;
      var i :| 0 <= i < |log| && log[i] == d;
      assert Bitmaps(log)[i] == b;
    }
  }

  /** When no bitmap is logged twice, none is both disposed and released. */
  lemma DistinctLogExclusive(log: seq<Disposition>)
    requires Distinct(Bitmaps(log))
    ensures DisposedIn(log) !! ReleasedIn(log)
  {
    forall d, e | d in log && e in log && d.Disposed? && e.Released? ensures d.bitmap != e.bitmap {
      var i :| 0 <= i < |log| && log[i] == d;
      var j :| 0 <= j < |log| && log[j] == e;
      assert i != j;
      assert Bitmaps(log)[i] == d.bitmap && Bitmaps(log)[j] == e.bitmap;
    }
  }

  lemma BitmapsAppend(a: seq<Disposition>, b: seq<Disposition>)
    ensures Bitmaps(a + b) == Bitmaps(a) + Bitmaps(b)
  {
  }

  lemma DisposedAppend(a: seq<Disposition>, b: seq<Disposition>)
    ensures DisposedIn(a + b) == DisposedIn(a) + DisposedIn(b)
  {
  }

  lemma ElementsAppend<T>(a: seq<T>, b: seq<T>)
    ensures Elements(a + b) == Elements(a) + Elements(b)
  {
  }

  lemma DistinctAppend<T>(a: seq<T>, b: seq<T>)
    requires Distinct(a) && Distinct(b) && Elements(a) !! Elements(b)
    ensures Distinct(a + b)
  {
    forall i, j | 0 <= i < j < |a + b| ensures (a + b)[i] != (a + b)[j] {
      if i < |a| && |a| <= j {
        assert (a + b)[i] in Elements(a) && (a + b)[j] in Elements(b);
      }
    }
  }

  /** What a drain appends to the log covers the drained queue, in order. */
  lemma DrainExtendsLog(log: seq<Disposition>, callback: ReleaseCallback, queue: seq<Bitmap>)
    ensures Bitmaps(log + DecideAll(callback, queue)) == Bitmaps(log) + queue
  {
    BitmapsAppend(log, DecideAll(callback, queue));
    DrainIsFifo(callback, queue);
  }
}
