/** The windowing of `get` exactly as the source composes it (classification,
    `purge`, `addAll`, `clear`, `setFirst`), how it agrees with the corrected
    windowing of module Windowing on the common paths, and the inputs on which
    it does not. */
module Findings {
  import opened Wrappers
  import opened Ranges
  import opened Sources
  import opened Windowing

  /** The decision as the source takes it: a near miss prepends only when
      the target row is negative, which is never the case when rows are
      numbered from 0, so in effect it always appends on the right (lines
      414-421); a slide evicts as many rows as it fetches even when the
      window holds fewer (lines 433 and 440). */
  function ClassifyAsWritten(window: Range, outer: Range, defSize: int, maxSize: int, index: int): (p: Plan)
    requires defSize > 0
    ensures p.Hit? <==> window.IsInbound(index)
    ensures p.Extend? && outer.first >= 0 && outer.length > 0 ==> p.side == Right
    ensures p.Slide? ==> p.evict == p.span.length
  {
    if window.IsInbound(index) then Hit
    else
      var target := AlignToPage(window, outer, defSize, index);
      var dist := Abs(window.MaxDistance(target));
      var span := window.Complement(target);
      if dist <= maxSize then Extend(if target < 0 then Left else Right, span)
      else if dist < 2 * maxSize then Slide(if target < window.first then Left else Right, span, span.length)
      else Reload(Nested(index, defSize, outer))
  }

  /** The source's decision is the corrected one except for a near miss on
      the left and a slide that evicts more rows than the window holds. */
  lemma ClassifyAsWrittenAgrees(window: Range, outer: Range, defSize: int, maxSize: int, index: int)
    requires defSize > 0 && outer.IsInbound(index) && outer.first >= 0
    ensures var p := Classify(window, outer, defSize, maxSize, index);
            (p.Hit? || p.Reload? || (p.Extend? && p.side == Right) || (p.Slide? && p.span.length <= window.length))
            ==> ClassifyAsWritten(window, outer, defSize, maxSize, index) == p
  {
    var target := AlignToPage(window, outer, defSize, index);
    assert target >= 0;
  }

  /** `purge(from, to)` as written (lines 186-209): dropping at the back
      moves the first row BACK by the number of rows dropped (lines 205-206),
      so the rows left no longer sit at their own numbers. It agrees with the
      corrected purge on whether it fails, on the rows it keeps, and
      everywhere on a front purge. */
  function PurgeWindowAsWritten<T>(w: Window<T>, from: int, to: int, outer: Range): (r: Result<Window<T>, Error>)
    requires w.range.Within(outer)
    ensures var c := PurgeWindow(w, from, to, outer);
            && (r.Err? ==> r == c)
            && (r.Ok? ==> c.Ok? && r.value.rows == c.value.rows && r.value.range.Within(outer))
            && (from == 0 ==> r == c)
    ensures r.Ok? && w.WellFormed(outer) ==> r.value.WellFormed(outer)
    ensures r.Ok? && from != 0 && outer.first <= w.range.first - (to - from + 1)
            ==> r.value.range.first == w.range.first - (to - from + 1)
  {
    if from > to || (from != 0 && to != |w.rows| - 1) then Err(PreconditionViolation)
    else if from < 0 || to >= |w.rows| then Err(IndexOutOfRange)
    else
      var delta := to - from + 1;
      var range := w.range.IncLength(-delta, outer);
      var range' := if from == 0 then range.SetFirst(range.first + delta, outer)
                    else range.SetFirst(range.first - delta, outer);
      Ok(Window(range', w.rows[..from] + w.rows[to + 1..]))
  }

  /** The window after `get(index)` misses, step by step as the source takes
      the steps: a near miss adds at the front only when the target is
      negative and never re-anchors; a slide purges `evict` rows at one edge
      and adds at the other; a far miss clears, adds at the old first row and
      only then moves the first row to `index`. */
  function ServeAsWritten<T>(w: Window<T>, src: Source<T>, defSize: int, maxSize: int, index: int): (r: Result<Window<T>, Error>)
    requires defSize > 0 && w.range.Within(src.limits)
    ensures r.Ok? ==> r.value.range.Within(src.limits)
    ensures w.range.IsInbound(index) ==> r == Ok(w)
  {
    ServePlanAsWritten(ClassifyAsWritten(w.range, src.limits, defSize, maxSize, index), w, src, index)
  }

  /** The steps the source takes for a given plan. */
  function ServePlanAsWritten<T>(p: Plan, w: Window<T>, src: Source<T>, index: int): (r: Result<Window<T>, Error>)
    requires w.range.Within(src.limits)
    ensures r.Ok? ==> r.value.range.Within(src.limits)
    ensures p.Hit? ==> r == Ok(w)
  {
    var outer := src.limits;
    match p
    case Hit => Ok(w)
    case Extend(Right, span) => InsertRows(w, w.range.Last() + 1, src.Fetch(span), outer)
    case Extend(Left, span) => InsertRows(w, w.range.first, src.Fetch(span), outer)
    case Slide(Right, span, k) =>
      (match PurgeWindowAsWritten(w, 0, k - 1, outer)
       case Err(e) => Err(e)
       case Ok(w1) => InsertRows(w1, w1.range.Last() + 1, src.Fetch(span), outer))
    case Slide(Left, span, k) =>
      (match PurgeWindowAsWritten(w, |w.rows| - k, |w.rows| - 1, outer)
       case Err(e) => Err(e)
       case Ok(w1) => InsertRows(w1, w1.range.first, src.Fetch(span), outer))
    case Reload(span) =>
      var cleared := Window(Range(w.range.first, 0), []);
      match InsertRows(cleared, cleared.range.first, src.Fetch(span), outer)
      case Err(e) => Err(e)
      case Ok(w1) => Ok(Window(w1.range.SetFirst(index, outer), w1.rows))
  }

  /** The source's steps for a plan the corrected classification would
      also take: an extension on the right, a slide that evicts fewer rows
      than the window holds (the back purge moving the first row back by
      exactly the number of rows the prepend then adds), and a far miss whose
      rows fit after the old first row. */
  lemma ServePlanAgrees<T>(p: Plan, w: Window<T>, src: Source<T>, index: int)
    requires w.WellFormed(src.limits) && !p.Hit? && p.span.Within(src.limits)
    requires p.Extend? ==> p.side == Right && p.span.first == w.range.first + |w.rows|
    requires p.Slide? ==> 0 < p.evict < |w.rows|
    requires p.Slide? && p.side == Right ==> p.span.first == w.range.first + |w.rows|
    requires p.Slide? && p.side == Left ==> p.span.Last() + 1 == w.range.first && p.evict == p.span.length
    requires p.Reload? ==> p.span.first == index
    requires p.Reload? ==> w.range.first + |src.Fetch(p.span)| <= src.limits.first + src.limits.length
    ensures ServePlanAsWritten(p, w, src, index) == Ok(Apply(p, w, src))
  {
    match p
    case Extend(_, span) =>
      AppendAsWritten(w, src, span);
    case Slide(Right, span, k) =>
      SlideRightAgrees(w, src, span, k, index);
    case Slide(Left, span, k) =>
      SlideLeftAgrees(w, src, span, k, index);
    case Reload(span) =>
      ClearAddThenMove(w, src, span);
  }

  /** A slide to the right that evicts at most what the window holds: the
      front purge and the append compute the corrected window. */
  lemma SlideRightAgrees<T>(w: Window<T>, src: Source<T>, span: Range, k: nat, index: int)
    requires w.WellFormed(src.limits) && span.Within(src.limits)
    requires span.first == w.range.first + |w.rows| && 0 < k <= |w.rows|
    ensures ServePlanAsWritten(Slide(Right, span, k), w, src, index) == Ok(Apply(Slide(Right, span, k), w, src))
  {
    PurgeFrontThenAppend(w, src, span, k);
  }

  /** A slide to the left that evicts fewer rows than the window holds: the
      back purge and the prepend compute the corrected window. */
  lemma SlideLeftAgrees<T>(w: Window<T>, src: Source<T>, span: Range, k: nat, index: int)
    requires w.WellFormed(src.limits) && span.Within(src.limits)
    requires span.Last() + 1 == w.range.first && 0 < k < |w.rows| && k == span.length
    ensures ServePlanAsWritten(Slide(Left, span, k), w, src, index) == Ok(Apply(Slide(Left, span, k), w, src))
  {
    PurgeBackThenPrepend(w, src, span, k);
  }

  /** A back purge of `k` rows as written, which moves the first row back by `k`,
      followed by an insertion at the new first row is a slide to the left,
      as long as the window holds more than `k` rows and `k` is the length of
      the span just left of it. */
  lemma PurgeBackThenPrepend<T>(w: Window<T>, src: Source<T>, span: Range, k: nat)
    requires w.WellFormed(src.limits) && span.Within(src.limits)
    requires span.Last() + 1 == w.range.first && 0 < k < |w.rows| && k == span.length
    ensures PurgeWindowAsWritten(w, |w.rows| - k, |w.rows| - 1, src.limits).Ok?
    ensures var w1 := PurgeWindowAsWritten(w, |w.rows| - k, |w.rows| - 1, src.limits).value;
            InsertRows(w1, w1.range.first, src.Fetch(span), src.limits)
            == Ok(Apply(Slide(Left, span, k), w, src))
  {
    var w1 := PurgeWindowAsWritten(w, |w.rows| - k, |w.rows| - 1, src.limits).value;
    var f := src.Fetch(span);
    assert f + w1.rows == w1.rows[..0] + f + w1.rows[0..];
  }

  /** A near miss as the source serves it: the rows fetched are appended
      after the window's last row, whichever side of the window they lie
      on. */
  lemma ExtendRightAsWritten<T>(w: Window<T>, src: Source<T>, span: Range, index: int)
    requires w.WellFormed(src.limits)
    ensures var f := src.Fetch(span);
            ServePlanAsWritten(Extend(Right, span), w, src, index)
            == Ok(Window(w.range.IncLength(|f|, src.limits), w.rows + f))
  {
    var f := src.Fetch(span);
    assert w.rows[..|w.rows|] + f + w.rows[|w.rows|..] == w.rows + f;
  }

  /** A far miss as the source serves it: the rows fetched replace the
      window's, the length is grown from the OLD first row (and clamped
      there), and only then is the first row moved to `index`. */
  lemma ReloadAsWritten<T>(w: Window<T>, src: Source<T>, span: Range, index: int)
    requires w.range.Within(src.limits)
    ensures var f := src.Fetch(span);
            ServePlanAsWritten(Reload(span), w, src, index)
            == Ok(Window(Range(w.range.first, 0).IncLength(|f|, src.limits).SetFirst(index, src.limits), f))
  {
    var f := src.Fetch(span);
    var none: seq<T> := [];
    assert none[..0] + f + none[0..] == f;
  }

  /** On the paths the source was written for, it computes the corrected
      window: an extension on the right, a slide that evicts fewer rows than
      the window holds, and a far miss whose rows fit after the old first
      row. */
  lemma AsWrittenAgreesOnCommonPaths<T>(w: Window<T>, src: Source<T>, defSize: int, maxSize: int, index: int)
    requires defSize > 0 && w.WellFormed(src.limits)
    requires src.limits.IsInbound(index) && src.limits.first >= 0
    requires var p := Classify(w.range, src.limits, defSize, maxSize, index);
             || (p.Extend? && p.side == Right)
             || (p.Slide? && p.span.length < |w.rows|)
             || (p.Reload? && w.range.first + |src.Fetch(p.span)| <= src.limits.first + src.limits.length)
    ensures ServeAsWritten(w, src, defSize, maxSize, index)
            == Ok(Apply(Classify(w.range, src.limits, defSize, maxSize, index), w, src))
  {
    var p := Classify(w.range, src.limits, defSize, maxSize, index);
    ClassifySpan(w.range, src.limits, defSize, maxSize, index);
    ClassifyAsWrittenAgrees(w.range, src.limits, defSize, maxSize, index);
    ServePlanAgrees(p, w, src, index);
  }

  /** A source of rows 0 to 999, row `n` being the number `n`. */
  function Numbers(): (src: Source<int>)
    ensures src.limits == Range(0, 1000) && src.Complete()
    ensures forall n :: src.Has(n) <==> 0 <= n < 1000
    ensures forall n :: 0 <= n < 1000 ==> src.Row(n) == n
  {
    Source(Range(0, 1000), seq(1000, i => i), false)
  }

  /** A coherent window holding the rows `r` of `Numbers()`. */
  function Loaded(r: Range): (w: Window<int>)
    requires r.Within(Range(0, 1000))
    ensures w.range == r && w.WellFormed(Numbers().limits) && Coherent(w, Numbers())
  {
    Numbers().FetchWithinLimits(r);
    Window(r, Numbers().Fetch(r))
  }

  /** A window holding, at the place of row `n`, something other than the
      source's row `n` is not coherent. */
  lemma OutOfPlace<T>(w: Window<T>, src: Source<T>, n: int)
    requires w.range.first <= n < w.range.first + |w.rows|
    requires src.Has(n) && w.rows[n - w.range.first] != src.Row(n)
    ensures !Coherent(w, src)
  { }

  /** Lines 205-206: purging the back half (cache positions 50-99) of a
      window on rows 100-199 moves its first row back to 50, so row 100 sits
      where row 50 belongs; the corrected purge keeps the first row at 100
      and the window holds rows 100-149 at their own numbers. */
  lemma BackPurgeMovesWindow()
    ensures var w, src := Loaded(Range(100, 100)), Numbers();
            var r, c := PurgeWindowAsWritten(w, 50, 99, src.limits), PurgeWindow(w, 50, 99, src.limits);
            && r.Ok? && r.value.range == Range(50, 50) && !Coherent(r.value, src)
            && c.Ok? && c.value.range == Range(100, 50) && Coherent(c.value, src)
  {
    var w, src := Loaded(Range(100, 100)), Numbers();
    var r := PurgeWindowAsWritten(w, 50, 99, src.limits);
    assert r.value.rows[0] == w.rows[0] == src.Row(100);
    OutOfPlace(r.value, src, 50);
    PurgeKeepsCoherence(w, 50, 99, src);
  }

  /** The two decisions for row 50 and a window on rows 100-199: the
      source's appends the page of row 50 on the right, the corrected one
      prepends it. */
  lemma NearMissPlans()
    ensures ClassifyAsWritten(Range(100, 100), Range(0, 1000), 100, 300, 50) == Extend(Right, Range(0, 100))
    ensures Classify(Range(100, 100), Range(0, 1000), 100, 300, 50) == Extend(Left, Range(0, 100))
  {
    assert AlignToPage(Range(100, 100), Range(0, 1000), 100, 50) == 0;
  }

  /** Any window on rows 100-199 of a complete source of rows 0-999, asked
      for row 50 with pages of 100 rows and a maximum of 300, has the page
      0-99 appended after its last row. */
  lemma NearMissAppends<T>(w: Window<T>, src: Source<T>)
    requires src.limits == Range(0, 1000) && src.Complete()
    requires w.range == Range(100, 100) && w.WellFormed(src.limits)
    ensures ServeAsWritten(w, src, 100, 300, 50) == Ok(Window(Range(100, 200), w.rows + src.Fetch(Range(0, 100))))
  {
    NearMissPlans();
    src.FetchWithinLimits(Range(0, 100));
    ExtendRightAsWritten(w, src, Range(0, 100), 50);
    assert w.range.IncLength(100, src.limits) == Range(100, 200);
  }

  /** What the source does for row 50 and a window holding rows 100-199:
      rows 0-99 are appended after row 199, and the window, still starting at
      row 100, grows to 200 rows; row 0 then sits where row 200 belongs. */
  lemma NearMissServed()
    ensures var w, src := Loaded(Range(100, 100)), Numbers();
            var f := src.Fetch(Range(0, 100));
            && ServeAsWritten(w, src, 100, 300, 50) == Ok(Window(Range(100, 200), w.rows + f))
            && |f| == 100 && (w.rows + f)[100] == src.Row(0) != src.Row(200)
  {
    var w, src := Loaded(Range(100, 100)), Numbers();
    var f := src.Fetch(Range(0, 100));
    assert |f| == 100 by {
      src.FetchWithinLimits(Range(0, 100));
    }
    NearMissAppends(w, src);
    assert (w.rows + f)[100] == src.Row(0) by {
      assert |w.rows| == 100 && f[0] == src.Row(0);
    }
  }

  /** What the corrected extension does for the same request: rows 0-99 are
      prepended and the window covers rows 0-199. */
  lemma NearMissCorrected()
    ensures Apply(Extend(Left, Range(0, 100)), Loaded(Range(100, 100)), Numbers()).range == Range(0, 200)
  {
    Numbers().FetchWithinLimits(Range(0, 100));
  }

  /** Lines 414-421: with pages of 100 rows and a maximum of 300, a window
      on rows 100-199 asked for row 50 (a near miss on the left) appends rows
      0-99 AFTER row 199 and keeps the first row at 100, so row 50 is not in
      the window and the rows no longer sit at their own numbers; the
      corrected classification prepends them and starts the window at row 0. */
  lemma NearMissOnTheLeft()
    ensures var w, src := Loaded(Range(100, 100)), Numbers();
            var r := ServeAsWritten(w, src, 100, 300, 50);
            && r.Ok? && !r.value.range.IsInbound(50) && !Coherent(r.value, src)
            && Apply(Classify(w.range, src.limits, 100, 300, 50), w, src).range.IsInbound(50)
  {
    var w, src := Loaded(Range(100, 100)), Numbers();
    NearMissPlans();
    NearMissServed();
    NearMissCorrected();
    var f := src.Fetch(Range(0, 100));
    OutOfPlace(Window(Range(100, 200), w.rows + f), src, 200);
  }

  /** Lines 433 and 440: a fresh cache (no rows, first row 0) with pages of
      100 rows and a maximum of 300, asked for row 450, slides right and
      purges 500 rows from an empty list, which throws; the corrected
      classification evicts nothing and loads rows 0-499. */
  lemma SlideEvictsMoreThanHeld()
    ensures var w := Window(Range(0, 0), []);
            && ClassifyAsWritten(w.range, Range(0, 1000), 100, 300, 450) == Slide(Right, Range(0, 500), 500)
            && ServeAsWritten(w, Numbers(), 100, 300, 450) == Err(IndexOutOfRange)
            && Classify(w.range, Range(0, 1000), 100, 300, 450) == Slide(Right, Range(0, 500), 0)
            && Apply(Slide(Right, Range(0, 500), 0), w, Numbers()).range == Range(0, 500)
  {
    var w, outer := Window(Range(0, 0), []), Range(0, 1000);
    var target := AlignToPage(w.range, outer, 100, 450);
    assert target == 499;
    assert w.range.Complement(target) == Range(0, 500);
    var p := ClassifyAsWritten(w.range, outer, 100, 300, 450);
    assert p == Slide(Right, Range(0, 500), 500);
    assert PurgeWindowAsWritten(w, 0, 499, outer) == Err(IndexOutOfRange);
    assert ServePlanAsWritten(p, w, Numbers(), 450) == Err(IndexOutOfRange);
    Numbers().FetchWithinLimits(Range(0, 500));
  }

  /** Lines 432-436, the same slip when the window holds exactly as many rows
      as the slide evicts: a window on rows 400-799 asked for row 0 purges
      all 400 rows from cache position 0, which `purge` takes for a front
      purge and moves the first row FORWARD to 800; rows 0-399 are then
      added at row 800 and row 0 is not in the window. The corrected slide
      starts the window at row 0. */
  lemma SlideLeftOfWholeWindow()
    ensures var w := Loaded(Range(400, 400));
            && ClassifyAsWritten(w.range, Range(0, 1000), 100, 300, 0) == Slide(Left, Range(0, 400), 400)
            && ServeAsWritten(w, Numbers(), 100, 300, 0).Ok?
            && ServeAsWritten(w, Numbers(), 100, 300, 0).value.range.first == 800
            && Classify(w.range, Range(0, 1000), 100, 300, 0) == Slide(Left, Range(0, 400), 400)
            && Apply(Slide(Left, Range(0, 400), 400), w, Numbers()).range == Range(0, 400)
  {
    var w, outer := Loaded(Range(400, 400)), Range(0, 1000);
    assert AlignToPage(w.range, outer, 100, 0) == 0;
    assert w.range.Complement(0) == Range(0, 400);
    var p := ClassifyAsWritten(w.range, outer, 100, 300, 0);
    assert p == Slide(Left, Range(0, 400), 400);
    var purged := PurgeWindowAsWritten(w, 0, 399, outer);
    assert purged == Ok(Window(Range(800, 0), []));
    Numbers().FetchWithinLimits(Range(0, 400));
    assert ServePlanAsWritten(p, w, Numbers(), 0) == InsertRows(purged.value, 800, Numbers().Fetch(Range(0, 400)), outer);
  }

  /** Lines 450-453: a window on rows 950-999 asked for row 0 (a far miss)
      adds rows 0-99 while its first row is still 950, so the length is
      clamped to the 50 rows left before row 999; moving the first row to 0
      then leaves a range of 50 rows over a list of 100. The corrected
      reload moves the first row before adding and covers all 100 rows. */
  lemma FarMissClampedBeforeMove()
    ensures var w := Loaded(Range(950, 50));
            && ClassifyAsWritten(w.range, Range(0, 1000), 100, 300, 0) == Reload(Range(0, 100))
            && ServeAsWritten(w, Numbers(), 100, 300, 0).Ok?
            && ServeAsWritten(w, Numbers(), 100, 300, 0).value.range == Range(0, 50)
            && |ServeAsWritten(w, Numbers(), 100, 300, 0).value.rows| == 100
            && Apply(Reload(Range(0, 100)), w, Numbers()).range == Range(0, 100)
  {
    var w, src, outer := Loaded(Range(950, 50)), Numbers(), Range(0, 1000);
    var p := ClassifyAsWritten(w.range, outer, 100, 300, 0);
    assert p == Reload(Range(0, 100));
    src.FetchWithinLimits(Range(0, 100));
    ReloadAsWritten(w, src, Range(0, 100), 0);
    assert Range(950, 0).IncLength(100, outer) == Range(950, 50);
  }

  /** A browsing session served by the corrected
      classification from a fresh cache over rows 0-999 with pages of 100
      rows and a maximum of 300: row 0 loads rows 0-99; row 150 is a near
      miss that appends rows 100-199 (one page, so the window becomes
      rows 0-199, not 0-299); row 900 is a far miss that reloads rows
      900-999. */
  lemma BrowsingSession()
    ensures var src, outer := Numbers(), Range(0, 1000);
            var w0 := Window(Range(0, 0), []);
            var w1 := Apply(Extend(Right, Range(0, 100)), w0, src);
            var w2 := Apply(Extend(Right, Range(100, 100)), w1, src);
            && Classify(w0.range, outer, 100, 300, 0) == Extend(Right, Range(0, 100)) && w1.range == Range(0, 100)
            && Classify(w1.range, outer, 100, 300, 150) == Extend(Right, Range(100, 100)) && w2.range == Range(0, 200)
            && Classify(w2.range, outer, 100, 300, 900) == Reload(Range(900, 100))
            && Apply(Reload(Range(900, 100)), w2, src).range == Range(900, 100)
  {
    var src, outer := Numbers(), Range(0, 1000);
    var w0 := Window(Range(0, 0), []);
    assert AlignToPage(w0.range, outer, 100, 0) == 99;
    assert w0.range.Complement(99) == Range(0, 100);
    assert Classify(w0.range, outer, 100, 300, 0) == Extend(Right, Range(0, 100));
    src.FetchWithinLimits(Range(0, 100));
    var w1 := Apply(Extend(Right, Range(0, 100)), w0, src);
    assert w1.range == Range(0, 100);
    assert AlignToPage(w1.range, outer, 100, 150) == 199;
    assert w1.range.Complement(199) == Range(100, 100);
    assert Classify(w1.range, outer, 100, 300, 150) == Extend(Right, Range(100, 100));
    src.FetchWithinLimits(Range(100, 100));
    var w2 := Apply(Extend(Right, Range(100, 100)), w1, src);
    assert w2.range == Range(0, 200);
    assert AlignToPage(w2.range, outer, 100, 900) == 999;
    assert Classify(w2.range, outer, 100, 300, 900) == Reload(Range(900, 100));
    src.FetchWithinLimits(Range(900, 100));
  }

  /** The window has no size bound on near misses. Over rows 0-999, with
      pages of 100 and a maximum of 300, a window on rows 0-299 asked for
      row 350 is 100 rows from the target, a near miss. It fetches the page
      300-399 and grows to 400 rows, past the maximum. The corrected
      windowing and the source's do the same, so further near misses grow
      the window until it covers the limits. */
  lemma NearMissGrowsPastMax()
    ensures var w, src := Loaded(Range(0, 300)), Numbers();
            var f := src.Fetch(Range(300, 100));
            && Classify(w.range, src.limits, 100, 300, 350) == Extend(Right, Range(300, 100))
            && Apply(Extend(Right, Range(300, 100)), w, src) == Window(Range(0, 400), w.rows + f)
            && ServeAsWritten(w, src, 100, 300, 350) == Ok(Window(Range(0, 400), w.rows + f))
            && |w.rows + f| == 400 > 300
  {
    var w, src := Loaded(Range(0, 300)), Numbers();
    assert AlignToPage(w.range, src.limits, 100, 350) == 399;
    assert w.range.Complement(399) == Range(300, 100);
    assert ClassifyAsWritten(w.range, src.limits, 100, 300, 350) == Extend(Right, Range(300, 100));
    src.FetchWithinLimits(Range(300, 100));
    ExtendRightAsWritten(w, src, Range(300, 100), 350);
    assert w.range.IncLength(100, src.limits) == Range(0, 400);
  }
}
