/** The windowing arithmetic of the rolling cache, as values: page alignment,
    the three-way classification of a miss (near, shift, far), the eviction of
    rows at one edge, and what the window holds after a miss is served. The
    class in module Cache carries these out step by step on its fields. */
module Windowing {
  import opened Wrappers
  import opened Ranges
  import opened Sources

  /** The exceptions the cache throws. */
  datatype Error =
    | PreconditionViolation   // EArgumentBreaksRule
    | IndexOutOfRange         // IndexOutOfBoundsException
    | UnsupportedOperation    // EUnsupported
    | NullArgument            // NullPointerException

  /** The window: the row range `range` held in memory, and the rows
      themselves, `rows[0]` being row `range.first`. */
  datatype Window<T> = Window(range: Range, rows: seq<T>) {

    /** The window lies inside the outer limits and its length is the number
        of rows it holds. */
    predicate WellFormed(outer: Range) {
      range.Within(outer) && range.length == |rows|
    }
  }

  /** The window holds the source's own rows, each at its own row number. */
  ghost predicate Coherent<T>(w: Window<T>, src: Source<T>) {
    forall n :: w.range.first <= n < w.range.first + |w.rows| ==>
      src.Has(n) && w.rows[n - w.range.first] == src.Row(n)
  }

  /** Euclidean division and remainder by a positive divisor. */
  lemma DivMod(a: int, b: int)
    requires b > 0
    ensures 0 <= a % b < b && a == b * (a / b) + a % b
  { }

  /** A multiple of `b` leaves no remainder. */
  lemma MultipleMod(b: int, q: int)
    requires b > 0
    ensures (b * q) % b == 0
  {
    var k := q - (b * q) / b;
    DivMod(b * q, b);
    assert (b * q) % b == b * k;
  }

  /** Taking away the remainder of a non-negative number leaves a
      non-negative multiple. */
  lemma SubRemainder(a: int, b: int)
    requires a >= 0 && b > 0
    ensures 0 <= a % b < b && a % b <= a && (a - a % b) % b == 0
  {
    DivMod(a, b);
    MultipleMod(b, a / b);
    if a < b {
      assert a / b == 0;
    }
  }

  /** Adding the divisor to a multiple leaves a multiple. */
  lemma AddDivisor(x: int, b: int)
    requires b > 0 && x % b == 0
    ensures (x + b) % b == 0
  {
    DivMod(x, b);
    assert x + b == b * (x / b + 1);
    MultipleMod(b, x / b + 1);
  }

  /** The negation of a multiple is a multiple. */
  lemma NegateMultiple(x: int, b: int)
    requires b > 0 && x % b == 0
    ensures (-x) % b == 0
  {
    DivMod(x, b);
    assert -x == b * -(x / b);
    MultipleMod(b, -(x / b));
  }

  /** Java's `%`: the remainder takes the sign of the dividend. */
  function JavaRem(a: int, b: int): (r: int)
    requires b > 0
    ensures a >= 0 ==> 0 <= r < b && r <= a && (a - r) % b == 0
    ensures a < 0 ==> -b < r <= 0 && (a - r) % b == 0
  {
    if a >= 0 then SubRemainder(a, b); a % b
    else SubRemainder(-a, b); NegateMultiple(-a - (-a) % b, b); -((-a) % b)
  }

  /** `AlignToCacheDefSize`: a row before the window is rounded down to the
      start of its page, a row after the window is rounded up to the end of
      its page (pages of `defSize` rows counted from the first row of the
      outer limits), a row inside the window is kept; the result is then
      clamped into the outer limits. */
  function AlignToPage(window: Range, outer: Range, defSize: int, point: int): (r: int)
    requires defSize > 0
    ensures outer.length > 0 ==> outer.IsInbound(r)
  {
    var pagePart := JavaRem(point - outer.first, defSize);
    var p := if point < window.first then point - pagePart
             else if point > window.Last() then point + defSize - pagePart - 1
             else point;
    var p' := if p < outer.first then outer.first else p;
    if p' > outer.Last() then outer.Last() else p'
  }

  /** Alignment keeps a row of the window. */
  lemma AlignKeepsRowInWindow(window: Range, outer: Range, defSize: int, point: int)
    requires defSize > 0 && outer.IsInbound(point) && window.IsInbound(point)
    ensures AlignToPage(window, outer, defSize, point) == point
  { }

  /** Alignment moves a row of the limits before the window back to the
      first row of its page (pages counted from the first row of the
      limits). */
  lemma AlignBeforeWindow(window: Range, outer: Range, defSize: int, point: int)
    requires defSize > 0 && outer.IsInbound(point) && point < window.first
    ensures var r := AlignToPage(window, outer, defSize, point);
            r <= point < r + defSize && (r - outer.first) % defSize == 0
  {
    var a := point - outer.first;
    var pagePart := JavaRem(a, defSize);
    assert 0 <= pagePart <= a && (a - pagePart) % defSize == 0;
    var r := point - pagePart;
    assert outer.first <= r <= point;
    assert AlignToPage(window, outer, defSize, point) == r;
    assert r - outer.first == a - pagePart;
  }

  /** Row `q` is the last row of a page, pages of `defSize` rows counted
      from the first row of the limits. */
  predicate EndsPage(outer: Range, defSize: int, q: int)
    requires defSize > 0
  {
    (q + 1 - outer.first) % defSize == 0
  }

  /** A non-zero multiple of `b` is at least `b` away from zero. */
  lemma MultipleSize(b: int, d: int)
    requires b > 0
    ensures d >= 1 ==> b * d >= b
    ensures d <= -1 ==> b * d <= -b
  {
    assert b * d == b + b * (d - 1);
    assert b * d == -b + b * (d + 1);
  }

  /** A multiple plus less than one divisor leaves that much over, so it is
      not a multiple. */
  lemma InsidePage(m: int, k: int, b: int)
    requires b > 0 && m % b == 0 && 0 < k < b
    ensures (m + k) % b == k
  {
    DivMod(m, b);
    DivMod(m + k, b);
    var d := (m + k) / b - m / b;
    assert b * d == k - (m + k) % b;
    MultipleSize(b, d);
  }

  /** Alignment moves a row of the limits after the window forward to the
      last row of its page, or to the last row of the limits when the page
      runs past them. */
  lemma AlignAfterWindow(window: Range, outer: Range, defSize: int, point: int)
    requires defSize > 0 && outer.IsInbound(point) && point > window.Last()
    ensures var r := AlignToPage(window, outer, defSize, point);
            && point <= r < point + defSize
            && (r == outer.Last() || EndsPage(outer, defSize, r))
            && forall q :: point <= q < r ==> !EndsPage(outer, defSize, q)
  {
    var a := point - outer.first;
    var pagePart := JavaRem(a, defSize);
    assert 0 <= pagePart <= a && (a - pagePart) % defSize == 0;
    var p := point + defSize - pagePart - 1;
    assert point <= p < point + defSize;
    if p <= outer.Last() {
      assert AlignToPage(window, outer, defSize, point) == p;
      assert p + 1 - outer.first == a - pagePart + defSize;
      AddDivisor(a - pagePart, defSize);
    } else {
      assert AlignToPage(window, outer, defSize, point) == outer.Last();
    }
    forall q | point <= q < p
      ensures !EndsPage(outer, defSize, q)
    {
      assert q + 1 - outer.first == (a - pagePart) + (q - point + pagePart + 1);
      InsidePage(a - pagePart, q - point + pagePart + 1, defSize);
    }
  }

  /** The side of the window a miss lies on. */
  datatype Side = Left | Right

  /** What `get` does with a requested row:
      - `Hit`: the row is in the window; nothing is fetched;
      - `Extend`: near miss; `span` is fetched and added on `side`;
      - `Slide`: shift; `evict` rows are dropped at the edge opposite to
        `side`, then `span` is fetched and added on `side`;
      - `Reload`: far miss; the window is cleared and `span` is fetched. */
  datatype Plan =
    | Hit
    | Extend(side: Side, span: Range)
    | Slide(side: Side, span: Range, evict: nat)
    | Reload(span: Range)

  /** The decision `get` takes for the row `index`. The target is the aligned
      row, the distance the number of rows between the window and the target;
      a distance up to `maxSize` extends the window, one below twice `maxSize`
      slides it, anything further reloads it at `index`. The side is that of
      the target, and a slide evicts as many rows as it fetches, but never more
      than the window holds. */
  function Classify(window: Range, outer: Range, defSize: int, maxSize: int, index: int): (p: Plan)
    requires defSize > 0
    ensures p.Hit? <==> window.IsInbound(index)
    ensures p.Extend? ==> p.span.length <= maxSize
    ensures p.Slide? ==> maxSize < p.span.length < 2 * maxSize
    ensures p.Slide? ==> p.evict == Min(p.span.length, window.length)
    ensures p.Reload? ==> p.span == Nested(index, defSize, outer)
    ensures !window.IsInbound(index) ==>
              var t := AlignToPage(window, outer, defSize, index);
              var d := Abs(window.MaxDistance(t));
              && (p.Extend? <==> d <= maxSize)
              && (p.Slide? <==> maxSize < d < 2 * maxSize)
              && (p.Reload? <==> maxSize < d && 2 * maxSize <= d)
              && (!p.Reload? ==> p.span == window.Complement(t) && (p.side == Left <==> t < window.first))
  {
    if window.IsInbound(index) then Hit
    else
      var target := AlignToPage(window, outer, defSize, index);
      var dist := Abs(window.MaxDistance(target));
      var span := window.Complement(target);
      var side := if target < window.first then Left else Right;
      if dist <= maxSize then Extend(side, span)
      else if dist < 2 * maxSize then Slide(side, span, Min(span.length, window.length))
      else Reload(Nested(index, defSize, outer))
  }

  /** The geometry of a miss: the span to fetch lies just outside the window,
      on the side of the requested row, inside the outer limits, and holds the
      requested row, less than a page away from the span's outer end; a far
      miss fetches from the requested row on. */
  lemma ClassifySpan(window: Range, outer: Range, defSize: int, maxSize: int, index: int)
    requires defSize > 0 && window.Within(outer)
    requires outer.IsInbound(index) && !window.IsInbound(index)
    ensures var p := Classify(window, outer, defSize, maxSize, index);
            && ((p.Extend? || p.Slide?) ==>
                  && p.span.IsInbound(index) && p.span.Within(outer)
                  && (p.side == Left <==> index < window.first)
                  && (p.side == Left ==> p.span.Last() + 1 == window.first && index - p.span.first < defSize)
                  && (p.side == Right ==> p.span.first == window.Last() + 1 && p.span.Last() - index < defSize))
            && (p.Reload? ==> p.span.first == index && p.span.length > 0 && p.span.Within(outer))
  {
    var target := AlignToPage(window, outer, defSize, index);
    var span := window.Complement(target);
    if index < window.first {
      AlignBeforeWindow(window, outer, defSize, index);
      assert target <= index < target + defSize;
      assert span.first == target && span.Last() + 1 == window.first;
    } else {
      AlignAfterWindow(window, outer, defSize, index);
      assert index <= target < index + defSize && target <= outer.Last();
      assert span.first == window.Last() + 1 && span.Last() == target;
    }
  }

  /** `purge(from, to)`: drops the rows at cache positions `from` to `to`,
      which must run to one edge of the window, and shortens the range by as
      many rows. Dropping at the front moves the first row forward past the
      rows dropped; dropping at the back leaves it where it is (the source
      moves it back, which module Findings keeps as written). */
  function PurgeWindow<T>(w: Window<T>, from: int, to: int, outer: Range): (r: Result<Window<T>, Error>)
    requires w.range.Within(outer)
    ensures r.Err? <==> from > to || (from != 0 && to != |w.rows| - 1) || from < 0 || to >= |w.rows|
    ensures r.Err? ==> (r.error == PreconditionViolation <==> from > to || (from != 0 && to != |w.rows| - 1))
    ensures r.Ok? ==> r.value.range.Within(outer)
    ensures r.Ok? && from == 0 ==> r.value.rows == w.rows[to + 1..]
    ensures r.Ok? && from != 0 ==> r.value.rows == w.rows[..from]
    ensures r.Ok? && w.WellFormed(outer) ==> r.value.WellFormed(outer)
    ensures r.Ok? && w.WellFormed(outer) && from == 0 ==> r.value.range.first == w.range.first + to + 1
    ensures r.Ok? && from != 0 ==> r.value.range.first == w.range.first
  {
    if from > to || (from != 0 && to != |w.rows| - 1) then Err(PreconditionViolation)
    else if from < 0 || to >= |w.rows| then Err(IndexOutOfRange)
    else
      var delta := to - from + 1;
      var range := w.range.IncLength(-delta, outer);
      var range' := if from == 0 then range.SetFirst(range.first + delta, outer) else range;
      Ok(Window(range', w.rows[..from] + w.rows[to + 1..]))
  }

  /** Purging the last `k` rows keeps the others, whether `purge` takes the
      run for a back run or, when it is the whole window, for a front run. */
  lemma PurgeLastRows<T>(w: Window<T>, k: nat, outer: Range)
    requires w.WellFormed(outer) && 0 < k <= |w.rows|
    ensures var r := PurgeWindow(w, |w.rows| - k, |w.rows| - 1, outer);
            r.Ok? && r.value.WellFormed(outer) && r.value.rows == w.rows[..|w.rows| - k]
  { }

  /** A window holding a run of another window's rows, at the same row
      numbers, holds the source's rows when the other one does. */
  lemma SubWindowKeepsCoherence<T>(w: Window<T>, w': Window<T>, d: nat, src: Source<T>)
    requires Coherent(w, src)
    requires w'.range.first == w.range.first + d && d + |w'.rows| <= |w.rows|
    requires forall i :: 0 <= i < |w'.rows| ==> w'.rows[i] == w.rows[d + i]
    ensures Coherent(w', src)
  {
    forall n | w'.range.first <= n < w'.range.first + |w'.rows|
      ensures src.Has(n) && w'.rows[n - w'.range.first] == src.Row(n)
    {
      assert w'.rows[n - w'.range.first] == w.rows[n - w.range.first];
    }
  }

  /** Evicting at either edge keeps the window holding the source's own
      rows, each at its own row number. */
  lemma PurgeKeepsCoherence<T>(w: Window<T>, from: int, to: int, src: Source<T>)
    requires w.WellFormed(src.limits) && Coherent(w, src)
    requires PurgeWindow(w, from, to, src.limits).Ok?
    ensures Coherent(PurgeWindow(w, from, to, src.limits).value, src)
  {
    var w' := PurgeWindow(w, from, to, src.limits).value;
    if from == 0 {
      assert w'.range.first == w.range.first + to + 1 && w'.rows == w.rows[to + 1..];
      SubWindowKeepsCoherence(w, w', to + 1, src);
    } else {
      assert w'.range.first == w.range.first && w'.rows == w.rows[..from];
      SubWindowKeepsCoherence(w, w', 0, src);
    }
  }

  /** `addAll(index, c)`: inserts `c` before the row numbered `at`, which must
      lie in the window or just after it, and lengthens the range by `|c|`
      (the lengthening is clamped into the outer limits, the insertion is
      not). */
  function InsertRows<T>(w: Window<T>, at: int, c: seq<T>, outer: Range): (r: Result<Window<T>, Error>)
    requires w.range.Within(outer)
    ensures r.Err? <==> !(0 <= at - w.range.first <= |w.rows|)
    ensures r.Err? ==> r.error == IndexOutOfRange
    ensures r.Ok? ==> r.value.range.first == w.range.first && r.value.range.Within(outer)
    ensures r.Ok? && w.WellFormed(outer) && w.range.first + |w.rows| + |c| <= outer.first + outer.length ==>
              r.value.WellFormed(outer)
  {
    var p := at - w.range.first;
    if 0 <= p <= |w.rows| then
      Ok(Window(w.range.IncLength(|c|, outer), w.rows[..p] + c + w.rows[p..]))
    else Err(IndexOutOfRange)
  }

  /** The rows `addAll` inserts sit at the requested row number, the rows
      before it stay where they were, and the rows from it on move up by
      `|c|`. */
  lemma InsertRowsPlacesRows<T>(w: Window<T>, at: int, c: seq<T>, outer: Range)
    requires w.range.Within(outer) && 0 <= at - w.range.first <= |w.rows|
    ensures var r := InsertRows(w, at, c, outer);
            var p := at - w.range.first;
            && r.Ok? && |r.value.rows| == |w.rows| + |c|
            && (forall i :: 0 <= i < p ==> r.value.rows[i] == w.rows[i])
            && (forall i :: 0 <= i < |c| ==> r.value.rows[p + i] == c[i])
            && (forall i :: p <= i < |w.rows| ==> r.value.rows[i + |c|] == w.rows[i])
  { }

  /** The window after a miss is served by `p`, the source returning what
      `Fetch` returns: an extension adds the fetched rows on its side, a slide
      first drops `evict` rows at the other edge, a reload replaces the window.
      A window that grows on the left starts at the first fetched row. */
  function Apply<T>(p: Plan, w: Window<T>, src: Source<T>): (w': Window<T>)
    requires p.Slide? ==> p.evict <= |w.rows|
    ensures p.Hit? ==> w' == w
    ensures p.Extend? ==> |w'.rows| == |w.rows| + |src.Fetch(p.span)|
    ensures p.Slide? ==> |w'.rows| == |w.rows| - p.evict + |src.Fetch(p.span)|
    ensures p.Reload? ==> w'.rows == src.Fetch(p.span)
  {
    match p
    case Hit => w
    case Extend(Right, span) =>
      var f := src.Fetch(span);
      Window(Range(w.range.first, |w.rows| + |f|), w.rows + f)
    case Extend(Left, span) =>
      var f := src.Fetch(span);
      Window(Range(span.first, |w.rows| + |f|), f + w.rows)
    case Slide(Right, span, k) =>
      var f := src.Fetch(span);
      Window(Range(w.range.first + k, |w.rows| - k + |f|), w.rows[k..] + f)
    case Slide(Left, span, k) =>
      var f := src.Fetch(span);
      Window(Range(span.first, |w.rows| - k + |f|), f + w.rows[..|w.rows| - k])
    case Reload(span) =>
      var f := src.Fetch(span);
      Window(Range(span.first, |f|), f)
  }

  /** Where the rows land after a miss: the range counts the rows held; an
      extension on the right keeps the first row and the old rows and appends
      the fetched ones; one on the left starts at the span, the fetched rows
      before the old ones; a slide to the right moves the first row on past
      the evicted rows and keeps the rest before the fetched ones; one to the
      left starts at the span, the fetched rows before what is left of the
      old ones; a reload starts at the span. */
  lemma ApplyPlacesRows<T>(p: Plan, w: Window<T>, src: Source<T>)
    requires p.Slide? ==> p.evict <= |w.rows|
    ensures var w', f := Apply(p, w, src), if p.Hit? then [] else src.Fetch(p.span);
            && (!p.Hit? ==> w'.range.length == |w'.rows|)
            && (p.Extend? && p.side == Right ==>
                  w'.range.first == w.range.first && w'.rows[..|w.rows|] == w.rows && w'.rows[|w.rows|..] == f)
            && (p.Extend? && p.side == Left ==>
                  w'.range.first == p.span.first && w'.rows[..|f|] == f && w'.rows[|f|..] == w.rows)
            && (p.Slide? && p.side == Right ==>
                  && w'.range.first == w.range.first + p.evict
                  && w'.rows[..|w.rows| - p.evict] == w.rows[p.evict..] && w'.rows[|w.rows| - p.evict..] == f)
            && (p.Slide? && p.side == Left ==>
                  && w'.range.first == p.span.first
                  && w'.rows[..|f|] == f && w'.rows[|f|..] == w.rows[..|w.rows| - p.evict])
            && (p.Reload? ==> w'.range.first == p.span.first)
  {
    match p
    case Hit =>
    case Extend(Right, span) =>
      var f := src.Fetch(span);
      assert (w.rows + f)[..|w.rows|] == w.rows && (w.rows + f)[|w.rows|..] == f;
    case Extend(Left, span) =>
      var f := src.Fetch(span);
      assert (f + w.rows)[..|f|] == f && (f + w.rows)[|f|..] == w.rows;
    case Slide(Right, span, k) =>
      var f := src.Fetch(span);
      assert (w.rows[k..] + f)[..|w.rows| - k] == w.rows[k..] && (w.rows[k..] + f)[|w.rows| - k..] == f;
    case Slide(Left, span, k) =>
      var f, kept := src.Fetch(span), w.rows[..|w.rows| - k];
      assert (f + kept)[..|f|] == f && (f + kept)[|f|..] == kept;
    case Reload(span) =>
  }

  /** The rows fetched for a range inside the limits, placed at the range's
      first row, make a well-formed coherent window, and a complete source
      fills the whole range. */
  lemma FetchedWindow<T>(src: Source<T>, r: Range)
    requires r.Within(src.limits)
    ensures var f := src.Fetch(r);
            var w := Window(Range(r.first, |f|), f);
            && w.WellFormed(src.limits) && Coherent(w, src)
            && (src.Complete() ==> w.range == r)
  {
    if src.Complete() {
      src.FetchWithinLimits(r);
    }
  }

  /** Fetching just left of a non-empty coherent window returns every row
      asked for: the rows before the window's first row exist. */
  lemma FetchBeforeWindow<T>(w: Window<T>, src: Source<T>, span: Range)
    requires Coherent(w, src) && |w.rows| > 0
    requires span.Within(src.limits) && span.Last() + 1 == w.range.first
    ensures |src.Fetch(span)| == span.length
  {
    assert src.Has(w.range.first);
  }

  /** A slide to the right (an extension being a slide that evicts nothing)
      keeps the window well formed and coherent. */
  lemma SlideRightKeepsCoherence<T>(w: Window<T>, src: Source<T>, span: Range, k: nat)
    requires w.WellFormed(src.limits) && Coherent(w, src) && k <= |w.rows|
    requires span.Within(src.limits) && span.first == w.range.first + |w.rows|
    ensures var w' := Apply(Slide(Right, span, k), w, src);
            w'.WellFormed(src.limits) && Coherent(w', src)
  {
    var f := src.Fetch(span);
    var w' := Apply(Slide(Right, span, k), w, src);
    forall n | w'.range.first <= n < w'.range.first + |w'.rows|
      ensures src.Has(n) && w'.rows[n - w'.range.first] == src.Row(n)
    {
      if n < span.first {
        assert w'.rows[n - w'.range.first] == w.rows[n - w.range.first];
      } else {
        assert w'.rows[n - w'.range.first] == f[n - span.first];
      }
    }
  }

  /** A slide to the left keeps the window well formed and coherent. */
  lemma SlideLeftKeepsCoherence<T>(w: Window<T>, src: Source<T>, span: Range, k: nat)
    requires w.WellFormed(src.limits) && Coherent(w, src) && k <= |w.rows|
    requires span.Within(src.limits) && span.Last() + 1 == w.range.first
    ensures var w' := Apply(Slide(Left, span, k), w, src);
            w'.WellFormed(src.limits) && Coherent(w', src)
  {
    var f := src.Fetch(span);
    var w' := Apply(Slide(Left, span, k), w, src);
    if |w.rows| > 0 {
      FetchBeforeWindow(w, src, span);
    }
    forall n | w'.range.first <= n < w'.range.first + |w'.rows|
      ensures src.Has(n) && w'.rows[n - w'.range.first] == src.Row(n)
    {
      if n < span.first + |f| {
        assert w'.rows[n - w'.range.first] == f[n - span.first];
      } else {
        assert w'.rows[n - w'.range.first] == w.rows[n - w.range.first];
      }
    }
  }

  /** Serving a miss keeps the window inside the outer limits, its range
      counting the rows it holds, and every row the source's own. */
  lemma ApplyKeepsCoherence<T>(w: Window<T>, src: Source<T>, defSize: int, maxSize: int, index: int)
    requires defSize > 0 && w.WellFormed(src.limits) && Coherent(w, src)
    requires src.limits.IsInbound(index)
    ensures var w' := Apply(Classify(w.range, src.limits, defSize, maxSize, index), w, src);
            w'.WellFormed(src.limits) && Coherent(w', src)
  {
    var p := Classify(w.range, src.limits, defSize, maxSize, index);
    if !p.Hit? {
      ClassifySpan(w.range, src.limits, defSize, maxSize, index);
    }
    PlanKeepsCoherence(p, w, src);
  }

  /** Any plan whose span lies just outside the window, on its own side, and
      that evicts no more rows than the window holds, keeps the window well
      formed and coherent. */
  lemma PlanKeepsCoherence<T>(p: Plan, w: Window<T>, src: Source<T>)
    requires w.WellFormed(src.limits) && Coherent(w, src)
    requires !p.Hit? ==> p.span.Within(src.limits)
    requires (p.Extend? || p.Slide?) && p.side == Right ==> p.span.first == w.range.first + |w.rows|
    requires (p.Extend? || p.Slide?) && p.side == Left ==> p.span.Last() + 1 == w.range.first
    requires p.Slide? ==> p.evict <= |w.rows|
    ensures Apply(p, w, src).WellFormed(src.limits) && Coherent(Apply(p, w, src), src)
  {
    match p
    case Hit =>
    case Extend(side, span) =>
      assert Apply(p, w, src) == Apply(Slide(side, span, 0), w, src);
      if side == Right {
        SlideRightKeepsCoherence(w, src, span, 0);
      } else {
        SlideLeftKeepsCoherence(w, src, span, 0);
      }
    case Slide(side, span, k) =>
      if side == Right {
        SlideRightKeepsCoherence(w, src, span, k);
      } else {
        SlideLeftKeepsCoherence(w, src, span, k);
      }
    case Reload(span) =>
  }

  /** Served from a source that holds every row it reports, a miss on a row
      of the outer limits leaves that row in the window. */
  lemma ApplyCovers<T>(w: Window<T>, src: Source<T>, defSize: int, maxSize: int, index: int)
    requires defSize > 0 && w.WellFormed(src.limits) && src.Complete()
    requires src.limits.IsInbound(index)
    ensures Apply(Classify(w.range, src.limits, defSize, maxSize, index), w, src).range.IsInbound(index)
  {
    var p := Classify(w.range, src.limits, defSize, maxSize, index);
    if !p.Hit? {
      ClassifySpan(w.range, src.limits, defSize, maxSize, index);
      src.FetchWithinLimits(p.span);
    }
  }

  /** `addAll(range.getLast()+1, rows)` appends exactly as an extension on
      the right does. */
  lemma AppendAsWritten<T>(w: Window<T>, src: Source<T>, span: Range)
    requires w.WellFormed(src.limits) && span.Within(src.limits)
    requires span.first == w.range.first + |w.rows|
    ensures InsertRows(w, w.range.Last() + 1, src.Fetch(span), src.limits)
            == Ok(Apply(Extend(Right, span), w, src))
    ensures Apply(Extend(Right, span), w, src) == Apply(Slide(Right, span, 0), w, src)
  {
    var f := src.Fetch(span);
    var grown := Window(Range(w.range.first, |w.rows| + |f|), w.rows + f);
    assert Apply(Extend(Right, span), w, src) == grown;
    assert InsertRows(w, w.range.Last() + 1, f, src.limits) == Ok(grown) by {
      assert w.rows + f == w.rows[..|w.rows|] + f + w.rows[|w.rows|..];
    }
    assert Apply(Slide(Right, span, 0), w, src) == grown by {
      assert w.rows[0..] == w.rows;
    }
  }

  /** A front purge of `k` rows followed by an append is a slide to the
      right, as long as the window holds at least `k` rows. */
  lemma PurgeFrontThenAppend<T>(w: Window<T>, src: Source<T>, span: Range, k: nat)
    requires w.WellFormed(src.limits) && span.Within(src.limits)
    requires span.first == w.range.first + |w.rows| && 0 < k <= |w.rows|
    ensures PurgeWindow(w, 0, k - 1, src.limits).Ok?
    ensures var w1 := PurgeWindow(w, 0, k - 1, src.limits).value;
            InsertRows(w1, w1.range.Last() + 1, src.Fetch(span), src.limits)
            == Ok(Apply(Slide(Right, span, k), w, src))
  {
    var w1 := PurgeWindow(w, 0, k - 1, src.limits).value;
    var f := src.Fetch(span);
    assert w1.rows + f == w1.rows[..|w1.rows|] + f + w1.rows[|w1.rows|..];
  }

  /** The steps of a slide to the right, evicting nothing or a front run of
      `k` rows, then appending: together they make the slide. */
  lemma SlideRightInSteps<T>(w: Window<T>, src: Source<T>, span: Range, k: nat)
    requires w.WellFormed(src.limits) && span.Within(src.limits)
    requires span.first == w.range.first + |w.rows| && k <= |w.rows|
    ensures k > 0 ==> PurgeWindow(w, 0, k - 1, src.limits).Ok?
    ensures var w1 := if k > 0 then PurgeWindow(w, 0, k - 1, src.limits).value else w;
            InsertRows(w1, w1.range.Last() + 1, src.Fetch(span), src.limits)
            == Ok(Apply(Slide(Right, span, k), w, src))
  {
    if k > 0 {
      PurgeFrontThenAppend(w, src, span, k);
    } else {
      AppendAsWritten(w, src, span);
    }
  }

  /** Clearing, adding at the old first row and then moving the first row to
      `span.first` is a reload, as long as the fetched rows fit after the old
      first row. */
  lemma ClearAddThenMove<T>(w: Window<T>, src: Source<T>, span: Range)
    requires w.WellFormed(src.limits) && span.Within(src.limits)
    requires w.range.first + |src.Fetch(span)| <= src.limits.first + src.limits.length
    ensures var cleared := Window(Range(w.range.first, 0), []);
            var r := InsertRows(cleared, cleared.range.first, src.Fetch(span), src.limits);
            r.Ok? && Window(r.value.range.SetFirst(span.first, src.limits), r.value.rows)
                     == Apply(Reload(span), w, src)
  {
    var f := src.Fetch(span);
    FillEmpty(w.range.first, f, src.limits);
    assert Range(w.range.first, |f|).SetFirst(span.first, src.limits) == Range(span.first, |f|);
  }

  /** Adding rows to an empty window at its first row fills it with them,
      when they fit inside the limits. */
  lemma FillEmpty<T>(first: int, f: seq<T>, outer: Range)
    requires outer.first <= first && first + |f| <= outer.first + outer.length
    ensures InsertRows(Window(Range(first, 0), []), first, f, outer) == Ok(Window(Range(first, |f|), f))
  {
    var none: seq<T> := [];
    assert none[..0] + f + none[0..] == f;
  }

  /** Moving the first row to the start of the span just fetched and then
      inserting the fetched rows at cache position 0 prepends them: the way
      the window grows on the left (and, from an empty window, reloads). */
  lemma ReanchorThenPrepend<T>(w: Window<T>, f: seq<T>, span: Range, outer: Range)
    requires w.WellFormed(outer) && span.Within(outer)
    requires span.first + |f| + |w.rows| <= outer.first + outer.length
    ensures var w1 := Window(w.range.SetFirst(span.first, outer), w.rows);
            InsertRows(w1, span.first, f, outer) == Ok(Window(Range(span.first, |f| + |w.rows|), f + w.rows))
  {
    assert f + w.rows == w.rows[..0] + f + w.rows[0..];
  }

}
