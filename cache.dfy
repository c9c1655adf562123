/** `DataCacheRolling`: a window of rows of a row source held in memory,
    moved along the source as rows are asked for, and a ledger of pending
    changes written back on `flush`. Each method carries out, step by step on
    the fields, what module Windowing states as values. */
module Cache {
  import opened Wrappers
  import opened Ranges
  import opened Changes
  import opened Sources
  import opened Windowing

  /** What the merged iteration yields: a row of the window, or a pending
      ledger entry. */
  datatype Item<T(==)> = Row(row: T) | Pending(change: Change<T>)

  /** The loop of `purge`: the row at position `from` is removed once for
      every position from `from` to `to`, which takes out exactly the rows at
      positions `from` to `to` and keeps the others in order. */
  method RemoveRun<T>(s: seq<T>, from: int, to: int) returns (r: seq<T>)
    requires 0 <= from <= to < |s|
    ensures r == s[..from] + s[to + 1..]
  {
    r := s;
    var i := from;
    while i <= to
      invariant from <= i <= to + 1
      invariant r == s[..from] + s[i..]
    {
      r := r[..from] + r[from + 1..];
      i := i + 1;
    }
  }

  class RollingCache<K(==), T(==)> {
    /** The row source (`dataFetcher`), fixed for the life of the cache. */
    const source: Source<T>
    /** `outerLimits`: the rows the source reports. */
    const outer: Range
    /** `defSize`, the page size, and `maxSize`, the distance up to which a
        miss extends the window. */
    const defSize: int
    const maxSize: int
    /** `range` and `dataReadOnly`: the window and its rows. */
    var range: Range
    var rows: seq<T>
    /** `dataNewValues`: the pending changes, by key. */
    var ledger: map<K, Change<T>>

    /** The page size is positive, the limits are the source's, and the
        window lies inside them. */
    ghost predicate Valid()
      reads this
    {
      defSize > 0 && outer == source.limits && range.Within(outer)
    }

    /** The range counts exactly the rows held. */
    predicate Tracks()
      reads this
    {
      range.length == |rows|
    }

    /** The window as a value. */
    function State(): Window<T>
      reads this
    {
      Window(range, rows)
    }

    /** Every row held is the source's row of that number. */
    ghost predicate HoldsSourceRows()
      reads this
    {
      Coherent(State(), source)
    }

    /** `DataCacheRolling(dataFetcher)`: pages of 100 rows, a maximum of 300,
        an empty window at the first row of the limits, an empty ledger. */
    constructor (source: Source<T>)
      ensures Valid() && Tracks() && HoldsSourceRows()
      ensures this.source == source && defSize == 100 && maxSize == 300
      ensures State() == Window(Range(source.limits.first, 0), []) && ledger == map[]
    {
      this.source := source;
      outer := source.limits;
      defSize := 100;
      maxSize := 300;
      range := Range(source.limits.first, 0);
      rows := [];
      ledger := map[];
    }

    /** `DataCacheRolling(dataFetcher, defSize, maxSize)`. */
    constructor WithSizes(source: Source<T>, defSize: int, maxSize: int)
      requires defSize > 0
      ensures Valid() && Tracks() && HoldsSourceRows()
      ensures this.source == source && this.defSize == defSize && this.maxSize == maxSize
      ensures State() == Window(Range(source.limits.first, 0), []) && ledger == map[]
    {
      this.source := source;
      outer := source.limits;
      this.defSize := defSize;
      this.maxSize := maxSize;
      range := Range(source.limits.first, 0);
      rows := [];
      ledger := map[];
    }

    /** `toCacheIndex`: the position of row `n` in the list; it is a position
        of the list exactly when the row is in the window. */
    function ToCacheIndex(n: int): (i: int)
      reads this
      ensures ToDataRowNo(i) == n
      ensures Tracks() ==> (0 <= i < |rows| <==> ContainsIndex(n))
    {
      n - range.first
    }

    /** `toDataRowNo`: the row number of list position `i`. */
    function ToDataRowNo(i: int): (n: int)
      reads this
    {
      i + range.first
    }

    /** `containsIndex`, on the window: the row lies in the range, and so,
        while the range counts the rows held, at a position of the list. */
    predicate ContainsIndex(n: int)
      reads this
      ensures ContainsIndex(n) <==> range.first <= n < range.first + range.length
      ensures Tracks() ==> (ContainsIndex(n) <==> 0 <= n - range.first < |rows|)
    {
      range.IsInbound(n)
    }

    /** A row held is a row of the limits, so a `get` that hits never reaches
        past them. */
    lemma ContainedRowsAreInLimits(n: int)
      requires Valid() && ContainsIndex(n)
      ensures outer.IsInbound(n)
    { }

    /** A row held, in a cache holding the source's own rows, is the
        source's row of that number. */
    lemma HeldRowIsSourceRow(n: int)
      requires Tracks() && HoldsSourceRows() && ContainsIndex(n)
      ensures source.Has(n) && rows[ToCacheIndex(n)] == source.Row(n)
    { }

    /** `size`: the rows held and the pending entries; while the range
        counts the rows held, the window's length and the pending entries. */
    function Size(): (n: nat)
      reads this
      ensures n >= |ledger| && n - |ledger| == |rows|
      ensures Tracks() ==> n == range.length + |ledger|
    {
      |rows| + |ledger|
    }

    /** `isEmpty`: no row held and no pending entry. */
    function IsEmpty(): (b: bool)
      reads this
      ensures b <==> Size() == 0
    {
      rows == [] && ledger == map[]
    }

    /** `purge(from, to)`: removes the rows at list positions `from` to `to`
        one at a time, then shortens the range; a run at the front moves the
        first row forward past it, a run at the back leaves the first row
        where it is (the source moves it back: see `Findings.BackPurgeMovesWindow`).
        An error leaves the cache unchanged. */
    method Purge(from: int, to: int) returns (r: Result<bool, Error>)
      requires Valid()
      modifies this
      ensures Valid() && ledger == old(ledger)
      ensures var pw := PurgeWindow(old(State()), from, to, outer);
              && (pw.Err? ==> r == Err(pw.error) && State() == old(State()))
              && (pw.Ok? ==> r == Ok(true) && State() == pw.value)
    {
      if from > to || (from != 0 && to != |rows| - 1) {
        return Err(PreconditionViolation);
      }
      if from < 0 || to >= |rows| {
        return Err(IndexOutOfRange);
      }
      ghost var pw := PurgeWindow(State(), from, to, outer);
      var list := RemoveRun(rows, from, to);
      var delta := to - from + 1;
      var shorter := range.IncLength(-delta, outer);
      if from == 0 {
        shorter := shorter.SetFirst(shorter.first + delta, outer);
      }
      assert pw == Ok(Window(shorter, list));
      rows, range := list, shorter;
      r := Ok(from <= to);
    }

    /** `clear`: drops every row and sets the length to 0; the first row and
        the ledger are kept. */
    method Clear()
      requires Valid()
      modifies this
      ensures Valid() && Tracks() && HoldsSourceRows()
      ensures State() == Window(Range(old(range.first), 0), []) && ledger == old(ledger)
    {
      rows := [];
      range := Range(range.first, 0);
    }

    /** `addAll(index, c)`: a null collection changes nothing and returns
        false; otherwise the rows are inserted before row `at` as
        `InsertRows` says, and the result tells whether the list grew. */
    method AddAll(at: int, c: Option<seq<T>>) returns (r: Result<bool, Error>)
      requires Valid()
      modifies this
      ensures Valid() && ledger == old(ledger)
      ensures c.None? ==> r == Ok(false) && State() == old(State())
      ensures c.Some? ==>
                var ins := InsertRows(old(State()), at, c.value, outer);
                && (ins.Err? ==> r == Err(ins.error) && State() == old(State()))
                && (ins.Ok? ==> r == Ok(c.value != []) && State() == ins.value)
    {
      if c.None? {
        return Ok(false);
      }
      var pos := ToCacheIndex(at);
      if !(0 <= pos <= |rows|) {
        return Err(IndexOutOfRange);
      }
      rows := rows[..pos] + c.value + rows[pos..];
      range := range.IncLength(|c.value|, outer);
      r := Ok(c.value != []);
    }

    /** `addAll(c)`: the rows are appended after the last row held and the
        range is lengthened by `|c|`, clamped into the limits; this is
        `addAll(index, c)` at the row after the last one held. A null
        collection lengthens nothing and the list then throws. */
    method Append(c: Option<seq<T>>) returns (r: Result<bool, Error>)
      requires Valid()
      modifies this
      ensures Valid() && ledger == old(ledger)
      ensures c.None? ==> r == Err(NullArgument) && State() == old(State())
      ensures c.Some? ==>
                && r == Ok(c.value != [])
                && InsertRows(old(State()), old(range.first + |rows|), c.value, outer) == Ok(State())
      ensures c.Some? && old(Tracks()) && old(range.first + |rows|) + |c.value| <= outer.first + outer.length ==>
                Tracks()
    {
      if c.None? {
        return Err(NullArgument);
      }
      assert rows[..|rows|] + c.value + rows[|rows|..] == rows + c.value;
      range := range.IncLength(|c.value|, outer);
      rows := rows + c.value;
      r := Ok(c.value != []);
    }

    /** `refresh`: reloads the rows of the window from the source; the first
        row is kept, and the length becomes the number of rows the source
        returned. */
    method Refresh()
      requires Valid()
      modifies this
      ensures Valid() && Tracks() && HoldsSourceRows() && ledger == old(ledger)
      ensures range.first == old(range.first) && rows == source.Fetch(old(range))
      ensures source.Complete() ==> range == old(range)
    {
      var r := range;
      Clear();
      var f := source.Fetch(r);
      ghost var cleared := State();
      assert cleared.range.SetFirst(r.first, outer) == cleared.range;
      ReanchorThenPrepend(cleared, f, r, outer);
      FetchedWindow(source, r);
      var _ := AddAll(r.first, Some(f));
    }

    /** The near-miss branch of `get`: the rows of `span` are fetched and
        added on `side`; on the left the first row moves to the span's first
        row before they are inserted. */
    method ServeExtend(side: Side, span: Range)
      requires Valid() && Tracks() && span.Within(outer)
      requires side == Right ==> span.first == range.first + |rows|
      requires side == Left ==> span.Last() + 1 == range.first
      modifies this
      ensures Valid() && Tracks() && ledger == old(ledger)
      ensures State() == Apply(Extend(side, span), old(State()), source)
    {
      ghost var w := State();
      var f := source.Fetch(span);
      if side == Right {
        AppendAsWritten(w, source, span);
        var _ := AddAll(range.Last() + 1, Some(f));
      } else {
        range := range.SetFirst(span.first, outer);
        ReanchorThenPrepend(w, f, span, outer);
        var _ := AddAll(span.first, Some(f));
      }
    }

    /** The shift branch of `get` towards higher rows: the first `k` rows
        are purged, then the rows of `span` are fetched and appended. */
    method ServeSlideRight(span: Range, k: nat)
      requires Valid() && Tracks() && span.Within(outer) && k <= |rows|
      requires span.first == range.first + |rows|
      modifies this
      ensures Valid() && Tracks() && ledger == old(ledger)
      ensures State() == Apply(Slide(Right, span, k), old(State()), source)
    {
      ghost var w := State();
      var f := source.Fetch(span);
      SlideRightInSteps(w, source, span, k);
      if k > 0 {
        var _ := Purge(0, k - 1);
      }
      assert State() == if k > 0 then PurgeWindow(w, 0, k - 1, outer).value else w;
      var _ := AddAll(range.Last() + 1, Some(f));
    }

    /** The shift branch of `get` towards lower rows: the last `k` rows are
        purged, the first row moves to the span's first row, and the rows of
        `span` are fetched and inserted before the rest. */
    method ServeSlideLeft(span: Range, k: nat)
      requires Valid() && Tracks() && span.Within(outer) && k <= |rows|
      requires span.Last() + 1 == range.first
      modifies this
      ensures Valid() && Tracks() && ledger == old(ledger)
      ensures State() == Apply(Slide(Left, span, k), old(State()), source)
    {
      ghost var w := State();
      var f := source.Fetch(span);
      if k > 0 {
        PurgeLastRows(w, k, outer);
        var _ := Purge(|rows| - k, |rows| - 1);
      }
      ghost var kept := State();
      assert kept.WellFormed(outer) && kept.rows == w.rows[..|w.rows| - k];
      assert span.first + |f| + |kept.rows| <= outer.first + outer.length;
      assert Apply(Slide(Left, span, k), w, source) == Window(Range(span.first, |f| + |kept.rows|), f + kept.rows);
      range := range.SetFirst(span.first, outer);
      ReanchorThenPrepend(kept, f, span, outer);
      var _ := AddAll(span.first, Some(f));
    }

    /** The far-miss branch of `get`: the window is cleared, its first row
        moved to the span's first row, and the rows of `span` fetched into
        it. */
    method ServeReload(span: Range)
      requires Valid() && Tracks() && span.Within(outer)
      modifies this
      ensures Valid() && Tracks() && ledger == old(ledger)
      ensures State() == Apply(Reload(span), old(State()), source)
    {
      var f := source.Fetch(span);
      Clear();
      ghost var cleared := State();
      range := range.SetFirst(span.first, outer);
      ReanchorThenPrepend(cleared, f, span, outer);
      var _ := AddAll(span.first, Some(f));
    }

    /** A miss on a row of the limits, served as the classification says. */
    method ServeMiss(index: int)
      requires Valid() && Tracks() && outer.IsInbound(index) && !ContainsIndex(index)
      modifies this
      ensures Valid() && Tracks() && ledger == old(ledger)
      ensures State() == Apply(Classify(old(range), outer, defSize, maxSize, index), old(State()), source)
    {
      var plan := Classify(range, outer, defSize, maxSize, index);
      ClassifySpan(range, outer, defSize, maxSize, index);
      match plan {
        case Hit =>
          assert false;
        case Extend(side, span) =>
          ServeExtend(side, span);
        case Slide(Right, span, k) =>
          ServeSlideRight(span, k);
        case Slide(Left, span, k) =>
          ServeSlideLeft(span, k);
        case Reload(span) =>
          ServeReload(span);
      }
    }

    /** `get(index)`: a row in the window is returned without fetching;
        otherwise the miss is classified and served as `Apply` says (the
        window extended, slid or reloaded, with every fetched row taken from
        the source), and the row is then looked up again. The rows held stay
        the source's own, so a row returned is the source's row; from a source
        holding every row it reports, every row of the limits is returned. */
    method Get(index: int) returns (r: Result<T, Error>)
      requires Valid() && Tracks()
      modifies this
      ensures Valid() && Tracks() && ledger == old(ledger)
      ensures old(ContainsIndex(index)) ==> State() == old(State())
      ensures !outer.IsInbound(index) ==> r == Err(IndexOutOfRange) && State() == old(State())
      ensures outer.IsInbound(index) ==>
                State() == Apply(Classify(old(range), outer, defSize, maxSize, index), old(State()), source)
      ensures r.Ok? <==> ContainsIndex(index)
      ensures r.Ok? ==> r.value == rows[ToCacheIndex(index)]
      ensures old(HoldsSourceRows()) ==> HoldsSourceRows()
      ensures old(HoldsSourceRows()) && r.Ok? ==> source.Has(index) && r.value == source.Row(index)
      ensures source.Complete() && outer.IsInbound(index) ==> r.Ok?
    {
      if ContainsIndex(index) {
        r := Ok(rows[ToCacheIndex(index)]);
        if HoldsSourceRows() {
          HeldRowIsSourceRow(index);
        }
        return;
      }
      if !outer.IsInbound(index) {
        return Err(IndexOutOfRange);
      }
      ghost var w := State();
      ghost var coherent := HoldsSourceRows();
      ServeMiss(index);
      if coherent {
        ApplyKeepsCoherence(w, source, defSize, maxSize, index);
      }
      if source.Complete() {
        ApplyCovers(w, source, defSize, maxSize, index);
      }
      var i := ToCacheIndex(index);
      if 0 <= i < |rows| {
        r := Ok(rows[i]);
        if coherent {
          HeldRowIsSourceRow(index);
        }
      } else {
        r := Err(IndexOutOfRange);
      }
    }

    /** `flush`: on a read-only source, fails and changes nothing; otherwise
        every ledger entry is visited once, in no particular order, the writer
        is called for each changed entry (the new value inserted or updated,
        the old value deleted) and each unchanged entry is dropped. The window
        is never touched, and the entries written stay in the ledger, still
        owing the same writes. */
    method Flush() returns (r: Outcome<Error>, calls: seq<Write<T>>)
      modifies this
      ensures State() == old(State())
      ensures !source.writable ==> r == Fail(UnsupportedOperation) && calls == [] && ledger == old(ledger)
      ensures source.writable ==> r == Pass && multiset(calls) == Owed(old(ledger))
      ensures source.writable ==> ledger == Kept(old(ledger), {}) && Owed(ledger) == Owed(old(ledger))
    {
      if !source.writable {
        return Fail(UnsupportedOperation), [];
      }
      ledger, calls := VisitLedger(ledger);
      r := Pass;
    }

    /** The ledger's entries as two lists, keys and changes, in no particular
        order: each key once, each with its own change. */
    method PendingEntries() returns (keys: seq<K>, changes: seq<Change<T>>)
      ensures |keys| == |changes| == |ledger|
      ensures forall i :: 0 <= i < |keys| ==> keys[i] in ledger && changes[i] == ledger[keys[i]]
      ensures forall i, j :: 0 <= i < j < |keys| ==> keys[i] != keys[j]
      ensures forall k :: k in ledger ==> k in keys
    {
      var rest := ledger.Keys;
      keys, changes := [], [];
      while rest != {}
        invariant rest <= ledger.Keys
        invariant |keys| == |changes| && |keys| + |rest| == |ledger|
        invariant forall i :: 0 <= i < |keys| ==> keys[i] in ledger && keys[i] !in rest && changes[i] == ledger[keys[i]]
        invariant forall i, j :: 0 <= i < j < |keys| ==> keys[i] != keys[j]
        invariant forall k :: k in ledger ==> k in rest || k in keys
        decreases |rest|
      {
        var k :| k in rest;
        keys, changes := keys + [k], changes + [ledger[k]];
        rest := rest - {k};
      }
    }

    /** `iterator`: a fresh iterator over the rows held, then the pending
        entries; it yields `Size()` items. */
    method Iterator() returns (it: TwinIterator<T>)
      ensures fresh(it) && it.Valid() && it.Position() == 0
      ensures it.readOnly == rows && |it.pending| == |ledger|
      ensures forall c :: c in it.pending <==> c in ledger.Values
      ensures |it.Items()| == Size()
    {
      var keys, changes := PendingEntries();
      it := new TwinIterator(rows, changes);
      forall c | c in ledger.Values ensures c in changes {
        var k :| k in ledger && ledger[k] == c;
        var i :| 0 <= i < |keys| && keys[i] == k;
      }
    }
  }

  /** `TwinIterator`: the rows of the window first, then the pending ledger
      entries. */
  class TwinIterator<T(==)> {
    const readOnly: seq<T>
    const pending: seq<Change<T>>
    var roPos: nat
    var wPos: nat

    /** The second cursor moves only once the first is exhausted. */
    ghost predicate Valid()
      reads this
    {
      roPos <= |readOnly| && wPos <= |pending| && (wPos > 0 ==> roPos == |readOnly|)
    }

    /** Everything the iterator yields, in order: no pending entry comes
        before a row of the window. */
    function Items(): (s: seq<Item<T>>)
      ensures |s| == |readOnly| + |pending|
      ensures forall i :: 0 <= i < |readOnly| ==> s[i] == Row(readOnly[i])
      ensures forall i :: |readOnly| <= i < |s| ==> s[i] == Pending(pending[i - |readOnly|])
      ensures forall i, j :: 0 <= i < j < |s| && s[j].Row? ==> s[i].Row?
    {
      seq(|readOnly|, i requires 0 <= i < |readOnly| => Row(readOnly[i]))
        + seq(|pending|, i requires 0 <= i < |pending| => Pending(pending[i]))
    }

    /** How many items have been yielded. */
    function Position(): nat
      reads this
    {
      roPos + wPos
    }

    constructor (readOnly: seq<T>, pending: seq<Change<T>>)
      ensures Valid() && Position() == 0
      ensures this.readOnly == readOnly && this.pending == pending
    {
      this.readOnly := readOnly;
      this.pending := pending;
      roPos := 0;
      wPos := 0;
    }

    /** `hasNext`: an item is left. */
    function HasNext(): (b: bool)
      requires Valid()
      reads this
      ensures b <==> Position() < |Items()|
    {
      if roPos < |readOnly| then true else wPos < |pending|
    }

    /** `next`: the next item in order, or nothing (where the source throws)
        once every item has been yielded. */
    method Next() returns (r: Option<Item<T>>)
      requires Valid()
      modifies this
      ensures Valid()
      ensures old(Position()) < |Items()| ==>
                r == Some(Items()[old(Position())]) && Position() == old(Position()) + 1
      ensures old(Position()) >= |Items()| ==> r == None && Position() == old(Position())
    {
      if roPos < |readOnly| {
        r := Some(Row(readOnly[roPos]));
        roPos := roPos + 1;
      } else if wPos < |pending| {
        r := Some(Pending(pending[wPos]));
        wPos := wPos + 1;
      } else {
        r := None;
      }
    }
  }
}
