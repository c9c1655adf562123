/** The row source the cache reads from (`IDataRangeFetcher`) and, when it has
    the capability, writes to (`IDataWriter`). The fetch service itself is
    outside the cache; it is modelled here by a reference sequence of rows so
    that what the cache holds can be compared with what the source holds. */
module Sources {
  import opened Ranges

  /** `limits` is the total range the source reports (`getRowTotalRange`);
      `data[i]` is row number `limits.first + i`. The source may hold fewer rows
      than it reported (rows removed by other users), which is how a fetch can
      return fewer rows than requested. `writable` is the write capability. */
  datatype Source<T> = Source(limits: Range, data: seq<T>, writable: bool) {

    /** Row number `n` exists in the source. */
    predicate Has(n: int) {
      0 <= n - limits.first < |data|
    }

    function Row(n: int): T
      requires Has(n)
    {
      data[n - limits.first]
    }

    /** The source holds every row it reported. */
    predicate Complete() {
      |data| >= limits.length
    }

    /** `fetch`: the rows of `r`, in order, as far as they exist: the longest
        prefix of `r` whose rows the source holds. */
    function Fetch(r: Range): (rows: seq<T>)
      ensures |rows| <= r.length
      ensures forall n :: r.first <= n < r.first + |rows| ==> Has(n) && rows[n - r.first] == Row(n)
      ensures |rows| < r.length ==> !Has(r.first + |rows|)
    {
      var lo := r.first - limits.first;
      if 0 <= lo < |data| then
        var hi := if lo + r.length <= |data| then lo + r.length else |data|;
        data[lo..hi]
      else []
    }

    /** A complete source returns every row requested inside its limits. */
    lemma FetchWithinLimits(r: Range)
      requires Complete() && r.Within(limits)
      ensures |Fetch(r)| == r.length
    {
    }
  }
}
