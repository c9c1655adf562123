/** Row ranges: the `NestedIntRange` of the cache. A range is a run of
    consecutive row numbers, `first` .. `Last()`; an empty range has
    `Last() == first - 1`. The implementation of `NestedIntRange` is not part of
    this model: the operations below are given the behaviour its callers in the
    cache rely on (clamping into the outer range included). */
module Ranges {

  function Abs(x: int): (r: nat)
    ensures r == x || r == -x
  {
    if x < 0 then -x else x
  }

  function Min(a: int, b: int): (r: int)
    ensures r <= a && r <= b && (r == a || r == b)
  {
    if a <= b then a else b
  }

  datatype Range = Range(first: int, length: nat) {

    /** `getLast`: the last row; one before `first` for an empty range. */
    function Last(): (l: int)
      ensures l - first + 1 == length
    {
      first + length - 1
    }

    /** `IsInbound`: the row lies in the range, which then is not empty. */
    predicate IsInbound(p: int)
      ensures IsInbound(p) <==> first <= p < first + length
      ensures IsInbound(p) ==> length > 0
    {
      first <= p <= Last()
    }

    /** The range lies inside `outer` (an empty range may sit just past its end). */
    predicate Within(outer: Range) {
      outer.first <= first && first + length <= outer.first + outer.length
    }

    /** `getMaxDistance`: signed distance from the range to the row `p`:
        zero inside, negative before `first`, positive after `Last()`; its
        magnitude is the number of rows between the nearer edge and `p`,
        `p` included. */
    function MaxDistance(p: int): (d: int)
      ensures d == 0 <==> IsInbound(p)
      ensures d < 0 <==> p < first
      ensures d > 0 <==> p > Last()
      ensures d < 0 ==> first + d == p
      ensures d > 0 ==> Last() + d == p
    {
      if p < first then p - first
      else if p > Last() then p - Last()
      else 0
    }

    /** `Complement`: the rows between the range and the row `t` that the
        range does not already hold, on the side of `t`. */
    function Complement(t: int): (c: Range)
      ensures c.length == Abs(MaxDistance(t))
      ensures t < first ==> c.first == t && c.Last() + 1 == first
      ensures t > Last() ==> c.first == Last() + 1 && c.Last() == t
      ensures forall p :: c.IsInbound(p) ==> !IsInbound(p)
    {
      if t < first then Range(t, first - t)
      else if t > Last() then Range(Last() + 1, t - Last())
      else Range(first, 0)
    }

    /** `incLength`: grows (or shrinks, for a negative `delta`) the range at its
        end, clamped so that the range stays inside `outer`. */
    function IncLength(delta: int, outer: Range): (r: Range)
      requires Within(outer)
      ensures r.first == first && r.Within(outer)
      ensures 0 <= length + delta && first + length + delta <= outer.first + outer.length
              ==> r.length == length + delta
    {
      var n := length + delta;
      var room := outer.first + outer.length - first;
      Range(first, if n < 0 then 0 else if n > room then room else n)
    }

    /** `setFirst`: moves the range to start at `n`, keeping its length,
        clamped so that the range stays inside `outer`. */
    function SetFirst(n: int, outer: Range): (r: Range)
      requires length <= outer.length
      ensures r.length == length && r.Within(outer)
      ensures outer.first <= n && n + length <= outer.first + outer.length ==> r.first == n
    {
      var hi := outer.first + outer.length - length;
      Range(if n < outer.first then outer.first else if n > hi then hi else n, length)
    }
  }

  /** `new NestedIntRange(first, length, outer)`: the range of `length` rows
      from `first`, cut down to what fits inside `outer`. */
  function Nested(first: int, length: int, outer: Range): (r: Range)
    ensures r.Within(outer)
    ensures outer.IsInbound(first) && length >= 0 ==>
              r.first == first && r.length <= length &&
              (r.length == length || r.Last() == outer.Last())
  {
    var f := if first < outer.first then outer.first
             else if first > outer.first + outer.length then outer.first + outer.length
             else first;
    var room := outer.first + outer.length - f;
    Range(f, if length < 0 then 0 else if length > room then room else length)
  }
}
