/** The pending-change ledger: `DataOldNewValues` and the `DataChanges` kind
    derived from an (old, new) pair, and the writer calls that `flush` owes for
    a ledger. */
module Changes {
  import opened Wrappers

  /** `DataChanges`. */
  datatype Kind = NoChange | Insert | Update | Delete

  /** `compareValues`: absent before and present after is an insertion,
      present before and absent after a deletion, present on both sides with
      different values an update; anything else (both absent, or equal) is no
      change. */
  function CompareValues<T(==)>(oldValue: Option<T>, newValue: Option<T>): (k: Kind)
    ensures k == Insert <==> oldValue.None? && newValue.Some?
    ensures k == Delete <==> oldValue.Some? && newValue.None?
    ensures k == Update <==> oldValue.Some? && newValue.Some? && oldValue.value != newValue.value
    ensures k == NoChange <==> oldValue == newValue
  {
    if oldValue.None? && newValue.Some? then Insert
    else if oldValue.Some? && newValue.None? then Delete
    else if oldValue.Some? && newValue.Some? && newValue.value != oldValue.value then Update
    else NoChange
  }

  /** `DataOldNewValues`: the value a row had before it was edited through the
      cache (absent for a new row) and the value it has now (absent for a
      removed row). Its kind is re-derived from the pair on every edit, so it
      is a derived member here. */
  datatype Change<T(==)> = Change(oldValue: Option<T>, newValue: Option<T>) {

    function Kind(): Kind {
      CompareValues(oldValue, newValue)
    }

    /** `setNewValue`: replaces the new value; the old value is kept. */
    function WithNewValue(v: Option<T>): (c: Change<T>)
      ensures c.oldValue == oldValue
      ensures c.newValue == v
      ensures c.Kind() == CompareValues(oldValue, v)
    {
      Change(oldValue, v)
    }
  }

  /** Only the last `setNewValue` matters: two edits in a row have the effect
      of the second alone. */
  lemma LastEditWins<T>(c: Change<T>, v: Option<T>, w: Option<T>)
    ensures c.WithNewValue(v).WithNewValue(w) == c.WithNewValue(w)
  {
  }

  /** Setting the new value back to the old one cancels the change. */
  lemma RevertCancels<T>(c: Change<T>)
    ensures c.WithNewValue(c.oldValue).Kind() == NoChange
  {
  }

  /** A `DataOldNewValues` object as the source keeps it: the old value is
      fixed, the new value and the stored kind are updated together. */
  class ChangeRecord<T(==)> {
    const oldValue: Option<T>
    var newValue: Option<T>
    var changed: Kind

    /** The stored kind is the kind of the pair. */
    ghost predicate Valid()
      reads this
    {
      changed == CompareValues(oldValue, newValue)
    }

    /** The pair the record holds. */
    function Value(): Change<T>
      reads this
    {
      Change(oldValue, newValue)
    }

    /** `DataOldNewValues(oldValue, newValue)`: the kind is derived at once. */
    constructor (oldValue: Option<T>, newValue: Option<T>)
      ensures Valid()
      ensures Value() == Change(oldValue, newValue)
    {
      this.oldValue := oldValue;
      this.newValue := newValue;
      changed := CompareValues(oldValue, newValue);
    }

    /** `setNewValue`: the new value is replaced, the kind re-derived, and the
        old value kept. */
    method SetNewValue(v: Option<T>)
      modifies this
      ensures Valid()
      ensures Value() == old(Value()).WithNewValue(v)
    {
      newValue := v;
      changed := CompareValues(oldValue, newValue);
    }

    /** `getChanged`: the stored kind, which is the kind of the current pair. */
    function Changed(): (k: Kind)
      requires Valid()
      reads this
      ensures k == Value().Kind()
    {
      changed
    }
  }

  /** A call to the writer (`IDataWriter`). */
  datatype Write<T> = InsertRow(row: T) | UpdateRow(row: T) | DeleteRow(row: T)

  /** The writer call a ledger entry owes at `flush`: the new value is inserted
      or updated, the old value is deleted, and an unchanged entry owes
      nothing. */
  function WriteFor<T>(c: Change<T>): (w: seq<Write<T>>)
    ensures c.Kind() == NoChange <==> w == []
    ensures c.Kind() == Insert ==> w == [InsertRow(c.newValue.value)]
    ensures c.Kind() == Update ==> w == [UpdateRow(c.newValue.value)]
    ensures c.Kind() == Delete ==> w == [DeleteRow(c.oldValue.value)]
  {
    match c.Kind()
    case NoChange => []
    case Insert => [InsertRow(c.newValue.value)]
    case Update => [UpdateRow(c.newValue.value)]
    case Delete => [DeleteRow(c.oldValue.value)]
  }

  /** All the writer calls a ledger owes, one per changed entry, in no
      particular order (the ledger is a hash map). */
  ghost function Owed<K, T>(m: map<K, Change<T>>): multiset<Write<T>>
    decreases |m|
  {
    if m == map[] then multiset{}
    else
      var k :| k in m;
      Owed(m - {k}) + multiset(WriteFor(m[k]))
  }

  /** What a ledger owes does not depend on the order its entries are visited
      in: any entry can be taken out first. */
  lemma {:induction false} OwedRemove<K, T>(m: map<K, Change<T>>, k: K)
    requires k in m
    ensures Owed(m) == Owed(m - {k}) + multiset(WriteFor(m[k]))
    decreases |m|
  {
    var j :| j in m && Owed(m) == Owed(m - {j}) + multiset(WriteFor(m[j]));
    if j != k {
      var mj, mk := m - {j}, m - {k};
      assert mj - {k} == mk - {j};
      OwedRemove(mj, k);
      OwedRemove(mk, j);
    }
  }

  /** The entries the source's `flush` leaves behind, and those of `m` not yet
      visited (`pending`): every entry is kept except a visited unchanged one. */
  function Kept<K, T>(m: map<K, Change<T>>, pending: set<K>): (r: map<K, Change<T>>)
    ensures forall k :: k in r ==> k in m && r[k] == m[k]
    ensures forall k :: k in m ==> (k in r <==> k in pending || m[k].Kind() != NoChange)
  {
    map k | k in m && (k in pending || m[k].Kind() != NoChange) :: m[k]
  }

  /** Taking an entry out of a ledger takes it out of what `flush` keeps. */
  lemma KeptRemove<K, T>(m: map<K, Change<T>>, k: K)
    requires k in m
    ensures Kept(m, {}) - {k} == Kept(m - {k}, {})
    ensures m[k].Kind() == NoChange ==> Kept(m, {}) == Kept(m - {k}, {})
  {
    var r, rk := Kept(m, {}), Kept(m - {k}, {});
    var rest := r - {k};
    forall j | j in rest ensures j in rk && rest[j] == rk[j] { }
    forall j | j in rk ensures j in rest { }
    assert rest == rk;
    if m[k].Kind() == NoChange {
      forall j | j in r ensures j in rk && r[j] == rk[j] { }
      forall j | j in rk ensures j in r { }
    }
  }

  /** Before any entry is visited, every entry is kept. */
  lemma KeptAll<K, T>(m: map<K, Change<T>>)
    ensures Kept(m, m.Keys) == m
  {
    var r := Kept(m, m.Keys);
    forall j | j in m ensures j in r && r[j] == m[j] { }
  }

  /** Visiting one more entry drops it from what is kept when it is
      unchanged, and keeps everything as it was otherwise. */
  lemma KeptVisit<K, T>(m: map<K, Change<T>>, pending: set<K>, k: K)
    requires k in m && k in pending
    ensures m[k].Kind() == NoChange ==> Kept(m, pending - {k}) == Kept(m, pending) - {k}
    ensures m[k].Kind() != NoChange ==> Kept(m, pending - {k}) == Kept(m, pending)
  {
    var before, after := Kept(m, pending), Kept(m, pending - {k});
    if m[k].Kind() == NoChange {
      var dropped := before - {k};
      forall j | j in after ensures j in dropped && after[j] == dropped[j] { }
      forall j | j in dropped ensures j in after { }
    } else {
      forall j | j in after ensures j in before && after[j] == before[j] { }
      forall j | j in before ensures j in after { }
    }
  }

  /** Visiting entry `k` of the entries not yet visited, `rest`, a part of
      the ledger `start`: what is left is still a part of the ledger, and
      what it owes is what `rest` owed less the writes for `k`. */
  lemma VisitEntry<K, T>(start: map<K, Change<T>>, rest: map<K, Change<T>>, k: K)
    requires k in rest && forall j :: j in rest ==> j in start && rest[j] == start[j]
    ensures forall j :: j in rest - {k} ==> j in start && (rest - {k})[j] == start[j]
    ensures (rest - {k}).Keys == rest.Keys - {k} && start[k] == rest[k]
    ensures |rest - {k}| < |rest|
    ensures Owed(rest) == Owed(rest - {k}) + multiset(WriteFor(rest[k]))
  {
    OwedRemove(rest, k);
    assert |(rest - {k}).Keys| < |rest.Keys|;
  }

  /** One turn of the loop of `flush`: visiting entry `k` of the entries
      not yet visited keeps the loop's account, what has been written plus
      what is still owed being what the whole ledger owes. */
  lemma VisitStep<K, T>(m: map<K, Change<T>>, rest: map<K, Change<T>>, kept: map<K, Change<T>>,
                        calls: seq<Write<T>>, k: K)
    requires k in rest && forall j :: j in rest ==> j in m && rest[j] == m[j]
    requires kept == Kept(m, rest.Keys)
    requires multiset(calls) + Owed(rest) == Owed(m)
    ensures var rest', calls' := rest - {k}, calls + WriteFor(rest[k]);
            var kept' := if rest[k].Kind() == NoChange then kept - {k} else kept;
            && (forall j :: j in rest' ==> j in m && rest'[j] == m[j])
            && kept' == Kept(m, rest'.Keys)
            && multiset(calls') + Owed(rest') == Owed(m)
            && |rest'| < |rest|
  {
    VisitEntry(m, rest, k);
    KeptVisit(m, rest.Keys, k);
  }

  /** Dropping the unchanged entries does not change what a ledger owes: after
      the source's `flush` the ledger still owes every write it has just made,
      so a second flush repeats them. */
  lemma {:induction false} KeptOwesTheSame<K, T>(m: map<K, Change<T>>)
    ensures Owed(Kept(m, {})) == Owed(m)
    decreases |m|
  {
    if m != map[] {
      var k :| k in m;
      OwedRemove(m, k);
      KeptOwesTheSame(m - {k});
      KeptRemove(m, k);
      if m[k].Kind() != NoChange {
        OwedRemove(Kept(m, {}), k);
      }
    }
  }

  /** The loop of `flush` over the ledger's entries, visited in no particular
      order: `calls` are the writer calls made, every write the ledger owes
      and no other, and `kept` is the ledger left behind, without its
      unchanged entries and still owing the same writes. */
  method VisitLedger<K, T>(ledger: map<K, Change<T>>) returns (kept: map<K, Change<T>>, calls: seq<Write<T>>)
    ensures multiset(calls) == Owed(ledger)
    ensures kept == Kept(ledger, {}) && Owed(kept) == Owed(ledger)
  {
    kept, calls := ledger, [];
    var rest := ledger;
    KeptAll(ledger);
    while rest != map[]
      invariant forall k :: k in rest ==> k in ledger && rest[k] == ledger[k]
      invariant kept == Kept(ledger, rest.Keys)
      invariant multiset(calls) + Owed(rest) == Owed(ledger)
      decreases |rest|
    {
      var k :| k in rest;
      var e := rest[k];
      VisitStep(ledger, rest, kept, calls, k);
      calls := calls + WriteFor(e);
      if e.Kind() == NoChange {
        kept := kept - {k};
      }
      rest := rest - {k};
    }
    KeptOwesTheSame(ledger);
  }
}
