/** df.groupby(col).size().reset_index(name="Count").sort_values(by="Count",
    ascending=False), Series.value_counts(), and the tile total Count.sum(). */
module GroupCounts {
  import opened Frames

  /** One row of a group-count table: a group key and its number of rows. */
  datatype Group = Group(key: Value, count: nat)

  /** Count.sum() over a group-count table. */
  function Total(gs: seq<Group>): (r: nat)
    ensures forall i :: 0 <= i < |gs| ==> gs[i].count <= r
  {
    if gs == [] then 0 else Total(gs[..|gs| - 1]) + gs[|gs| - 1].count
  }

  ghost predicate DistinctKeys(gs: seq<Group>) {
    forall i, j :: 0 <= i < j < |gs| ==> gs[i].key != gs[j].key
  }

  ghost predicate NonIncreasing(gs: seq<Group>) {
    forall i, j :: 0 <= i < j < |gs| ==> gs[i].count >= gs[j].count
  }

  /** `gs` holds one group per distinct non-null cell of `vals`, each with the
      number of cells equal to it (groupby drops NaN keys); the order is free. */
  ghost predicate IsTallyOf(vals: seq<Value>, gs: seq<Group>) {
    && DistinctKeys(gs)
    && (forall i :: 0 <= i < |gs| ==>
          gs[i].key != Null && gs[i].count >= 1 && gs[i].count == Count(vals, gs[i].key))
    && (forall j :: 0 <= j < |vals| && vals[j] != Null ==>
          exists i :: 0 <= i < |gs| && gs[i].key == vals[j])
  }

  /** What the pandas chain promises: the tally, largest count first. The order
      among equal counts is not given, since sort_values is not stable. */
  ghost predicate IsGroupCountOf(vals: seq<Value>, gs: seq<Group>) {
    IsTallyOf(vals, gs) && NonIncreasing(gs)
  }

  /** The position of the group for `v`, or -1. */
  function IndexOf(gs: seq<Group>, v: Value): (i: int)
    ensures -1 <= i < |gs|
    ensures i >= 0 ==> gs[i].key == v
    ensures i < 0 ==> forall j :: 0 <= j < |gs| ==> gs[j].key != v
  {
    if gs == [] then -1
    else if gs[|gs| - 1].key == v then |gs| - 1
    else IndexOf(gs[..|gs| - 1], v)
  }

  /** Adds one cell to a running tally. */
  function Bump(gs: seq<Group>, v: Value): seq<Group> {
    if v == Null then gs
    else
      var i := IndexOf(gs, v);
      if i >= 0 then gs[i := Group(v, gs[i].count + 1)] else gs + [Group(v, 1)]
  }

  /** The groups of `vals` in first-seen order. */
  function Tally(vals: seq<Value>): (gs: seq<Group>)
    ensures IsTallyOf(vals, gs)
  {
    if vals == [] then []
    else
      var init := vals[..|vals| - 1];
      assert vals == init + [vals[|vals| - 1]];
      BumpTally(init, Tally(init), vals[|vals| - 1]);
      Bump(Tally(init), vals[|vals| - 1])
  }

  /** Adding a cell to a tally gives the tally of the longer column. */
  lemma BumpTally(vals: seq<Value>, gs: seq<Group>, v: Value)
    requires IsTallyOf(vals, gs)
    ensures IsTallyOf(vals + [v], Bump(gs, v))
  {
    var all := vals + [v];
    assert all[..|vals|] == vals;
    if v == Null {
      forall j | 0 <= j < |all| && all[j] != Null
        ensures exists i :: 0 <= i < |gs| && gs[i].key == all[j]
      {
        assert all[j] == vals[j];
      }
    } else if IndexOf(gs, v) < 0 {
      BumpNew(vals, gs, v);
    } else {
      BumpExisting(vals, gs, v, IndexOf(gs, v));
    }
  }

  lemma BumpNew(vals: seq<Value>, gs: seq<Group>, v: Value)
    requires IsTallyOf(vals, gs) && v != Null
    requires forall j :: 0 <= j < |gs| ==> gs[j].key != v
    ensures IsTallyOf(vals + [v], gs + [Group(v, 1)])
  {
    var all, r := vals + [v], gs + [Group(v, 1)];
    assert all[..|vals|] == vals;
    CountPositive(vals, v);
    forall j | 0 <= j < |all| && all[j] != Null
      ensures exists i :: 0 <= i < |r| && r[i].key == all[j]
    {
      if j < |vals| {
        assert all[j] == vals[j];
        var i :| 0 <= i < |gs| && gs[i].key == vals[j];
        assert r[i].key == all[j];
      } else {
        assert r[|gs|].key == all[j];
      }
    }
  }

  lemma BumpExisting(vals: seq<Value>, gs: seq<Group>, v: Value, k: nat)
    requires IsTallyOf(vals, gs) && k < |gs| && gs[k].key == v
    ensures IsTallyOf(vals + [v], gs[k := Group(v, gs[k].count + 1)])
  {
    var all, r := vals + [v], gs[k := Group(v, gs[k].count + 1)];
    assert all[..|vals|] == vals;
    forall j | 0 <= j < |all| && all[j] != Null
      ensures exists i :: 0 <= i < |r| && r[i].key == all[j]
    {
      if j < |vals| {
        assert all[j] == vals[j];
        var i :| 0 <= i < |gs| && gs[i].key == vals[j];
        assert r[i].key == all[j];
      } else {
        assert r[k].key == all[j];
      }
    }
  }

  /** Puts `g` in front of the first group with a smaller count. */
  function Insert(g: Group, gs: seq<Group>): (r: seq<Group>)
    ensures multiset(r) == multiset(gs) + multiset{g}
    ensures |r| == |gs| + 1 && (r[0] == g || (|gs| > 0 && r[0] == gs[0]))
  {
    if gs == [] || g.count >= gs[0].count then [g] + gs
    else
      var rest := Insert(g, gs[1..]);
      assert gs == [gs[0]] + gs[1..];
      [gs[0]] + rest
  }

  /** Inserting into a table sorted by count keeps it sorted. */
  lemma {:induction false} InsertSorted(g: Group, gs: seq<Group>)
    requires NonIncreasing(gs)
    ensures NonIncreasing(Insert(g, gs))
  {
    var r := Insert(g, gs);
    if gs == [] || g.count >= gs[0].count {
      assert r == [g] + gs;
      forall i, j | 0 <= i < j < |r| ensures r[i].count >= r[j].count {
        assert r[j] == gs[j - 1];
        if i > 0 {
          assert r[i] == gs[i - 1];
        }
      }
    } else {
      var rest := Insert(g, gs[1..]);
      assert r == [gs[0]] + rest;
      assert NonIncreasing(gs[1..]);
      InsertSorted(g, gs[1..]);
      forall i, j | 0 <= i < j < |r| ensures r[i].count >= r[j].count {
        assert r[j] == rest[j - 1];
        if i > 0 {
          assert r[i] == rest[i - 1];
        } else {
          assert rest[0].count <= gs[0].count;
        }
      }
    }
  }

  /** Insertion sort by count, largest first. */
  function SortDesc(gs: seq<Group>): (r: seq<Group>)
    ensures multiset(r) == multiset(gs)
    ensures NonIncreasing(r)
  {
    if gs == [] then []
    else
      assert gs == [gs[0]] + gs[1..];
      InsertSorted(gs[0], SortDesc(gs[1..]));
      Insert(gs[0], SortDesc(gs[1..]))
  }

  /** value_counts() of a Series, and the groupby-size-sort chain on the column. */
  function ValueCounts(vals: seq<Value>): (gs: seq<Group>)
    ensures IsGroupCountOf(vals, gs)
  {
    var tally := Tally(vals);
    var gs := SortDesc(tally);
    PermutedTally(vals, tally, gs);
    gs
  }

  /** Grouping a frame by a column it lacks raises KeyError. */
  function GroupCount(t: Table, col: string): (r: Result<seq<Group>>)
    ensures r.Ok? <==> col in t.columns
    ensures r.Err? ==> r.failure == MissingColumn(col)
    ensures r.Ok? ==> IsGroupCountOf(Column(t.rows, col), r.value)
  {
    if col !in t.columns then Err(MissingColumn(col)) else Ok(ValueCounts(Column(t.rows, col)))
  }

  /** A reordering of a tally is a tally. */
  lemma PermutedTally(vals: seq<Value>, a: seq<Group>, b: seq<Group>)
    requires IsTallyOf(vals, a) && multiset(a) == multiset(b)
    ensures IsTallyOf(vals, b)
  {
    forall i, j | 0 <= i < j < |b| ensures b[i].key != b[j].key {
      if b[i].key == b[j].key {
        assert b[i] in multiset(a) && b[j] in multiset(a);
        var p :| 0 <= p < |a| && a[p] == b[i];
        var q :| 0 <= q < |a| && a[q] == b[j];
        assert p == q;
        TwoCopies(b, i, j);
        DistinctOnce(a, p);
        assert false;
      }
    }
    forall i | 0 <= i < |b|
      ensures b[i].key != Null && b[i].count >= 1 && b[i].count == Count(vals, b[i].key)
    {
      assert b[i] in multiset(a);
    }
    forall j | 0 <= j < |vals| && vals[j] != Null
      ensures exists i :: 0 <= i < |b| && b[i].key == vals[j]
    {
      var i :| 0 <= i < |a| && a[i].key == vals[j];
      assert a[i] in multiset(b);
    }
  }

  /** Two positions holding one element give it multiplicity two. */
  lemma TwoCopies(b: seq<Group>, i: nat, j: nat)
    requires i < j < |b| && b[i] == b[j]
    ensures multiset(b)[b[i]] >= 2
  {
    assert b == b[..j] + b[j..];
    assert b[i] in b[..j];
    assert b[j] in b[j..];
    assert multiset(b) == multiset(b[..j]) + multiset(b[j..]);
  }

  /** In a table with distinct keys each element occurs once. */
  lemma {:induction false} DistinctOnce(a: seq<Group>, p: nat)
    requires p < |a| && DistinctKeys(a)
    ensures multiset(a)[a[p]] == 1
  {
    var init := a[..|a| - 1];
    assert a == init + [a[|a| - 1]];
    assert DistinctKeys(init);
    if p == |a| - 1 {
      assert a[p] !in init;
    } else {
      assert init[p] == a[p];
      DistinctOnce(init, p);
      assert a[|a| - 1] != a[p];
    }
  }

  // ---------------------------------------------------------------------------
  // The tile total: Count.sum() is the number of non-null cells.

  /** The sum over groups of the number of cells equal to their key. */
  function CountSum(vals: seq<Value>, gs: seq<Group>): nat {
    if gs == [] then 0 else CountSum(vals, gs[..|gs| - 1]) + Count(vals, gs[|gs| - 1].key)
  }

  /** The number of groups whose key is `v`. */
  function Hits(gs: seq<Group>, v: Value): nat {
    if gs == [] then 0 else Hits(gs[..|gs| - 1], v) + (if gs[|gs| - 1].key == v then 1 else 0)
  }

  lemma {:induction false} HitsOfDistinct(gs: seq<Group>, v: Value)
    requires DistinctKeys(gs)
    ensures Hits(gs, v) == if exists i :: 0 <= i < |gs| && gs[i].key == v then 1 else 0
  {
    if gs != [] {
      var init := gs[..|gs| - 1];
      assert DistinctKeys(init);
      HitsOfDistinct(init, v);
      assert forall i :: 0 <= i < |init| ==> init[i] == gs[i];
      if gs[|gs| - 1].key == v {
        assert !exists i :: 0 <= i < |init| && init[i].key == v;
      }
    }
  }

  /** Adding one cell adds, to the sum over groups, one per group matching it. */
  lemma {:induction false} CountSumSnoc(vals: seq<Value>, gs: seq<Group>, v: Value)
    ensures CountSum(vals + [v], gs) == CountSum(vals, gs) + Hits(gs, v)
  {
    assert (vals + [v])[..|vals|] == vals;
    if gs != [] {
      CountSumSnoc(vals, gs[..|gs| - 1], v);
    }
  }

  lemma {:induction false} CountSumIsTotal(vals: seq<Value>, gs: seq<Group>)
    requires forall i :: 0 <= i < |gs| ==> gs[i].count == Count(vals, gs[i].key)
    ensures CountSum(vals, gs) == Total(gs)
  {
    if gs != [] {
      CountSumIsTotal(vals, gs[..|gs| - 1]);
    }
  }

  /** Distinct non-null keys covering every non-null cell split the non-null
      cells between them. */
  lemma {:induction false} CountSumCovers(vals: seq<Value>, gs: seq<Group>)
    requires DistinctKeys(gs)
    requires forall i :: 0 <= i < |gs| ==> gs[i].key != Null
    requires forall j :: 0 <= j < |vals| && vals[j] != Null ==>
      exists i :: 0 <= i < |gs| && gs[i].key == vals[j]
    ensures CountSum(vals, gs) == NonNull(vals)
  {
    if vals == [] {
      ZeroSum(gs);
    } else {
      var init := vals[..|vals| - 1];
      var v := vals[|vals| - 1];
      assert vals == init + [v];
      assert forall j :: 0 <= j < |init| ==> init[j] == vals[j];
      CountSumCovers(init, gs);
      CountSumSnoc(init, gs, v);
      HitsOfDistinct(gs, v);
    }
  }

  lemma {:induction false} ZeroSum(gs: seq<Group>)
    ensures CountSum([], gs) == 0
  {
    if gs != [] {
      ZeroSum(gs[..|gs| - 1]);
    }
  }

  /** The tile total of any group count is the number of non-null cells of the
      grouped column. */
  lemma GroupTotal(vals: seq<Value>, gs: seq<Group>)
    requires IsTallyOf(vals, gs)
    ensures Total(gs) == NonNull(vals)
  {
    CountSumIsTotal(vals, gs);
    CountSumCovers(vals, gs);
  }

  /** Two group counts of one column hold the same groups: they can differ only
      in the order of groups with equal counts. */
  lemma TalliesAgree(vals: seq<Value>, a: seq<Group>, b: seq<Group>)
    requires IsTallyOf(vals, a) && IsTallyOf(vals, b)
    ensures forall g :: g in a <==> g in b
  {
    forall g | g in a ensures g in b { InOther(vals, a, b, g); }
    forall g | g in b ensures g in a { InOther(vals, b, a, g); }
  }

  lemma InOther(vals: seq<Value>, a: seq<Group>, b: seq<Group>, g: Group)
    requires IsTallyOf(vals, a) && IsTallyOf(vals, b) && g in a
    ensures g in b
  {
    CountPositive(vals, g.key);
    var j :| 0 <= j < |vals| && vals[j] == g.key;
    var i :| 0 <= i < |b| && b[i].key == vals[j];
    assert b[i] == g;
  }

  /** On a zero-row frame that has the column, the chain gives an empty table;
      on the frame of an empty JSON array (no columns at all) it raises KeyError. */
  lemma GroupCountOfNoRows(t: Table, col: string)
    requires t.rows == []
    ensures col in t.columns ==> GroupCount(t, col) == Ok([])
    ensures GroupCount(FromRecords([]), col) == Err(MissingColumn(col))
  {
    assert Column(t.rows, col) == [];
  }

  /** The tile total of a group-count panel is the non-null count of the column,
      and so at most the number of rows. */
  lemma PanelTotal(t: Table, col: string)
    requires col in t.columns
    ensures Total(GroupCount(t, col).value) == NonNull(Column(t.rows, col)) <= |t.rows|
  {
    GroupTotal(Column(t.rows, col), GroupCount(t, col).value);
  }
}
