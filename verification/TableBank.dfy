/**
 Banks of literal count tables: the per-context arrays of `entropy/rle_predictor.rs` and
 `entropy/neural_ssm.rs`, each table with its counts, Fenwick tree and total.
 */
module TableBanks {
  import opened Bytes
  import opened LiteralModel

  function Parts(t: LitTable): set<object> {
    {t, t.counts, t.tree}
  }

  /** No two tables share storage. */
  ghost predicate Separate(ts: seq<LitTable>) {
    forall i, j :: 0 <= i < j < |ts| ==> Parts(ts[i]) !! Parts(ts[j])
  }

  function Empty(n: nat): (c: seq<Lits>)
    ensures |c| == n && forall i :: 0 <= i < n ==> c[i] == Zeros()
  {
    seq(n, _ => Zeros())
  }

  method NewTables(n: nat) returns (ts: seq<LitTable>, ghost all: set<object>)
    ensures |ts| == n && Separate(ts) && fresh(all) && forall k :: 0 <= k < n ==> Parts(ts[k]) <= all
    ensures forall k :: 0 <= k < n ==> ts[k].Valid() && ts[k].State() == Zeros()
  {
    ts := [];
    all := {};
    for i := 0 to n
      invariant |ts| == i && fresh(all) && Separate(ts)
      invariant forall k :: 0 <= k < i ==> Parts(ts[k]) <= all
      invariant forall k :: 0 <= k < i ==> ts[k].Valid() && ts[k].State() == Zeros()
    {
      var t := new LitTable();
      ts := ts + [t];
      all := all + Parts(t);
    }
  }

  class TableBank {
    const tables: seq<LitTable>
    ghost const repr: set<object>

    ghost predicate Valid()
      reads repr
    {
      && Separate(tables)
      && forall i :: 0 <= i < |tables| ==> Parts(tables[i]) <= repr && tables[i].Valid()
    }

    ghost function Counts(): (c: seq<Lits>)
      requires Valid()
      reads repr
      ensures |c| == |tables| && forall i :: 0 <= i < |tables| ==> c[i] == tables[i].State()
    {
      CountsUpto(|tables|)
    }

    ghost function CountsUpto(n: nat): (c: seq<Lits>)
      requires Valid() && n <= |tables|
      reads repr
      ensures |c| == n && forall i :: 0 <= i < n ==> c[i] == tables[i].State()
      decreases n, tables
    {
      if n == 0 then [] else CountsUpto(n - 1) + [tables[n - 1].State()]
    }

    constructor (n: nat)
      ensures Valid() && fresh(repr) && |tables| == n && Counts() == Empty(n)
    {
      var ts, all := NewTables(n);
      tables := ts;
      repr := all;
      new;
      assert forall i :: 0 <= i < n ==> Counts()[i] == tables[i].State() == Empty(n)[i];
    }

    /** Counts one literal in table `i`; every other table is untouched. */
    method Bump(i: nat, idx: nat, limit: nat)
      requires Valid() && i < |tables| && idx < NUM_LITS
      modifies repr
      ensures Valid()
      ensures Counts() == old(Counts())[i := Bumped(old(Counts())[i], idx, limit)]
    {
      ghost var c := Counts();
      assert forall k :: 0 <= k < |tables| && k != i ==> Parts(tables[k]) !! Parts(tables[i]);
      tables[i].Bump(idx, limit);
      assert forall k :: 0 <= k < |tables| && k != i ==> tables[k].Valid() && tables[k].State() == c[k];
      assert Counts() == c[i := Bumped(c[i], idx, limit)];
    }

    method ClearOne(i: nat)
      requires Valid() && i < |tables|
      modifies repr
      ensures Valid() && Counts() == old(Counts())[i := Zeros()]
    {
      ghost var c := Counts();
      assert forall k :: 0 <= k < |tables| && k != i ==> Parts(tables[k]) !! Parts(tables[i]);
      tables[i].Clear();
      assert forall k :: 0 <= k < |tables| && k != i ==> tables[k].Valid() && tables[k].State() == c[k];
      assert Counts() == c[i := Zeros()];
    }

    method Clear()
      requires Valid()
      modifies repr
      ensures Valid() && Counts() == Empty(|tables|)
    {
      for i := 0 to |tables|
        invariant Valid()
        invariant forall k :: 0 <= k < i ==> Counts()[k] == Zeros()
      {
        ClearOne(i);
      }
    }
  }
}
