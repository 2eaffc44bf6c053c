/**
 Reading the `tickets` table as the database does: a scan of its rows in
 ascending id order, and counts of the rows that satisfy a condition. The
 counts are tied to a reference definition, the set of ids whose row
 satisfies the condition.
 */
module Table {
  import opened Schema
  import Sorting

  lemma PickOne(ks: set<int>) returns (x: int)
    requires ks != {}
    ensures x in ks
  {
    if forall y :: y !in ks {
      assert false;
    }
    x :| x in ks;
  }

  /** The largest element of a non-empty set of ids, found by removing one element at a time. */
  lemma {:induction false} MaxOf(ks: set<int>) returns (k: int)
    requires ks != {}
    ensures k in ks && forall j | j in ks :: j <= k
    decreases |ks|
  {
    var x := PickOne(ks);
    if ks == {x} {
      k := x;
    } else {
      var rest := ks - {x};
      var m := MaxOf(rest);
      k := if m < x then x else m;
      forall j | j in ks ensures j <= k {
        if j != x {
          assert j in rest;
        }
      }
    }
  }

  lemma MaxExists(ks: set<int>)
    requires ks != {}
    ensures exists k :: k in ks && forall j | j in ks :: j <= k
  {
    var k := MaxOf(ks);
  }

  /** The largest id of a non-empty table. */
  function MaxKey(ks: set<int>): (k: int)
    requires ks != {}
    ensures k in ks && forall j | j in ks :: j <= k
  {
    MaxExists(ks);
    var k :| k in ks && forall j | j in ks :: j <= k;
    k
  }

  /** Every row is stored under its own id, as the INTEGER PRIMARY KEY makes it. */
  predicate KeyedById(m: map<int, Ticket>) {
    forall k | k in m :: m[k].id == k
  }

  /** Rows in strictly ascending id order; in particular no row occurs twice. */
  predicate IdsAscending(ts: seq<Ticket>) {
    Sorting.StrictlyIncreasing(ts, IdOf)
  }

  function IdOf(t: Ticket): int {
    t.id
  }

  /** A full scan of the table: every row, in ascending id order. */
  function Rows(m: map<int, Ticket>): (r: seq<Ticket>)
    ensures |r| == |m|
    ensures forall t :: t in r <==> t in m.Values
    decreases |m|
  {
    if |m| == 0 then []
    else
      var k := MaxKey(m.Keys);
      var rest := m - {k};
      assert rest.Keys == m.Keys - {k};
      assert m.Values == rest.Values + {m[k]} by {
        forall t | t in m.Values ensures t in rest.Values + {m[k]} {
          var j :| j in m && m[j] == t;
          if j != k { assert rest[j] == t; }
        }
      }
      Rows(rest) + [m[k]]
  }

  /** Each row of the scan carries the id of a key of the table. */
  lemma {:induction false} RowIdsAreKeys(m: map<int, Ticket>)
    requires KeyedById(m)
    ensures forall i | 0 <= i < |Rows(m)| :: Rows(m)[i].id in m
    decreases |m|
  {
    if |m| > 0 {
      var k := MaxKey(m.Keys);
      var rest := m - {k};
      assert rest.Keys == m.Keys - {k};
      assert Rows(m) == Rows(rest) + [m[k]];
      assert KeyedById(rest);
      RowIdsAreKeys(rest);
    }
  }

  /** The scan lists the rows in ascending id order. */
  lemma {:induction false} RowsAscending(m: map<int, Ticket>)
    requires KeyedById(m)
    ensures IdsAscending(Rows(m))
    decreases |m|
  {
    if |m| > 0 {
      var k := MaxKey(m.Keys);
      var rest := m - {k};
      var front := Rows(rest);
      assert rest.Keys == m.Keys - {k};
      assert Rows(m) == front + [m[k]];
      assert KeyedById(rest);
      RowIdsAreKeys(rest);
      RowsAscending(rest);
      assert forall i | 0 <= i < |front| :: front[i].id < m[k].id;
      AppendAscending(front, m[k]);
    }
  }

  lemma AppendAscending(ts: seq<Ticket>, t: Ticket)
    requires IdsAscending(ts) && forall i | 0 <= i < |ts| :: ts[i].id < t.id
    ensures IdsAscending(ts + [t])
  {
    forall i, j | 0 <= i < j < |ts| + 1 ensures (ts + [t])[i].id < (ts + [t])[j].id {
      if j < |ts| {
        assert (ts + [t])[i] == ts[i] && (ts + [t])[j] == ts[j];
      } else {
        assert (ts + [t])[i] == ts[i];
      }
    }
  }

  /** A condition on a row, as in a WHERE or CASE WHEN clause. */
  datatype Criterion = EstadoIs(estado: Estado) | TipoIs(tipo: string)

  predicate Holds(c: Criterion, t: Ticket) {
    match c
    case EstadoIs(e) => t.estado == e
    case TipoIs(x) => t.tipo == x
  }

  /** The number of rows of a scan that satisfy `c`, counted in one pass. */
  function CountWhere(ts: seq<Ticket>, c: Criterion): (n: nat)
    ensures n <= |ts|
  {
    if |ts| == 0 then 0
    else CountWhere(ts[..|ts| - 1], c) + (if Holds(c, ts[|ts| - 1]) then 1 else 0)
  }

  /** Reference definition: the ids whose row satisfies `c`. */
  ghost function KeysWhere(m: map<int, Ticket>, c: Criterion): set<int> {
    set k | k in m && Holds(c, m[k])
  }

  lemma CountWhereSnoc(ts: seq<Ticket>, t: Ticket, c: Criterion)
    ensures CountWhere(ts + [t], c) == CountWhere(ts, c) + (if Holds(c, t) then 1 else 0)
  {
    assert (ts + [t])[..|ts|] == ts;
  }

  lemma KeysWhereSplit(m: map<int, Ticket>, k: int, c: Criterion)
    requires k in m
    ensures KeysWhere(m, c) == KeysWhere(m - {k}, c) + (if Holds(c, m[k]) then {k} else {})
    ensures k !in KeysWhere(m - {k}, c)
  {
  }

  /** Counting a full scan counts each id whose row satisfies `c` exactly once. */
  lemma {:induction false} CountRowsIsCardinality(m: map<int, Ticket>, c: Criterion)
    ensures CountWhere(Rows(m), c) == |KeysWhere(m, c)|
    decreases |m|
  {
    if |m| == 0 {
      assert KeysWhere(m, c) == {};
    } else {
      var k := MaxKey(m.Keys);
      var rest := m - {k};
      assert rest.Keys == m.Keys - {k};
      assert Rows(m) == Rows(rest) + [m[k]];
      CountWhereSnoc(Rows(rest), m[k], c);
      CountRowsIsCardinality(rest, c);
      KeysWhereSplit(m, k, c);
    }
  }

  /** Each row has exactly one estado, so the three per-estado counts add up to the scan. */
  lemma {:induction false} EstadoCountsPartition(ts: seq<Ticket>)
    ensures CountWhere(ts, EstadoIs(Pendiente)) + CountWhere(ts, EstadoIs(EnProgreso))
            + CountWhere(ts, EstadoIs(Resuelto)) == |ts|
  {
    if |ts| > 0 {
      EstadoCountsPartition(ts[..|ts| - 1]);
    }
  }

  /** A scan with no row of type `x` counts none. */
  lemma {:induction false} CountAbsentTipo(ts: seq<Ticket>, x: string)
    requires forall i | 0 <= i < |ts| :: ts[i].tipo != x
    ensures CountWhere(ts, TipoIs(x)) == 0
  {
    if |ts| > 0 {
      CountAbsentTipo(ts[..|ts| - 1], x);
    }
  }
}
