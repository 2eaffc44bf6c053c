/**
 The two statistics routes (server.js:421-460), technicians only: the counts of
 tickets by estado, and the number of tickets of each tipo, largest first.
 Both are single scans of the `tickets` table; their results are tied to the
 reference counts of Table.KeysWhere.
 */
module Statistics {
  import opened Schema
  import opened Table
  import Sorting

  // ---------------------------------------------------------------- by estado

  datatype Summary = Summary(total: nat, pendientes: nat, enProgreso: nat, resueltos: nat)

  /** GET /api/estadisticas with each count 0 on an empty table (see SummarizeAsWritten
      for what the query returns there). */
  function Summarize(s: Store, caller: Caller): (r: Result<Summary>)
    ensures r.Err? <==> caller.rol != Tecnico
    ensures r.Err? ==> r.error == Forbidden
    ensures r.Ok? ==> r.value.total == |s.tickets|
    ensures r.Ok? ==>
      && r.value.pendientes == |KeysWhere(s.tickets, EstadoIs(Pendiente))|
      && r.value.enProgreso == |KeysWhere(s.tickets, EstadoIs(EnProgreso))|
      && r.value.resueltos == |KeysWhere(s.tickets, EstadoIs(Resuelto))|
    ensures r.Ok? ==> r.value.pendientes + r.value.enProgreso + r.value.resueltos == r.value.total
  {
    if caller.rol != Tecnico then Err(Forbidden)
    else
      var ts := Rows(s.tickets);
      CountRowsIsCardinality(s.tickets, EstadoIs(Pendiente));
      CountRowsIsCardinality(s.tickets, EstadoIs(EnProgreso));
      CountRowsIsCardinality(s.tickets, EstadoIs(Resuelto));
      EstadoCountsPartition(ts);
      Ok(Summary(|ts|,
                 CountWhere(ts, EstadoIs(Pendiente)),
                 CountWhere(ts, EstadoIs(EnProgreso)),
                 CountWhere(ts, EstadoIs(Resuelto))))
  }

  /** The row the aggregate query of server.js:426-432 returns. COUNT(*) is a number,
      but SUM over no rows is NULL, so on an empty table the three sums are None. */
  datatype SummaryRow = SummaryRow(total: nat, pendientes: Option<nat>, enProgreso: Option<nat>, resueltos: Option<nat>)

  /** SQL SUM of the 0/1 indicator of `c` over a scan: NULL when there are no rows. */
  function SqlSum(ts: seq<Ticket>, c: Criterion): Option<nat> {
    if |ts| == 0 then None else Some(CountWhere(ts, c))
  }

  /** GET /api/estadisticas as written. */
  function SummarizeAsWritten(s: Store, caller: Caller): (r: Result<SummaryRow>)
    ensures r.Err? <==> caller.rol != Tecnico
    ensures r.Err? ==> r.error == Forbidden
    ensures r.Ok? ==> r.value.total == |s.tickets|
    ensures r.Ok? ==> (r.value.pendientes.None? <==> |s.tickets| == 0)
    ensures r.Ok? ==> (r.value.enProgreso.None? <==> |s.tickets| == 0)
    ensures r.Ok? ==> (r.value.resueltos.None? <==> |s.tickets| == 0)
    ensures r.Ok? && |s.tickets| > 0 ==>
      var x := Summarize(s, caller).value;
      r.value == SummaryRow(x.total, Some(x.pendientes), Some(x.enProgreso), Some(x.resueltos))
  {
    if caller.rol != Tecnico then Err(Forbidden)
    else
      var ts := Rows(s.tickets);
      Ok(SummaryRow(|ts|,
                    SqlSum(ts, EstadoIs(Pendiente)),
                    SqlSum(ts, EstadoIs(EnProgreso)),
                    SqlSum(ts, EstadoIs(Resuelto))))
  }

  /** On an empty table the query as written reports null counts that do not add up
      to its total of 0, where the corrected summary reports zeros. */
  lemma EmptyTableSummaryIsNull(caller: Caller)
    requires caller.rol == Tecnico
    ensures SummarizeAsWritten(Empty(), caller) == Ok(SummaryRow(0, None, None, None))
    ensures Summarize(Empty(), caller) == Ok(Summary(0, 0, 0, 0))
  {
    assert KeysWhere(Empty().tickets, EstadoIs(Pendiente)) == {};
    assert KeysWhere(Empty().tickets, EstadoIs(EnProgreso)) == {};
    assert KeysWhere(Empty().tickets, EstadoIs(Resuelto)) == {};
  }

  // ---------------------------------------------------------------- by tipo

  /** One row of GROUP BY tipo. */
  datatype TypeCount = TypeCount(tipo: string, cantidad: nat)

  /** Key for ORDER BY cantidad DESC. */
  function Cantidad(e: TypeCount): int {
    e.cantidad
  }

  predicate DistinctTipos(r: seq<TypeCount>) {
    forall i, j | 0 <= i < j < |r| :: r[i].tipo != r[j].tipo
  }

  function TiposOf(r: seq<TypeCount>): set<string> {
    set e | e in r :: e.tipo
  }

  function SumCantidad(r: seq<TypeCount>): nat {
    if |r| == 0 then 0 else r[0].cantidad + SumCantidad(r[1..])
  }

  /** The count recorded for `x`, or 0 when `x` has no group yet. */
  function CantidadOf(r: seq<TypeCount>, x: string): nat {
    if |r| == 0 then 0
    else if r[0].tipo == x then r[0].cantidad
    else CantidadOf(r[1..], x)
  }

  lemma {:induction false} CantidadOfEntry(r: seq<TypeCount>, e: TypeCount)
    requires DistinctTipos(r) && e in r
    ensures CantidadOf(r, e.tipo) == e.cantidad
  {
    if r[0] != e {
      assert e in r[1..];
      CantidadOfEntry(r[1..], e);
    }
  }

  lemma {:induction false} CantidadOfAbsent(r: seq<TypeCount>, x: string)
    requires x !in TiposOf(r)
    ensures CantidadOf(r, x) == 0
  {
    if |r| > 0 {
      assert r[0] in r;
      assert TiposOf(r[1..]) <= TiposOf(r);
      CantidadOfAbsent(r[1..], x);
    }
  }

  /** What putting group `e` in front of `r` does to the derived views of the groups. */
  lemma Prepend(e: TypeCount, r: seq<TypeCount>)
    ensures forall y :: y in [e] + r <==> y == e || y in r
    ensures TiposOf([e] + r) == {e.tipo} + TiposOf(r)
    ensures DistinctTipos([e] + r) <==> DistinctTipos(r) && e.tipo !in TiposOf(r)
    ensures SumCantidad([e] + r) == e.cantidad + SumCantidad(r)
    ensures forall x :: CantidadOf([e] + r, x) == if e.tipo == x then e.cantidad else CantidadOf(r, x)
  {
    var r' := [e] + r;
    assert r'[1..] == r;
    if DistinctTipos(r') {
      forall y | y in r ensures y.tipo != e.tipo {
        var j :| 0 <= j < |r| && r[j] == y;
        assert r'[0] == e && r'[j + 1] == y;
      }
      forall i, j | 0 <= i < j < |r| ensures r[i].tipo != r[j].tipo {
        assert r'[i + 1] == r[i] && r'[j + 1] == r[j];
      }
    }
    if DistinctTipos(r) && e.tipo !in TiposOf(r) {
      forall i, j | 0 <= i < j < |r'| ensures r'[i].tipo != r'[j].tipo {
        if i > 0 {
          assert r'[i] == r[i - 1] && r'[j] == r[j - 1];
        } else {
          assert r'[j] == r[j - 1];
          assert r[j - 1].tipo in TiposOf(r);
        }
      }
    }
  }

  /** Count one more ticket of type `x`: its group grows by one, or a new group
      of one is added after the others. */
  function Bump(r: seq<TypeCount>, x: string): (r': seq<TypeCount>)
    requires DistinctTipos(r)
    ensures DistinctTipos(r')
    ensures TiposOf(r') == TiposOf(r) + {x}
    ensures SumCantidad(r') == SumCantidad(r) + 1
    ensures forall e | e in r' && e.tipo != x :: e in r
    ensures forall e | e in r' && e.tipo == x :: e.cantidad == CantidadOf(r, x) + 1
  {
    if |r| == 0 then
      Prepend(TypeCount(x, 1), []);
      assert [TypeCount(x, 1)] + [] == [TypeCount(x, 1)];
      [TypeCount(x, 1)]
    else
      var head := r[0];
      var rest := r[1..];
      assert r == [head] + rest;
      Prepend(head, rest);
      if head.tipo == x then
        var h' := head.(cantidad := head.cantidad + 1);
        Prepend(h', rest);
        [h'] + rest
      else
        var tail := Bump(rest, x);
        Prepend(head, tail);
        [head] + tail
  }

  /** `r` groups the scan `ts` by type: one group per type present, each with the
      number of scanned rows of that type, together counting every row. */
  ghost predicate Groups(ts: seq<Ticket>, r: seq<TypeCount>) {
    && DistinctTipos(r)
    && (forall e | e in r :: e.cantidad == CountWhere(ts, TipoIs(e.tipo)) && e.cantidad > 0)
    && (forall i | 0 <= i < |ts| :: ts[i].tipo in TiposOf(r))
    && SumCantidad(r) == |ts|
  }

  /** The count `r` records for `x` is the number of rows of type `x` in `ts`. */
  lemma GroupedCount(ts: seq<Ticket>, r: seq<TypeCount>, x: string)
    requires Groups(ts, r)
    ensures CantidadOf(r, x) == CountWhere(ts, TipoIs(x))
  {
    if x in TiposOf(r) {
      var e :| e in r && e.tipo == x;
      CantidadOfEntry(r, e);
    } else {
      CantidadOfAbsent(r, x);
      CountAbsentTipo(ts, x);
    }
  }

  /** After counting the last row, every group still counts its type's rows. */
  lemma GroupsStepCounts(ts: seq<Ticket>, r: seq<TypeCount>)
    requires |ts| > 0 && Groups(ts[..|ts| - 1], r)
    ensures forall e | e in Bump(r, ts[|ts| - 1].tipo) ::
      e.cantidad == CountWhere(ts, TipoIs(e.tipo)) && e.cantidad > 0
  {
    var prev := ts[..|ts| - 1];
    var x := ts[|ts| - 1].tipo;
    GroupedCount(prev, r, x);
    forall e | e in Bump(r, x) ensures e.cantidad == CountWhere(ts, TipoIs(e.tipo)) && e.cantidad > 0 {
      assert CountWhere(ts, TipoIs(e.tipo)) == CountWhere(prev, TipoIs(e.tipo)) + (if e.tipo == x then 1 else 0);
      if e.tipo != x {
        assert e in r;
      }
    }
  }

  /** After counting the last row, every scanned row's type has a group. */
  lemma GroupsStepCovers(ts: seq<Ticket>, r: seq<TypeCount>)
    requires |ts| > 0 && DistinctTipos(r)
    requires forall i | 0 <= i < |ts| - 1 :: ts[i].tipo in TiposOf(r)
    ensures forall i | 0 <= i < |ts| :: ts[i].tipo in TiposOf(Bump(r, ts[|ts| - 1].tipo))
  {
    var b := Bump(r, ts[|ts| - 1].tipo);
    CoveredStep(ts, TiposOf(r), TiposOf(b));
  }

  /** If the types before the last row are among `before`, then all types are
      among `before` plus the last row's type. */
  lemma CoveredStep(ts: seq<Ticket>, before: set<string>, after: set<string>)
    requires |ts| > 0 && after == before + {ts[|ts| - 1].tipo}
    requires forall i | 0 <= i < |ts| - 1 :: ts[i].tipo in before
    ensures forall i | 0 <= i < |ts| :: ts[i].tipo in after
  {
  }

  /** Counting the last row of a scan into the groups of the rows before it. */
  lemma GroupsStep(ts: seq<Ticket>, r: seq<TypeCount>)
    requires |ts| > 0 && Groups(ts[..|ts| - 1], r)
    ensures Groups(ts, Bump(r, ts[|ts| - 1].tipo))
  {
    GroupsStepCounts(ts, r);
    var prev := ts[..|ts| - 1];
    assert forall i | 0 <= i < |ts| - 1 :: ts[i] == prev[i];
    GroupsStepCovers(ts, r);
  }

  /** GROUP BY tipo over a scan, groups in order of first appearance. */
  function Tally(ts: seq<Ticket>): (r: seq<TypeCount>)
    ensures DistinctTipos(r)
    ensures forall e | e in r :: e.cantidad == CountWhere(ts, TipoIs(e.tipo)) && e.cantidad > 0
    ensures forall i | 0 <= i < |ts| :: ts[i].tipo in TiposOf(r)
    ensures SumCantidad(r) == |ts|
  {
    if |ts| == 0 then []
    else
      var r := Tally(ts[..|ts| - 1]);
      GroupsStep(ts, r);
      Bump(r, ts[|ts| - 1].tipo)
  }

  lemma {:induction false} SumConcat(a: seq<TypeCount>, b: seq<TypeCount>)
    ensures SumCantidad(a + b) == SumCantidad(a) + SumCantidad(b)
  {
    if |a| == 0 {
      assert a + b == b;
    } else {
      assert (a + b)[1..] == a[1..] + b;
      SumConcat(a[1..], b);
    }
  }

  /** Removing position `i` of `b` removes one occurrence of `b[i]`. */
  lemma RemoveAt(b: seq<TypeCount>, i: int)
    requires 0 <= i < |b|
    ensures multiset(b[..i] + b[i + 1..]) == multiset(b) - multiset{b[i]}
  {
    assert b == b[..i] + [b[i]] + b[i + 1..];
  }

  /** Removing position `i` of `b` removes the count of `b[i]` from the total. */
  lemma {:induction false} RemoveAtSum(b: seq<TypeCount>, i: int)
    requires 0 <= i < |b|
    ensures SumCantidad(b) == b[i].cantidad + SumCantidad(b[..i] + b[i + 1..])
    decreases i
  {
    if i == 0 {
      assert b[..0] + b[1..] == b[1..];
    } else {
      var t := b[1..];
      RemoveAtSum(t, i - 1);
      assert b[..i] + b[i + 1..] == [b[0]] + (t[..i - 1] + t[i..]);
    }
  }

  lemma FindIndex(b: seq<TypeCount>, x: TypeCount) returns (i: int)
    requires x in multiset(b)
    ensures 0 <= i < |b| && b[i] == x
  {
    assert x in b;
    i :| 0 <= i < |b| && b[i] == x;
  }

  lemma DropFirst(a: seq<TypeCount>)
    requires |a| > 0
    ensures multiset(a[1..]) == multiset(a) - multiset{a[0]}
  {
    assert a == [a[0]] + a[1..];
  }

  /** Reordering the groups does not change their total. */
  lemma {:induction false} PermutationKeepsSum(a: seq<TypeCount>, b: seq<TypeCount>)
    requires multiset(a) == multiset(b)
    ensures SumCantidad(a) == SumCantidad(b)
    decreases |a|
  {
    if |a| == 0 {
      assert |b| == |multiset(b)| == 0;
    } else {
      var i := FindIndex(b, a[0]);
      RemoveAt(b, i);
      RemoveAtSum(b, i);
      DropFirst(a);
      PermutationKeepsSum(a[1..], b[..i] + b[i + 1..]);
    }
  }

  /** Every group of `b'`, the groups of `a` but the first, has a type other than the first's. */
  lemma OthersDiffer(a: seq<TypeCount>, b': seq<TypeCount>)
    requires |a| > 0 && DistinctTipos(a)
    requires multiset(a[1..]) == multiset(b')
    ensures forall e | e in b' :: e.tipo != a[0].tipo
  {
    forall e | e in b' ensures e.tipo != a[0].tipo {
      assert e in multiset(a[1..]);
      var j :| 0 <= j < |a[1..]| && a[1..][j] == e;
      assert a[j + 1] == e;
    }
  }

  /** Putting back at position `i` a group whose type no other group has keeps types distinct. */
  lemma InsertAtKeepsDistinct(b: seq<TypeCount>, i: int)
    requires 0 <= i < |b|
    requires DistinctTipos(b[..i] + b[i + 1..])
    requires forall e | e in b[..i] + b[i + 1..] :: e.tipo != b[i].tipo
    ensures DistinctTipos(b)
  {
    var b' := b[..i] + b[i + 1..];
    forall p, q | 0 <= p < q < |b| ensures b[p].tipo != b[q].tipo {
      if p == i {
        assert b[q] == b'[q - 1];
      } else if q == i {
        assert b[p] == b'[p];
      } else if q < i {
        assert b[p] == b'[p] && b[q] == b'[q];
      } else if p < i {
        assert b[p] == b'[p] && b[q] == b'[q - 1];
      } else {
        assert b[p] == b'[p - 1] && b[q] == b'[q - 1];
      }
    }
  }

  /** Reordering groups with distinct types keeps their types distinct. */
  lemma {:induction false} PermutationKeepsDistinct(a: seq<TypeCount>, b: seq<TypeCount>)
    requires multiset(a) == multiset(b) && DistinctTipos(a)
    ensures DistinctTipos(b)
    decreases |a|
  {
    if |a| > 0 {
      var i := FindIndex(b, a[0]);
      var b' := b[..i] + b[i + 1..];
      RemoveAt(b, i);
      DropFirst(a);
      assert DistinctTipos(a[1..]);
      PermutationKeepsDistinct(a[1..], b');
      OthersDiffer(a, b');
      InsertAtKeepsDistinct(b, i);
    }
  }

  /** The groups of a full scan count the table itself. */
  lemma TallyCountsTable(m: map<int, Ticket>)
    ensures forall e | e in Tally(Rows(m)) :: e.cantidad == |KeysWhere(m, TipoIs(e.tipo))|
  {
    forall e | e in Tally(Rows(m)) ensures e.cantidad == |KeysWhere(m, TipoIs(e.tipo))| {
      CountRowsIsCardinality(m, TipoIs(e.tipo));
    }
  }

  /** Every ticket's type has a group in the tally of a full scan. */
  lemma TallyCoversTable(m: map<int, Ticket>)
    ensures forall k | k in m :: m[k].tipo in TiposOf(Tally(Rows(m)))
  {
    var ts := Rows(m);
    forall k | k in m ensures m[k].tipo in TiposOf(Tally(ts)) {
      assert m[k] in m.Values;
      var i :| 0 <= i < |ts| && ts[i] == m[k];
    }
  }

  /** A reordering of the groups has the same groups and types. */
  lemma SameGroups(a: seq<TypeCount>, b: seq<TypeCount>)
    requires multiset(a) == multiset(b)
    ensures forall e :: e in b <==> e in a
    ensures TiposOf(b) == TiposOf(a)
  {
    assert forall e :: e in b <==> e in multiset(b);
    assert forall e :: e in a <==> e in multiset(a);
  }

  /** GET /api/estadisticas/tipos: one group per type present in the table, with
      its number of tickets, largest group first. */
  function CountByType(s: Store, caller: Caller): (r: Result<seq<TypeCount>>)
    ensures r.Err? <==> caller.rol != Tecnico
    ensures r.Err? ==> r.error == Forbidden
    ensures r.Ok? ==> Sorting.NonIncreasing(r.value, Cantidad)
    ensures r.Ok? ==> DistinctTipos(r.value)
    ensures r.Ok? ==> forall e | e in r.value :: e.cantidad == |KeysWhere(s.tickets, TipoIs(e.tipo))| && e.cantidad > 0
    ensures r.Ok? ==> forall k | k in s.tickets :: s.tickets[k].tipo in TiposOf(r.value)
    ensures r.Ok? ==> SumCantidad(r.value) == |s.tickets|
  {
    if caller.rol != Tecnico then Err(Forbidden)
    else
      var ts := Rows(s.tickets);
      var groups := Tally(ts);
      var r := Sorting.Sort(groups, Cantidad);
      PermutationKeepsSum(groups, r);
      PermutationKeepsDistinct(groups, r);
      TallyCountsTable(s.tickets);
      TallyCoversTable(s.tickets);
      SameGroups(groups, r);
      Ok(r)
  }
}
