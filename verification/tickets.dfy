/**
 The ticket routes of the server (server.js:180-376): listing with filters,
 reading one ticket, creating, the partial update and the assignment. Each
 handler is one atomic step from a store to a result; `now` stands for the
 CURRENT_TIMESTAMP the database would write.
 */
module Tickets {
  import opened Schema
  import Table
  import Sorting
  import Comments

  // ---------------------------------------------------------------- create

  /** The body of POST /api/tickets; an empty string stands for a missing field. */
  datatype TicketForm = TicketForm(tipo: string, titulo: string, descripcion: string, ubicacion: string)

  predicate Complete(f: TicketForm) {
    f.tipo != "" && f.titulo != "" && f.descripcion != "" && f.ubicacion != ""
  }

  /** POST /api/tickets (server.js:281-301): any caller may open a ticket, which
      starts pending, of medium priority, unassigned and unresolved, owned by the caller. */
  function Create(s: Store, caller: Caller, f: TicketForm, now: nat): (r: Result<Created>)
    ensures r.Err? <==> !Complete(f)
    ensures r.Err? ==> r.error == Validation
    ensures r.Ok? ==>
      && r.value.id == s.nextTicketId
      && r.value.store.tickets.Keys == s.tickets.Keys + {r.value.id}
    ensures r.Ok? ==>
      var t := r.value.store.tickets[r.value.id];
      && t.id == r.value.id
      && t.tipo == f.tipo && t.titulo == f.titulo
      && t.descripcion == f.descripcion && t.ubicacion == f.ubicacion
      && t.usuarioId == caller.id
      && t.estado == Pendiente && t.prioridad == Media
      && t.asignadoA == None && t.fechaResolucion == None
      && t.fechaCreacion == now && t.fechaActualizacion == now
    ensures r.Ok? ==>
      var s' := r.value.store;
      && (forall k | k in s.tickets && k != r.value.id :: s'.tickets[k] == s.tickets[k])
      && s'.nextTicketId == s.nextTicketId + 1
      && s'.users == s.users && s'.nextUserId == s.nextUserId
      && s'.comments == s.comments && s'.nextCommentId == s.nextCommentId
    ensures r.Ok? && Keyed(s) ==> r.value.id !in s.tickets
  {
    if !Complete(f) then Err(Validation)
    else
      var id := s.nextTicketId;
      var t := Ticket(id, f.tipo, f.titulo, f.descripcion, f.ubicacion, caller.id,
                      Pendiente, Media, None, now, now, None);
      Ok(Created(s.(tickets := s.tickets[id := t], nextTicketId := id + 1), id))
  }

  // ---------------------------------------------------------------- read one

  /** A ticket together with its comments, as GET /api/tickets/:id answers it. */
  datatype TicketView = TicketView(ticket: Ticket, comentarios: seq<Comment>)

  /** Whether `caller` may read ticket `t` (server.js:258): technicians read any
      ticket, users only their own. */
  predicate MayRead(caller: Caller, t: Ticket) {
    caller.rol == Tecnico || t.usuarioId == caller.id
  }

  /** GET /api/tickets/:id (server.js:234-278). A missing ticket is reported
      before ownership is considered. */
  function Get(s: Store, caller: Caller, id: int): (r: Result<TicketView>)
    ensures r == Err(NotFound) <==> id !in s.tickets
    ensures r == Err(Forbidden) <==>
      id in s.tickets && caller.rol == Usuario && s.tickets[id].usuarioId != caller.id
    ensures r.Err? ==> r.error == NotFound || r.error == Forbidden
    ensures r.Ok? ==> id in s.tickets && r.value.ticket == s.tickets[id]
    ensures r.Ok? ==> forall c :: c in r.value.comentarios <==> c in s.comments && c.ticketId == id
    ensures r.Ok? ==> forall c ::
      multiset(r.value.comentarios)[c] == if c.ticketId == id then multiset(s.comments)[c] else 0
    ensures r.Ok? ==> Comments.OldestFirst(r.value.comentarios)
  {
    if id !in s.tickets then Err(NotFound)
    else if !MayRead(caller, s.tickets[id]) then Err(Forbidden)
    else Ok(TicketView(s.tickets[id], Comments.CommentsOf(s, id)))
  }

  // ---------------------------------------------------------------- list

  /** The query of GET /api/tickets. An empty string or None stands for a filter
      that was not given; the numeric filters carry the number the text denotes. */
  datatype ListQuery = ListQuery(estado: string, prioridad: string, asignadoA: Option<int>, usuarioId: Option<int>)

  /** The explicit filters of the query, each an equality on one column. */
  predicate MatchesQuery(q: ListQuery, t: Ticket) {
    && (q.estado == "" || EstadoName(t.estado) == q.estado)
    && (q.prioridad == "" || PrioridadName(t.prioridad) == q.prioridad)
    && (q.asignadoA.None? || t.asignadoA == Some(q.asignadoA.value))
    && (q.usuarioId.None? || t.usuarioId == q.usuarioId.value)
  }

  /** A row is listed when it passes the explicit filters and, for a plain user,
      the implicit filter on the caller's own id (server.js:218-221). */
  predicate Selects(q: ListQuery, caller: Caller, t: Ticket) {
    MatchesQuery(q, t) && (caller.rol == Usuario ==> t.usuarioId == caller.id)
  }

  function NewestFirstKey(t: Ticket): int {
    t.fechaCreacion
  }

  /** ORDER BY t.fecha_creacion DESC: the largest-first order on `NewestFirstKey`. */
  predicate NewestFirst(ts: seq<Ticket>) {
    Sorting.NonIncreasing(ts, NewestFirstKey)
  }

  function Filter(ts: seq<Ticket>, q: ListQuery, caller: Caller): (r: seq<Ticket>)
    ensures forall t :: t in r <==> t in ts && Selects(q, caller, t)
    ensures |r| <= |ts|
  {
    if |ts| == 0 then []
    else
      var rest := Filter(ts[1..], q, caller);
      assert forall t :: t in ts <==> t == ts[0] || t in ts[1..];
      if Selects(q, caller, ts[0]) then [ts[0]] + rest else rest
  }

  /** Filtering keeps the rows in the order of the scan. */
  lemma {:induction false} FilterKeepsAscending(ts: seq<Ticket>, q: ListQuery, caller: Caller)
    requires Table.IdsAscending(ts)
    ensures Table.IdsAscending(Filter(ts, q, caller))
  {
    if |ts| > 0 {
      var rest := Filter(ts[1..], q, caller);
      FilterKeepsAscending(ts[1..], q, caller);
      forall t | t in rest ensures ts[0].id < t.id {
        var i :| 0 <= i < |ts[1..]| && ts[1..][i] == t;
        assert ts[i + 1] == t;
      }
    }
  }

  /** GET /api/tickets (server.js:180-231): exactly the rows the filters select,
      newest first. */
  function List(s: Store, caller: Caller, q: ListQuery): (r: seq<Ticket>)
    ensures forall t | t in r :: t in s.tickets.Values && Selects(q, caller, t)
    ensures forall k | k in s.tickets && Selects(q, caller, s.tickets[k]) :: s.tickets[k] in r
    ensures NewestFirst(r)
    ensures |r| <= |s.tickets|
  {
    var r := Sorting.Sort(Filter(Table.Rows(s.tickets), q, caller), NewestFirstKey);
    assert forall t :: t in r <==> t in multiset(r);
    r
  }

  /** The list holds each selected row once, as long as every row is stored under
      its own id. */
  lemma ListedOnce(s: Store, caller: Caller, q: ListQuery)
    requires Table.KeyedById(s.tickets)
    ensures forall t :: multiset(List(s, caller, q))[t] <= 1
  {
    var selected := Filter(Table.Rows(s.tickets), q, caller);
    Table.RowsAscending(s.tickets);
    FilterKeepsAscending(Table.Rows(s.tickets), q, caller);
    Sorting.IncreasingHasNoRepeats(selected, Table.IdOf);
    assert multiset(List(s, caller, q)) == multiset(selected);
  }

  // ---------------------------------------------------------------- update

  /** The body of PUT /api/tickets/:id. An empty `estado` or `prioridad` was not
      given; `asignadoA` is None when the key is absent and Some(None) for null. */
  datatype TicketChanges = TicketChanges(estado: string, prioridad: string, asignadoA: Option<Option<int>>)

  /** The texts the CHECK constraints on `estado` and `prioridad` accept. */
  predicate Admissible(ch: TicketChanges) {
    && (ch.estado == "" || ParseEstado(ch.estado).Some?)
    && (ch.prioridad == "" || ParsePrioridad(ch.prioridad).Some?)
  }

  /** The row after the UPDATE of server.js:315-337. */
  function Patch(t: Ticket, ch: TicketChanges, now: nat): Ticket
    requires Admissible(ch)
  {
    t.(estado := if ch.estado != "" then ParseEstado(ch.estado).value else t.estado,
       prioridad := if ch.prioridad != "" then ParsePrioridad(ch.prioridad).value else t.prioridad,
       asignadoA := if ch.asignadoA.Some? then ch.asignadoA.value else t.asignadoA,
       fechaResolucion := if ch.estado == "resuelto" then Some(now) else t.fechaResolucion,
       fechaActualizacion := now)
  }

  /** PUT /api/tickets/:id (server.js:304-350), technicians only. A missing row is
      NotFound; on an existing row a value outside an enumeration breaks its CHECK
      constraint and the statement fails as a whole. */
  function Update(s: Store, caller: Caller, id: int, ch: TicketChanges, now: nat): (r: Result<Store>)
    ensures r == Err(Forbidden) <==> caller.rol != Tecnico
    ensures caller.rol == Tecnico ==> (r == Err(NotFound) <==> id !in s.tickets)
    ensures r == Err(StorageFailure) <==> caller.rol == Tecnico && id in s.tickets && !Admissible(ch)
    ensures r.Err? ==> r.error == Forbidden || r.error == NotFound || r.error == StorageFailure
    ensures r.Ok? ==>
      var s' := r.value;
      && id in s.tickets
      && s'.tickets.Keys == s.tickets.Keys
      && (forall k | k in s.tickets && k != id :: s'.tickets[k] == s.tickets[k])
      && s' == s.(tickets := s'.tickets)
    ensures r.Ok? ==>
      var t := s.tickets[id];
      var t' := r.value.tickets[id];
      && SameIdentity(t, t')
      && t'.fechaActualizacion == now
      && (ch.estado == "" ==> t'.estado == t.estado)
      && (ch.estado != "" ==> EstadoName(t'.estado) == ch.estado)
      && (ch.prioridad == "" ==> t'.prioridad == t.prioridad)
      && (ch.prioridad != "" ==> PrioridadName(t'.prioridad) == ch.prioridad)
      && (ch.asignadoA.None? ==> t'.asignadoA == t.asignadoA)
      && (ch.asignadoA.Some? ==> t'.asignadoA == ch.asignadoA.value)
      && (ch.estado == "resuelto" ==> t'.fechaResolucion == Some(now))
      && (ch.estado != "resuelto" ==> t'.fechaResolucion == t.fechaResolucion)
  {
    if caller.rol != Tecnico then Err(Forbidden)
    else if id !in s.tickets then Err(NotFound)
    else if !Admissible(ch) then Err(StorageFailure)
    else Ok(s.(tickets := s.tickets[id := Patch(s.tickets[id], ch, now)]))
  }

  // ---------------------------------------------------------------- assign

  /** The technician an assignment goes to (server.js:359): the `tecnico_id` of the
      body unless it is absent or 0, both falsy in JavaScript, else the caller. */
  function AssignTarget(caller: Caller, tecnicoId: Option<int>): int {
    if tecnicoId.Some? && tecnicoId.value != 0 then tecnicoId.value else caller.id
  }

  /** POST /api/tickets/:id/asignar (server.js:353-376), technicians only: the
      ticket goes to the target and is put in progress whatever its estado was. */
  function Assign(s: Store, caller: Caller, id: int, tecnicoId: Option<int>, now: nat): (r: Result<Store>)
    ensures r == Err(Forbidden) <==> caller.rol != Tecnico
    ensures caller.rol == Tecnico ==> (r == Err(NotFound) <==> id !in s.tickets)
    ensures r.Err? ==> r.error == Forbidden || r.error == NotFound
    ensures r.Ok? ==>
      var s' := r.value;
      && id in s.tickets
      && s'.tickets.Keys == s.tickets.Keys
      && (forall k | k in s.tickets && k != id :: s'.tickets[k] == s.tickets[k])
      && s' == s.(tickets := s'.tickets)
    ensures r.Ok? ==>
      var t := s.tickets[id];
      var t' := r.value.tickets[id];
      && SameIdentity(t, t')
      && (tecnicoId.None? || tecnicoId == Some(0) ==> t'.asignadoA == Some(caller.id))
      && (tecnicoId.Some? && tecnicoId.value != 0 ==> t'.asignadoA == tecnicoId)
      && t'.estado == EnProgreso
      && t'.prioridad == t.prioridad
      && t'.fechaActualizacion == now
      && t'.fechaResolucion == t.fechaResolucion
  {
    if caller.rol != Tecnico then Err(Forbidden)
    else if id !in s.tickets then Err(NotFound)
    else
      var t := s.tickets[id];
      Ok(s.(tickets := s.tickets[id := t.(asignadoA := Some(AssignTarget(caller, tecnicoId)),
                                          estado := EnProgreso,
                                          fechaActualizacion := now)]))
  }

  // ---------------------------------------------------------------- properties

  /** The creator reads back the ticket just created, with no comments yet. */
  lemma CreatedTicketReadsBack(s: Store, caller: Caller, f: TicketForm, now: nat)
    requires Keyed(s) && Complete(f)
    ensures
      var c := Create(s, caller, f, now).value;
      var g := Get(c.store, caller, c.id);
      && g.Ok?
      && g.value.ticket.usuarioId == caller.id
      && g.value.ticket.estado == Pendiente
      && g.value.comentarios == []
  {
    var c := Create(s, caller, f, now).value;
    assert c.id in c.store.tickets && c.store.tickets[c.id].usuarioId == caller.id;
    var g := Get(c.store, caller, c.id);
    assert g.Ok?;
    assert c.id !in s.tickets && c.store.comments == s.comments;
    assert forall i | 0 <= i < |s.comments| :: s.comments[i].ticketId != c.id;
    Comments.NoCommentsListed(c.store, c.id);
  }

  /** Every ticket the list shows can also be opened by the same caller. */
  lemma ListedTicketsAreReadable(s: Store, caller: Caller, q: ListQuery)
    requires Keyed(s)
    ensures forall t | t in List(s, caller, q) :: Get(s, caller, t.id).Ok? && Get(s, caller, t.id).value.ticket == t
  {
    forall t | t in List(s, caller, q)
      ensures Get(s, caller, t.id).Ok? && Get(s, caller, t.id).value.ticket == t
    {
      var k :| k in s.tickets && s.tickets[k] == t;
      assert t.id == k;
    }
  }

  /** A plain user sees only their own tickets, whatever the query asks for,
      and cannot open anyone else's. */
  lemma UsersSeeOnlyTheirOwn(s: Store, caller: Caller, q: ListQuery, id: int)
    requires caller.rol == Usuario
    ensures forall t | t in List(s, caller, q) :: t.usuarioId == caller.id
    ensures Get(s, caller, id).Ok? ==> Get(s, caller, id).value.ticket.usuarioId == caller.id
  {
  }

  /** Applying the same changes twice at the same instant is the same as once. */
  lemma UpdateIsIdempotent(s: Store, caller: Caller, id: int, ch: TicketChanges, now: nat)
    requires Update(s, caller, id, ch, now).Ok?
    ensures Update(Update(s, caller, id, ch, now).value, caller, id, ch, now) == Update(s, caller, id, ch, now)
  {
    var t := s.tickets[id];
    var s' := Update(s, caller, id, ch, now).value;
    assert Patch(Patch(t, ch, now), ch, now) == Patch(t, ch, now);
    assert s'.tickets[id := Patch(s'.tickets[id], ch, now)] == s'.tickets;
  }

  /** A resolution time, once recorded, survives every later update and assignment
      of the ticket, including one that moves it back out of `resuelto`. */
  lemma ResolutionIsNeverCleared(s: Store, caller: Caller, id: int, ch: TicketChanges, tecnicoId: Option<int>, now: nat)
    requires id in s.tickets && s.tickets[id].fechaResolucion.Some?
    ensures Update(s, caller, id, ch, now).Ok? ==> Update(s, caller, id, ch, now).value.tickets[id].fechaResolucion.Some?
    ensures Assign(s, caller, id, tecnicoId, now).Ok? ==> Assign(s, caller, id, tecnicoId, now).value.tickets[id].fechaResolucion.Some?
  {
  }

  lemma CreatePreservesKeyed(s: Store, caller: Caller, f: TicketForm, now: nat)
    requires Keyed(s)
    requires Create(s, caller, f, now).Ok?
    ensures Keyed(Create(s, caller, f, now).value.store)
  {
  }

  lemma UpdatePreservesKeyed(s: Store, caller: Caller, id: int, ch: TicketChanges, now: nat)
    requires Keyed(s)
    requires Update(s, caller, id, ch, now).Ok?
    ensures Keyed(Update(s, caller, id, ch, now).value)
  {
  }

  lemma AssignPreservesKeyed(s: Store, caller: Caller, id: int, tecnicoId: Option<int>, now: nat)
    requires Keyed(s)
    requires Assign(s, caller, id, tecnicoId, now).Ok?
    ensures Keyed(Assign(s, caller, id, tecnicoId, now).value)
  {
  }

  lemma CreatePreservesValid(s: Store, caller: Caller, f: TicketForm, now: nat)
    requires Valid(s) && NotAfter(s, now)
    requires Create(s, caller, f, now).Ok?
    ensures Valid(Create(s, caller, f, now).value.store)
    ensures NotAfter(Create(s, caller, f, now).value.store, now)
  {
    CreatePreservesKeyed(s, caller, f, now);
  }

  lemma UpdatePreservesValid(s: Store, caller: Caller, id: int, ch: TicketChanges, now: nat)
    requires Valid(s) && NotAfter(s, now)
    requires Update(s, caller, id, ch, now).Ok?
    ensures Valid(Update(s, caller, id, ch, now).value)
    ensures NotAfter(Update(s, caller, id, ch, now).value, now)
  {
    UpdatePreservesKeyed(s, caller, id, ch, now);
  }

  lemma AssignPreservesValid(s: Store, caller: Caller, id: int, tecnicoId: Option<int>, now: nat)
    requires Valid(s) && NotAfter(s, now)
    requires Assign(s, caller, id, tecnicoId, now).Ok?
    ensures Valid(Assign(s, caller, id, tecnicoId, now).value)
    ensures NotAfter(Assign(s, caller, id, tecnicoId, now).value, now)
  {
    AssignPreservesKeyed(s, caller, id, tecnicoId, now);
  }
}
