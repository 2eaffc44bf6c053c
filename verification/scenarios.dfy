/**
 A ticket's life from an empty database: a user opens it, another user is kept
 out, a technician takes it, resolves it, raises its priority and finally moves
 it back to pending. The last step shows that the resolution time outlives the
 reopening: the update only ever sets `fecha_resolucion` (server.js:325-334)
 and the assignment leaves it alone (server.js:361-364).
 */
module Scenarios {
  import opened Schema
  import Tickets

  const Owner := Caller(1, Usuario)
  const Other := Caller(2, Usuario)
  const Tech := Caller(3, Tecnico)

  const Printer := Tickets.TicketForm("hardware", "Printer down", "No paper feed", "Floor 2")

  /** The first ticket of an empty database gets id 1, starts pending with medium
      priority and belongs to its creator; another user may not read it. */
  lemma OpenedTicket(now: nat)
    ensures
      var c := Tickets.Create(Empty(), Owner, Printer, now);
      && c.Ok? && c.value.id == 1
      && c.value.store.tickets[1].estado == Pendiente
      && c.value.store.tickets[1].prioridad == Media
      && c.value.store.tickets[1].usuarioId == Owner.id
      && Tickets.Get(c.value.store, Other, 1) == Err(Forbidden)
      && Tickets.Get(c.value.store, Owner, 1).Ok?
  {
  }

  /** The store after the ticket is opened at time `t0`. */
  function Opened(t0: nat): (s: Store)
    ensures 1 in s.tickets && s.tickets[1].fechaResolucion == None
  {
    Tickets.Create(Empty(), Owner, Printer, t0).value.store
  }

  /** A technician who names no one takes the ticket and puts it in progress. */
  lemma SelfAssignment(t0: nat, t1: nat)
    ensures
      var a := Tickets.Assign(Opened(t0), Tech, 1, None, t1);
      && a.Ok?
      && a.value.tickets[1].asignadoA == Some(Tech.id)
      && a.value.tickets[1].estado == EnProgreso
      && a.value.tickets[1].fechaResolucion == None
  {
  }

  /** Resolving at `t2` records `t2`; raising the priority at `t3` keeps it; moving
      the ticket back to pending at `t4` keeps it too, so a pending ticket carries
      a resolution time. */
  lemma ResolutionOutlivesReopening(t0: nat, t1: nat, t2: nat, t3: nat, t4: nat)
    ensures
      var s1 := Tickets.Assign(Opened(t0), Tech, 1, None, t1).value;
      var s2 := Tickets.Update(s1, Tech, 1, Tickets.TicketChanges("resuelto", "", None), t2);
      && s2.Ok? && s2.value.tickets[1].estado == Resuelto
      && s2.value.tickets[1].fechaResolucion == Some(t2)
      && var s3 := Tickets.Update(s2.value, Tech, 1, Tickets.TicketChanges("", "alta", None), t3);
      && s3.Ok? && s3.value.tickets[1].prioridad == Alta
      && s3.value.tickets[1].fechaResolucion == Some(t2)
      && var s4 := Tickets.Update(s3.value, Tech, 1, Tickets.TicketChanges("pendiente", "", None), t4);
      && s4.Ok? && s4.value.tickets[1].estado == Pendiente
      && s4.value.tickets[1].fechaResolucion == Some(t2)
  {
  }

  /** A user's attempt to resolve the ticket is refused. */
  lemma OwnerCannotResolve(t0: nat, t1: nat)
    ensures Tickets.Update(Opened(t0), Owner, 1, Tickets.TicketChanges("resuelto", "", None), t1) == Err(Forbidden)
  {
  }
}
