/**
 The store as a state machine: every request that can change the store, applied
 one at a time, each as one atomic step. The properties here hold along any
 sequence of requests: owners and the other identity fields never change,
 tickets never disappear, the store invariant is kept while the clock runs
 forward, plain users cannot move a ticket through its lifecycle, and a ticket
 has a resolution time exactly when some update once resolved it.
 */
module Lifecycle {
  import opened Schema
  import Tickets
  import Comments
  import Registration

  /** The requests that write to the store. */
  datatype Action =
    | CreateTicket(form: Tickets.TicketForm)
    | UpdateTicket(id: int, changes: Tickets.TicketChanges)
    | AssignTicket(id: int, tecnicoId: Option<int>)
    | CommentOn(id: int, texto: string)
    | RegisterUser(registration: Registration.Form)

  /** An action, who sent it, and the clock reading when the database executed it. */
  datatype Request = Request(caller: Caller, action: Action, now: nat)

  /** The handler a request is routed to: the store it leaves, or its error. */
  function Apply(s: Store, req: Request): Result<Store> {
    match req.action
    case CreateTicket(f) =>
      var r := Tickets.Create(s, req.caller, f, req.now);
      if r.Ok? then Ok(r.value.store) else Err(r.error)
    case UpdateTicket(id, ch) => Tickets.Update(s, req.caller, id, ch, req.now)
    case AssignTicket(id, t) => Tickets.Assign(s, req.caller, id, t, req.now)
    case CommentOn(id, texto) =>
      var r := Comments.AddComment(s, req.caller, id, texto, req.now);
      if r.Ok? then Ok(r.value.store) else Err(r.error)
    case RegisterUser(f) =>
      var r := Registration.Register(s, req.caller, f);
      if r.Ok? then Ok(r.value.store) else Err(r.error)
  }

  /** The store after `req`: a refused request leaves it as it was. */
  function Step(s: Store, req: Request): Store {
    match Apply(s, req)
    case Ok(next) => next
    case Err(_) => s
  }

  function Run(s: Store, trace: seq<Request>): Store
    decreases |trace|
  {
    if |trace| == 0 then s
    else Step(Run(s, trace[..|trace| - 1]), trace[|trace| - 1])
  }

  // ---------------------------------------------------------------- ownership

  lemma StepPreservesKeyed(s: Store, req: Request)
    requires Keyed(s)
    ensures Keyed(Step(s, req))
  {
    var c := req.caller;
    match req.action
    case CreateTicket(f) =>
      if Tickets.Create(s, c, f, req.now).Ok? { Tickets.CreatePreservesKeyed(s, c, f, req.now); }
    case UpdateTicket(id, ch) =>
      if Tickets.Update(s, c, id, ch, req.now).Ok? { Tickets.UpdatePreservesKeyed(s, c, id, ch, req.now); }
    case AssignTicket(id, t) =>
      if Tickets.Assign(s, c, id, t, req.now).Ok? { Tickets.AssignPreservesKeyed(s, c, id, t, req.now); }
    case CommentOn(id, texto) =>
      if Comments.AddComment(s, c, id, texto, req.now).Ok? { Comments.AddCommentPreservesKeyed(s, c, id, texto, req.now); }
    case RegisterUser(f) =>
      if Registration.Register(s, c, f).Ok? { Registration.RegisterPreservesKeyed(s, c, f); }
  }

  /** `Keyed` holds after any sequence of requests. */
  lemma {:induction false} RunPreservesKeyed(s: Store, trace: seq<Request>)
    requires Keyed(s)
    ensures Keyed(Run(s, trace))
    decreases |trace|
  {
    if |trace| > 0 {
      RunPreservesKeyed(s, trace[..|trace| - 1]);
      StepPreservesKeyed(Run(s, trace[..|trace| - 1]), trace[|trace| - 1]);
    }
  }

  /** No request removes a ticket. */
  lemma StepKeepsKeys(s: Store, req: Request)
    ensures s.tickets.Keys <= Step(s, req).tickets.Keys
  {
    match req.action
    case CreateTicket(f) =>
    case UpdateTicket(id, ch) =>
    case AssignTicket(id, t) =>
    case CommentOn(id, texto) =>
    case RegisterUser(f) =>
  }

  lemma LastStepKeepsKeys(s: Store, trace: seq<Request>)
    requires |trace| > 0
    ensures Run(s, trace[..|trace| - 1]).tickets.Keys <= Run(s, trace).tickets.Keys
  {
    StepKeepsKeys(Run(s, trace[..|trace| - 1]), trace[|trace| - 1]);
  }

  /** No request removes a ticket or changes its id, owner, texts or creation time. */
  lemma StepKeepsIdentity(s: Store, req: Request)
    requires Keyed(s)
    ensures forall k | k in s.tickets :: k in Step(s, req).tickets && SameIdentity(s.tickets[k], Step(s, req).tickets[k])
  {
    match req.action
    case CreateTicket(f) =>
    case UpdateTicket(id, ch) =>
    case AssignTicket(id, t) =>
    case CommentOn(id, texto) =>
    case RegisterUser(f) =>
  }

  /** Along any sequence of requests every ticket keeps its owner and identity. */
  lemma {:induction false} RunKeepsIdentity(s: Store, trace: seq<Request>)
    requires Keyed(s)
    ensures forall k | k in s.tickets :: k in Run(s, trace).tickets && SameIdentity(s.tickets[k], Run(s, trace).tickets[k])
    decreases |trace|
  {
    if |trace| > 0 {
      RunKeepsIdentity(s, trace[..|trace| - 1]);
      RunPreservesKeyed(s, trace[..|trace| - 1]);
      StepKeepsIdentity(Run(s, trace[..|trace| - 1]), trace[|trace| - 1]);
    }
  }

  /** A ticket present after a prefix of the requests is still present after all of them. */
  lemma {:induction false} TicketsPersist(s: Store, trace: seq<Request>, i: nat)
    requires i <= |trace|
    ensures Run(s, trace[..i]).tickets.Keys <= Run(s, trace).tickets.Keys
    decreases |trace|
  {
    if i < |trace| {
      var n := |trace| - 1;
      assert trace[..n][..i] == trace[..i];
      TicketsPersist(s, trace[..n], i);
      LastStepKeepsKeys(s, trace);
    } else {
      assert trace[..i] == trace;
    }
  }

  // ---------------------------------------------------------------- store invariant

  lemma StepPreservesValid(s: Store, req: Request)
    requires Valid(s) && NotAfter(s, req.now)
    ensures Valid(Step(s, req)) && NotAfter(Step(s, req), req.now)
  {
    if Apply(s, req).Ok? {
      match req.action
      case CreateTicket(f) => Tickets.CreatePreservesValid(s, req.caller, f, req.now);
      case UpdateTicket(id, ch) => Tickets.UpdatePreservesValid(s, req.caller, id, ch, req.now);
      case AssignTicket(id, t) => Tickets.AssignPreservesValid(s, req.caller, id, t, req.now);
      case CommentOn(id, texto) => Comments.AddCommentPreservesValid(s, req.caller, id, texto, req.now);
      case RegisterUser(f) => Registration.RegisterPreservesValid(s, req.caller, f);
    }
  }

  /** The clock never runs backwards: requests come in time order, none before the
      latest timestamp already in the store. */
  ghost predicate ClockForward(s: Store, trace: seq<Request>) {
    && (|trace| > 0 ==> NotAfter(s, trace[0].now))
    && (forall i, j | 0 <= i < j < |trace| :: trace[i].now <= trace[j].now)
  }

  lemma ClockForwardPrefix(s: Store, trace: seq<Request>, i: nat)
    requires ClockForward(s, trace) && i <= |trace|
    ensures ClockForward(s, trace[..i])
  {
  }

  /** While the clock runs forward, every reachable store satisfies the invariant. */
  lemma {:induction false} RunPreservesValid(s: Store, trace: seq<Request>)
    requires Valid(s) && ClockForward(s, trace)
    ensures Valid(Run(s, trace))
    ensures |trace| > 0 ==> NotAfter(Run(s, trace), trace[|trace| - 1].now)
    decreases |trace|
  {
    if |trace| > 0 {
      var n := |trace| - 1;
      ClockForwardPrefix(s, trace, n);
      RunPreservesValid(s, trace[..n]);
      if n > 0 {
        NotAfterLater(Run(s, trace[..n]), trace[n - 1].now, trace[n].now);
      } else {
        assert trace[..n] == [];
      }
      StepPreservesValid(Run(s, trace[..n]), trace[n]);
    }
  }

  // ---------------------------------------------------------------- role gating

  predicate TechnicianOnly(a: Action) {
    a.UpdateTicket? || a.AssignTicket? || a.RegisterUser?
  }

  /** Updates, assignments and registrations from anyone but a technician are
      refused with Forbidden and change nothing. */
  lemma NonTechniciansAreRefused(s: Store, req: Request)
    requires req.caller.rol != Tecnico && TechnicianOnly(req.action)
    ensures Apply(s, req) == Err(Forbidden)
    ensures Step(s, req) == s
  {
  }

  /** Whatever a plain user sends, no existing ticket changes its estado, prioridad,
      assignee or resolution time, and no account is created. */
  lemma UsersCannotMoveTickets(s: Store, req: Request)
    requires Keyed(s) && req.caller.rol == Usuario
    ensures forall k | k in s.tickets ::
      var t := s.tickets[k];
      var t' := Step(s, req).tickets[k];
      && t'.estado == t.estado && t'.prioridad == t.prioridad
      && t'.asignadoA == t.asignadoA && t'.fechaResolucion == t.fechaResolucion
    ensures Step(s, req).users == s.users
  {
    StepKeepsIdentity(s, req);
    if req.action.CreateTicket? && Apply(s, req).Ok? {
      assert Step(s, req) == Tickets.Create(s, req.caller, req.action.form, req.now).value.store;
    }
  }

  // ---------------------------------------------------------------- resolution time

  /** `req` is an update that sets ticket `id` to `resuelto` and is carried out. */
  predicate Resolves(s: Store, req: Request, id: int) {
    && req.action.UpdateTicket?
    && req.action.id == id
    && req.action.changes.estado == "resuelto"
    && Apply(s, req).Ok?
  }

  predicate HasResolution(s: Store, id: int)
    requires id in s.tickets
  {
    s.tickets[id].fechaResolucion.Some?
  }

  /** One request sets a resolution time only by resolving the ticket, and never
      clears one; a ticket created by the request starts without one. */
  lemma StepResolution(s: Store, req: Request, id: int)
    requires Keyed(s)
    requires id in Step(s, req).tickets
    ensures HasResolution(Step(s, req), id) <==> (id in s.tickets && HasResolution(s, id)) || Resolves(s, req, id)
  {
  }

  lemma ResolvesNeedsTicket(s: Store, req: Request, id: int)
    requires Resolves(s, req, id)
    ensures id in s.tickets
  {
  }

  /** One of the first `n` requests of `trace` resolved ticket `id`. */
  ghost predicate ResolvedWithin(s: Store, trace: seq<Request>, id: int, n: nat)
    requires n <= |trace|
  {
    exists i | 0 <= i < n :: Resolves(Run(s, trace[..i]), trace[i], id)
  }

  lemma ResolvedWithinPrefix(s: Store, trace: seq<Request>, id: int, n: nat)
    requires n < |trace|
    ensures ResolvedWithin(s, trace[..n], id, n) <==> ResolvedWithin(s, trace, id, n)
  {
    assert forall i | 0 <= i < n :: trace[..n][..i] == trace[..i] && trace[..n][i] == trace[i];
  }

  lemma ResolvedWithinNext(s: Store, trace: seq<Request>, id: int, n: nat)
    requires n < |trace|
    ensures ResolvedWithin(s, trace, id, n + 1) <==>
      ResolvedWithin(s, trace, id, n) || Resolves(Run(s, trace[..n]), trace[n], id)
  {
  }

  /** Requests before the ticket existed did not resolve it. */
  lemma NotResolvedBeforeExisting(s: Store, trace: seq<Request>, id: int, n: nat)
    requires Keyed(s) && n <= |trace|
    requires id !in Run(s, trace[..n]).tickets
    ensures !ResolvedWithin(s, trace, id, n)
  {
    forall i | 0 <= i < n
      ensures !Resolves(Run(s, trace[..i]), trace[i], id)
    {
      TicketsPersist(s, trace[..n], i);
      assert trace[..n][..i] == trace[..i];
      if Resolves(Run(s, trace[..i]), trace[i], id) {
        ResolvesNeedsTicket(Run(s, trace[..i]), trace[i], id);
      }
    }
  }

  /** A ticket has a resolution time exactly when it had one at the start or some
      request along the way resolved it. */
  lemma {:induction false} ResolutionRecordsHistory(s: Store, trace: seq<Request>, id: int)
    requires Keyed(s)
    requires id in Run(s, trace).tickets
    ensures HasResolution(Run(s, trace), id) <==>
      (id in s.tickets && HasResolution(s, id)) || ResolvedWithin(s, trace, id, |trace|)
    decreases |trace|
  {
    if |trace| == 0 {
      assert Run(s, trace) == s;
    } else {
      var n := |trace| - 1;
      var sp := Run(s, trace[..n]);
      assert Run(s, trace) == Step(sp, trace[n]);
      RunPreservesKeyed(s, trace[..n]);
      StepResolution(sp, trace[n], id);
      ResolvedWithinNext(s, trace, id, n);
      if id in sp.tickets {
        ResolutionRecordsHistory(s, trace[..n], id);
        ResolvedWithinPrefix(s, trace, id, n);
      } else {
        RunKeepsIdentity(s, trace[..n]);
        NotResolvedBeforeExisting(s, trace, id, n);
        if Resolves(sp, trace[n], id) {
          ResolvesNeedsTicket(sp, trace[n], id);
        }
      }
    }
  }

  /** From an empty database: a ticket has a resolution time if and only if some
      update once set it to `resuelto`. */
  lemma ResolvedExactlyWhenEverResolved(trace: seq<Request>, id: int)
    requires id in Run(Empty(), trace).tickets
    ensures HasResolution(Run(Empty(), trace), id) <==>
      exists i | 0 <= i < |trace| :: Resolves(Run(Empty(), trace[..i]), trace[i], id)
  {
    ResolutionRecordsHistory(Empty(), trace, id);
  }
}
