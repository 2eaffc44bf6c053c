/**
 The records of the helpdesk store (server.js:34-70) and the vocabulary every
 route handler shares: roles, the two ticket enumerations guarded by CHECK
 constraints, the caller identity carried by a verified token, the error
 answers of the handlers, and the store invariant: what the database
 guarantees, what the handlers keep, and the timestamp order that holds while
 the clock runs forward.
 */
module Schema {

  datatype Option<+T> = None | Some(value: T)

  /** The values the CHECK on `usuarios.rol` admits (server.js:39). */
  datatype Role = Usuario | Tecnico

  /** The values the CHECK on `tickets.estado` admits (server.js:52). */
  datatype Estado = Pendiente | EnProgreso | Resuelto

  /** The values the CHECK on `tickets.prioridad` admits (server.js:53). */
  datatype Prioridad = Baja | Media | Alta

  function RoleName(r: Role): string {
    match r
    case Usuario => "usuario"
    case Tecnico => "tecnico"
  }

  function EstadoName(e: Estado): string {
    match e
    case Pendiente => "pendiente"
    case EnProgreso => "en-progreso"
    case Resuelto => "resuelto"
  }

  function PrioridadName(p: Prioridad): string {
    match p
    case Baja => "baja"
    case Media => "media"
    case Alta => "alta"
  }

  /** The text a CHECK constraint accepts for `rol`, read back as a role. */
  function ParseRole(s: string): (r: Option<Role>)
    ensures r.Some? ==> RoleName(r.value) == s
    ensures r.None? ==> forall x: Role :: RoleName(x) != s
  {
    if s == "usuario" then Some(Usuario)
    else if s == "tecnico" then Some(Tecnico)
    else None
  }

  function ParseEstado(s: string): (r: Option<Estado>)
    ensures r.Some? ==> EstadoName(r.value) == s
    ensures r.None? ==> forall x: Estado :: EstadoName(x) != s
  {
    if s == "pendiente" then Some(Pendiente)
    else if s == "en-progreso" then Some(EnProgreso)
    else if s == "resuelto" then Some(Resuelto)
    else None
  }

  function ParsePrioridad(s: string): (r: Option<Prioridad>)
    ensures r.Some? ==> PrioridadName(r.value) == s
    ensures r.None? ==> forall x: Prioridad :: PrioridadName(x) != s
  {
    if s == "baja" then Some(Baja)
    else if s == "media" then Some(Media)
    else if s == "alta" then Some(Alta)
    else None
  }

  /** Every enumeration value is stored under its own name and read back unchanged. */
  lemma NamesRoundTrip(r: Role, e: Estado, p: Prioridad)
    ensures ParseRole(RoleName(r)) == Some(r)
    ensures ParseEstado(EstadoName(e)) == Some(e)
    ensures ParsePrioridad(PrioridadName(p)) == Some(p)
  {
  }

  /** A row of `usuarios`; the password hash is not part of the model. */
  datatype User = User(
    id: int,
    username: string,
    nombre: string,
    rol: Role,
    email: Option<string>,
    activo: bool)

  /** A row of `tickets`. Timestamps are readings of a natural-number clock. */
  datatype Ticket = Ticket(
    id: int,
    tipo: string,
    titulo: string,
    descripcion: string,
    ubicacion: string,
    usuarioId: int,
    estado: Estado,
    prioridad: Prioridad,
    asignadoA: Option<int>,
    fechaCreacion: nat,
    fechaActualizacion: nat,
    fechaResolucion: Option<nat>)

  /** A row of `comentarios`. */
  datatype Comment = Comment(
    id: int,
    ticketId: int,
    usuarioId: int,
    texto: string,
    fechaCreacion: nat)

  /** The identity a verified token carries: the `id` and `rol` claims. */
  datatype Caller = Caller(id: int, rol: Role)

  /** The error answers of the handlers, by HTTP status:
      403 Forbidden, 404 NotFound, 400 Validation and Duplicate, 500 StorageFailure. */
  datatype ApiError = Forbidden | NotFound | Validation | Duplicate | StorageFailure

  datatype Result<+T> = Ok(value: T) | Err(error: ApiError)

  /** The three tables, each with the AUTOINCREMENT counter that hands out its next id. */
  datatype Store = Store(
    users: map<int, User>,
    nextUserId: nat,
    tickets: map<int, Ticket>,
    nextTicketId: nat,
    comments: seq<Comment>,
    nextCommentId: nat)

  /** The store after an insertion, together with the id the insertion was given. */
  datatype Created = Created(store: Store, id: int)

  /** An empty database: every AUTOINCREMENT counter starts at 1. */
  function Empty(): (s: Store)
    ensures Valid(s)
  {
    Store(map[], 1, map[], 1, [], 1)
  }

  /** The fields of a ticket that no handler may change once it is created:
      identity, owner, the four descriptive texts and the creation time. */
  predicate SameIdentity(t: Ticket, u: Ticket) {
    && t.id == u.id
    && t.usuarioId == u.usuarioId
    && t.tipo == u.tipo
    && t.titulo == u.titulo
    && t.descripcion == u.descripcion
    && t.ubicacion == u.ubicacion
    && t.fechaCreacion == u.fechaCreacion
  }

  /** No timestamp of a ticket precedes its creation. */
  predicate Chronological(t: Ticket) {
    && t.fechaCreacion <= t.fechaActualizacion
    && (t.fechaResolucion.Some? ==> t.fechaCreacion <= t.fechaResolucion.value)
  }

  /** What every state satisfies regardless of the clock. The database guarantees
      that the AUTOINCREMENT counters start at 1, that rows are keyed by their ids,
      which lie below those counters, that usernames are UNIQUE and that comment
      ids grow in insertion order. That every comment refers to an existing ticket
      is kept by the handlers instead: foreign keys are not enforced (no PRAGMA
      foreign_keys), but a comment is only inserted after its ticket is found
      (server.js:390-397) and no route deletes a ticket. */
  ghost predicate Keyed(s: Store) {
    && 1 <= s.nextUserId && 1 <= s.nextTicketId && 1 <= s.nextCommentId
    && (forall k | k in s.tickets :: 1 <= k < s.nextTicketId && s.tickets[k].id == k)
    && (forall k | k in s.users :: 1 <= k < s.nextUserId && s.users[k].id == k)
    && (forall a, b | a in s.users && b in s.users && a != b :: s.users[a].username != s.users[b].username)
    && (forall i | 0 <= i < |s.comments| :: 1 <= s.comments[i].id < s.nextCommentId)
    && (forall i | 0 <= i < |s.comments| :: s.comments[i].ticketId in s.tickets)
    && (forall i, j | 0 <= i < j < |s.comments| :: s.comments[i].id < s.comments[j].id)
  }

  /** The store invariant: `Keyed`, and no ticket timestamp before
      the ticket's creation, which holds while the clock runs forward. */
  ghost predicate Valid(s: Store) {
    Keyed(s) && forall k | k in s.tickets :: Chronological(s.tickets[k])
  }

  /** No timestamp in the store lies after `now`: the clock has not run backwards. */
  ghost predicate NotAfter(s: Store, now: nat) {
    && (forall k | k in s.tickets :: s.tickets[k].fechaActualizacion <= now)
    && (forall k | k in s.tickets :: s.tickets[k].fechaCreacion <= now)
    && (forall k | k in s.tickets && s.tickets[k].fechaResolucion.Some? :: s.tickets[k].fechaResolucion.value <= now)
    && (forall i | 0 <= i < |s.comments| :: s.comments[i].fechaCreacion <= now)
  }

  lemma NotAfterLater(s: Store, now: nat, later: nat)
    requires NotAfter(s, now) && now <= later
    ensures NotAfter(s, later)
  {
  }
}
