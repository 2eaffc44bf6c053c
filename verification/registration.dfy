/**
 POST /api/auth/registro (server.js:146-175): a technician registers a new
 account. Password hashing is outside the model; the password only has to be
 present.
 */
module Registration {
  import opened Schema

  /** The body of the request; an empty string stands for a missing field and
      `email` is None when absent (stored as NULL). */
  datatype Form = Form(username: string, password: string, nombre: string, rol: string, email: Option<string>)

  predicate Complete(f: Form) {
    f.username != "" && f.password != "" && f.nombre != "" && f.rol != ""
  }

  predicate UsernameTaken(s: Store, username: string) {
    exists k | k in s.users :: s.users[k].username == username
  }

  /** Technicians only; then the four required fields; then the INSERT, where the
      CHECK on `rol` is evaluated before the UNIQUE index on `username`. A CHECK
      failure is a storage error (500), a UNIQUE failure the 400 "user exists". */
  function Register(s: Store, caller: Caller, f: Form): (r: Result<Created>)
    ensures r == Err(Forbidden) <==> caller.rol != Tecnico
    ensures r == Err(Validation) <==> caller.rol == Tecnico && !Complete(f)
    ensures r == Err(StorageFailure) <==>
      caller.rol == Tecnico && Complete(f) && forall x: Role :: RoleName(x) != f.rol
    ensures r == Err(Duplicate) <==>
      && caller.rol == Tecnico && Complete(f) && ParseRole(f.rol).Some?
      && exists k | k in s.users :: s.users[k].username == f.username
    ensures r.Err? ==> r.error in {Forbidden, Validation, StorageFailure, Duplicate}
    ensures r.Ok? ==>
      && r.value.id == s.nextUserId
      && r.value.store.users.Keys == s.users.Keys + {r.value.id}
      && (forall k | k in s.users :: s.users[k].username != f.username)
    ensures r.Ok? ==>
      var s' := r.value.store;
      var u := s'.users[r.value.id];
      && u.id == r.value.id
      && u.username == f.username && u.nombre == f.nombre
      && RoleName(u.rol) == f.rol && u.email == f.email && u.activo
      && (forall k | k in s.users && k != r.value.id :: s'.users[k] == s.users[k])
      && s'.nextUserId == s.nextUserId + 1
      && s'.tickets == s.tickets && s'.nextTicketId == s.nextTicketId
      && s'.comments == s.comments && s'.nextCommentId == s.nextCommentId
  {
    if caller.rol != Tecnico then Err(Forbidden)
    else if !Complete(f) then Err(Validation)
    else if ParseRole(f.rol).None? then Err(StorageFailure)
    else if UsernameTaken(s, f.username) then Err(Duplicate)
    else
      var id := s.nextUserId;
      var u := User(id, f.username, f.nombre, ParseRole(f.rol).value, f.email, true);
      Ok(Created(s.(users := s.users[id := u], nextUserId := id + 1), id))
  }

  /** A technician's complete registration with a valid rol and a new username is
      accepted. */
  lemma FreshRegistrationSucceeds(s: Store, caller: Caller, f: Form)
    requires caller.rol == Tecnico && Complete(f) && ParseRole(f.rol).Some?
    requires !UsernameTaken(s, f.username)
    ensures Register(s, caller, f).Ok?
  {
  }

  /** Registration keeps `Keyed`; in particular usernames stay unique. */
  lemma RegisterPreservesKeyed(s: Store, caller: Caller, f: Form)
    requires Keyed(s)
    requires Register(s, caller, f).Ok?
    ensures Keyed(Register(s, caller, f).value.store)
  {
  }

  /** Registration keeps the store invariant: it touches no ticket. */
  lemma RegisterPreservesValid(s: Store, caller: Caller, f: Form)
    requires Valid(s)
    requires Register(s, caller, f).Ok?
    ensures Valid(Register(s, caller, f).value.store)
  {
    RegisterPreservesKeyed(s, caller, f);
  }

  /** Registering the same username a second time is refused as a duplicate. */
  lemma RegisteringTwiceIsDuplicate(s: Store, caller: Caller, f: Form)
    requires Register(s, caller, f).Ok?
    ensures Register(Register(s, caller, f).value.store, caller, f) == Err(Duplicate)
  {
    var c := Register(s, caller, f).value;
    assert c.store.users[c.id].username == f.username;
  }
}
