/**
 The `comentarios` routes: adding a comment to a ticket (server.js:381-416) and
 the comment list that reading one ticket returns (server.js:263-268).
 */
module Comments {
  import opened Schema
  import Sorting

  /** Key for ORDER BY c.fecha_creacion ASC, expressed as a largest-first sort. */
  function OldestFirstKey(c: Comment): int {
    -(c.fechaCreacion as int)
  }

  /** ORDER BY c.fecha_creacion ASC: no comment is created after the one that
      follows it, which is the largest-first order on `OldestFirstKey`. */
  predicate OldestFirst(cs: seq<Comment>) {
    Sorting.NonIncreasing(cs, OldestFirstKey)
  }

  /** The comments of `cs` that belong to ticket `id`, in insertion order, each
      as often as it occurs in `cs`. */
  function OfTicket(cs: seq<Comment>, id: int): (r: seq<Comment>)
    ensures forall c :: c in r <==> c in cs && c.ticketId == id
    ensures forall c :: multiset(r)[c] == if c.ticketId == id then multiset(cs)[c] else 0
    ensures |r| <= |cs|
  {
    if |cs| == 0 then []
    else
      var rest := OfTicket(cs[1..], id);
      assert cs == [cs[0]] + cs[1..];
      assert forall c :: c in cs <==> c == cs[0] || c in cs[1..];
      if cs[0].ticketId == id then [cs[0]] + rest else rest
  }

  /** The comment list of ticket `id`: exactly its comments, each as often as
      the table holds it, oldest first. */
  function CommentsOf(s: Store, id: int): (r: seq<Comment>)
    ensures forall c :: c in r <==> c in s.comments && c.ticketId == id
    ensures forall c :: multiset(r)[c] == if c.ticketId == id then multiset(s.comments)[c] else 0
    ensures OldestFirst(r)
  {
    var r := Sorting.Sort(OfTicket(s.comments, id), OldestFirstKey);
    assert forall c :: c in r <==> c in multiset(r);
    r
  }

  function IdOf(c: Comment): int {
    c.id
  }

  /** In a consistent store a ticket's comment list shows each comment once. */
  lemma CommentListedOnce(s: Store, id: int)
    requires Keyed(s)
    ensures forall c :: multiset(CommentsOf(s, id))[c] <= 1
  {
    assert Sorting.StrictlyIncreasing(s.comments, IdOf);
    Sorting.IncreasingHasNoRepeats(s.comments, IdOf);
  }

  /** A ticket no comment refers to has an empty comment list. */
  lemma NoCommentsListed(s: Store, id: int)
    requires forall i | 0 <= i < |s.comments| :: s.comments[i].ticketId != id
    ensures CommentsOf(s, id) == []
  {
    var r := CommentsOf(s, id);
    if |r| > 0 {
      assert false;
    }
  }

  /** POST /api/tickets/:id/comentarios. Any authenticated caller may comment on
      any ticket. An empty text is refused before the ticket is looked up; a
      missing ticket is refused before anything is inserted. */
  function AddComment(s: Store, caller: Caller, id: int, texto: string, now: nat): (r: Result<Created>)
    ensures texto == "" ==> r == Err(Validation)
    ensures texto != "" ==> (r.Err? <==> id !in s.tickets)
    ensures texto != "" && id !in s.tickets ==> r == Err(NotFound)
    ensures r.Err? ==> r.error == Validation || r.error == NotFound
    ensures r.Ok? ==>
      var s' := r.value.store;
      && r.value.id == s.nextCommentId
      && s'.nextCommentId == s.nextCommentId + 1
      && |s'.comments| == |s.comments| + 1
      && s'.comments[..|s.comments|] == s.comments
      && s'.comments[|s.comments|].id == r.value.id
      && s'.comments[|s.comments|].ticketId == id
      && s'.comments[|s.comments|].usuarioId == caller.id
      && s'.comments[|s.comments|].texto == texto
      && s'.comments[|s.comments|].fechaCreacion == now
    ensures r.Ok? ==>
      var s' := r.value.store;
      && id in s.tickets
      && s'.tickets.Keys == s.tickets.Keys
      && s'.tickets[id] == s.tickets[id].(fechaActualizacion := now)
      && (forall k | k in s.tickets && k != id :: s'.tickets[k] == s.tickets[k])
      && s'.users == s.users && s'.nextUserId == s.nextUserId
      && s'.nextTicketId == s.nextTicketId
  {
    if texto == "" then Err(Validation)
    else if id !in s.tickets then Err(NotFound)
    else
      var c := Comment(s.nextCommentId, id, caller.id, texto, now);
      var t := s.tickets[id];
      Ok(Created(
        s.(comments := s.comments + [c],
           nextCommentId := s.nextCommentId + 1,
           tickets := s.tickets[id := t.(fechaActualizacion := now)]),
        s.nextCommentId))
  }

  /** A comment that was accepted is part of its ticket's comment list afterwards. */
  lemma AddedCommentIsListed(s: Store, caller: Caller, id: int, texto: string, now: nat)
    requires AddComment(s, caller, id, texto, now).Ok?
    ensures
      var cr := AddComment(s, caller, id, texto, now).value;
      Comment(cr.id, id, caller.id, texto, now) in CommentsOf(cr.store, id)
  {
    var cr := AddComment(s, caller, id, texto, now).value;
    assert cr.store.comments[|s.comments|] == Comment(cr.id, id, caller.id, texto, now);
  }

  /** Adding a comment keeps the invariant `Keyed`: the new comment has the
      largest id so far and refers to an existing ticket. */
  lemma AddCommentPreservesKeyed(s: Store, caller: Caller, id: int, texto: string, now: nat)
    requires Keyed(s)
    requires AddComment(s, caller, id, texto, now).Ok?
    ensures Keyed(AddComment(s, caller, id, texto, now).value.store)
  {
    var s' := AddComment(s, caller, id, texto, now).value.store;
    var n := |s.comments|;
    assert s'.comments == s.comments + [s'.comments[n]];
    assert forall i | 0 <= i < n :: s'.comments[i] == s.comments[i];
    assert forall i | 0 <= i < n :: s'.comments[i].id < s'.comments[n].id;
  }

  /** Adding a comment keeps the store invariant, as long as the clock has not run backwards. */
  lemma AddCommentPreservesValid(s: Store, caller: Caller, id: int, texto: string, now: nat)
    requires Valid(s) && NotAfter(s, now)
    requires AddComment(s, caller, id, texto, now).Ok?
    ensures Valid(AddComment(s, caller, id, texto, now).value.store)
    ensures NotAfter(AddComment(s, caller, id, texto, now).value.store, now)
  {
    AddCommentPreservesKeyed(s, caller, id, texto, now);
    var s' := AddComment(s, caller, id, texto, now).value.store;
    assert forall i | 0 <= i < |s.comments| :: s'.comments[i] == s.comments[i];
  }
}
