/**
 * The paste service on a key-value store: create, the non-consuming read
 * (peek) and the consuming read, each as a step from one store to the next.
 */
module Service {
  import opened Common
  import opened Records
  import opened Validation
  import opened Escape

  /** The key-value store: key `paste:<id>` to record. */
  type Store = map<string, Paste>

  /** Every stored record is well formed. */
  ghost predicate Invariant(s: Store)
  {
    forall k :: k in s ==> WellFormed(s[k])
  }

  /** Why a read answers not-found. */
  datatype Reason = Missing | Expired | ViewLimitExceeded

  datatype CreateResult = Created(id: string) | BadRequest(error: CreateError)

  /** The peek answer: the content, `remaining_views` and `expires_at`. */
  datatype PeekResult =
    | Peeked(content: string, remainingViews: Option<int>, expiresAt: Option<int>)
    | PeekNotFound(reason: Reason)

  /** The consume answer: the escaped content placed in the page. */
  datatype ConsumeResult = Rendered(html: string) | ConsumeNotFound(reason: Reason)

  /** An answer together with the store it leaves behind. */
  datatype Step<R> = Step(result: R, store: Store)

  /**
   * Create: a refused body leaves the store as it was; an accepted one
   * writes the new record under `paste:<id>` and touches no other key.
   */
  function CreateSpec(s: Store, body: Body, id: string, now: nat): (r: Step<CreateResult>)
    ensures r.result.BadRequest? <==> Validate(body).Err?
    ensures r.result.BadRequest? ==> r.result.error == Validate(body).error && r.store == s
    ensures r.result.Created? ==> r.result.id == id
    ensures r.result.Created? ==>
      && r.store.Keys == s.Keys + {Key(id)}
      && r.store[Key(id)] == NewPaste(body, id, now)
      && (forall k :: k in s && k != Key(id) ==> r.store[k] == s[k])
    ensures Invariant(s) ==> Invariant(r.store)
  {
    var v := Validate(body);
    if v.Err? then Step(BadRequest(v.error), s)
    else
      var p := NewPaste(body, id, now);
      InvariantAfterPut(s, p);
      Step(Created(id), s[Key(id) := p])
  }

  /** Writing a well-formed record under its own key keeps the invariant. */
  lemma InvariantAfterPut(s: Store, p: Paste)
    ensures Invariant(s) && WellFormed(p) ==> Invariant(s[Key(p.id) := p])
  {
  }

  /**
   * Peek: shows a live record and leaves the store unchanged; otherwise it
   * answers not-found and the key is gone afterwards.
   */
  function PeekSpec(s: Store, id: string, now: int): (r: Step<PeekResult>)
    ensures r.result.Peeked? <==> Key(id) in s && Live(s[Key(id)], now)
    ensures r.result.Peeked? ==>
      && r.store == s
      && r.result.content == s[Key(id)].content
      && r.result.remainingViews == RemainingViews(s[Key(id)])
      && r.result.expiresAt == s[Key(id)].expiresAt
    ensures r.result.PeekNotFound? ==> r.store == s - {Key(id)}
    ensures r.result == PeekNotFound(Missing) <==> Key(id) !in s
    ensures r.result == PeekNotFound(Expired) <==> Key(id) in s && ExpiredAt(s[Key(id)], now)
    ensures r.result == PeekNotFound(ViewLimitExceeded) <==>
      Key(id) in s && !ExpiredAt(s[Key(id)], now) && ViewLimitReached(s[Key(id)])
    ensures Invariant(s) ==> Invariant(r.store)
  {
    var k := Key(id);
    if k !in s then Step(PeekNotFound(Missing), s)
    else if ExpiredAt(s[k], now) then Step(PeekNotFound(Expired), s - {k})
    else if ViewLimitReached(s[k]) then Step(PeekNotFound(ViewLimitExceeded), s - {k})
    else Step(Peeked(s[k].content, RemainingViews(s[k]), s[k].expiresAt), s)
  }

  /**
   * Consume: on a live record it answers with the escaped content and writes
   * the record back with one more view; otherwise it answers not-found and
   * the key is gone afterwards. On a store that keeps the invariant, "live"
   * is the same policy the peek path applies.
   */
  function ConsumeSpec(s: Store, id: string, now: int): (r: Step<ConsumeResult>)
    ensures r.result.Rendered? ==>
      && Key(id) in s
      && r.result.html == EscapeHtml(s[Key(id)].content)
      && r.store == s[Key(id) := Viewed(s[Key(id)])]
    ensures Invariant(s) ==> (r.result.Rendered? <==> Key(id) in s && Live(s[Key(id)], now))
    ensures r.result.ConsumeNotFound? ==> r.store == s - {Key(id)}
    ensures r.result == ConsumeNotFound(Missing) <==> Key(id) !in s
    ensures r.result == ConsumeNotFound(Expired) <==> Key(id) in s && ExpiredAtTruthy(s[Key(id)], now)
    ensures r.result == ConsumeNotFound(ViewLimitExceeded) <==>
      Key(id) in s && !ExpiredAtTruthy(s[Key(id)], now) && ViewLimitReached(s[Key(id)])
    ensures Invariant(s) ==> Invariant(r.store)
  {
    var k := Key(id);
    if k !in s then Step(ConsumeNotFound(Missing), s)
    else if ExpiredAtTruthy(s[k], now) then Step(ConsumeNotFound(Expired), s - {k})
    else if ViewLimitReached(s[k]) then Step(ConsumeNotFound(ViewLimitExceeded), s - {k})
    else Step(Rendered(EscapeHtml(s[k].content)), s[k := Viewed(s[k])])
  }
}
