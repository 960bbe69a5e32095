/**
 * The request handlers' work on the store, step by step: read the record
 * under `paste:<id>`, apply the expiry checks, then delete the key or write
 * the record back.
 */
module Handlers {
  import opened Records
  import opened Validation
  import opened Escape
  import opened Service

  class PasteStore {
    /** The key-value store the handlers read and write. */
    var store: Store

    ghost predicate Valid()
      reads this
    {
      Invariant(store)
    }

    constructor ()
      ensures Valid() && store == map[]
    {
      store := map[];
    }

    /** The create handler once the body is parsed, with the new id and the clock passed in. */
    method Create(body: Body, id: string, now: nat) returns (r: CreateResult)
      requires Valid()
      modifies this
      ensures Valid()
      ensures Step(r, store) == CreateSpec(old(store), body, id, now)
    {
      var checked := Validate(body);
      if checked.Err? {
        return BadRequest(checked.error);
      }
      var paste := NewPaste(body, id, now);
      store := store[Key(id) := paste];
      r := Created(id);
    }

    /** The non-consuming read: checks the record and writes it back unchanged. */
    method Peek(id: string, now: int) returns (r: PeekResult)
      requires Valid()
      modifies this
      ensures Valid()
      ensures Step(r, store) == PeekSpec(old(store), id, now)
    {
      var key := Key(id);
      if key !in store {
        return PeekNotFound(Missing);
      }
      var paste := store[key];
      if paste.expiresAt.Some? && now >= paste.expiresAt.value {
        store := store - {key};
        return PeekNotFound(Expired);
      }
      if paste.maxViews.Some? && paste.views >= paste.maxViews.value {
        store := store - {key};
        return PeekNotFound(ViewLimitExceeded);
      }
      var updated := paste;
      store := store[key := updated];
      assert store == old(store);
      r := Peeked(updated.content, RemainingViews(updated), updated.expiresAt);
    }

    /** The consuming read: checks the record and writes it back with one more view. */
    method Consume(id: string, now: int) returns (r: ConsumeResult)
      requires Valid()
      modifies this
      ensures Valid()
      ensures Step(r, store) == ConsumeSpec(old(store), id, now)
    {
      var key := Key(id);
      if key !in store {
        return ConsumeNotFound(Missing);
      }
      var paste := store[key];
      if paste.expiresAt.Some? && paste.expiresAt.value != 0 && now >= paste.expiresAt.value {
        assert ExpiredAtTruthy(paste, now);
        store := store - {key};
        return ConsumeNotFound(Expired);
      }
      if paste.maxViews.Some? && paste.views >= paste.maxViews.value {
        assert ViewLimitReached(paste);
        store := store - {key};
        return ConsumeNotFound(ViewLimitExceeded);
      }
      var updated := paste.(views := paste.views + 1);
      assert updated == Viewed(paste);
      store := store[key := updated];
      r := Rendered(EscapeHtml(updated.content));
    }
  }
}
