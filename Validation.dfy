/** The checks on a create request and the record built from one that passes. */
module Validation {
  import opened Common
  import opened Json
  import opened JsString
  import opened Records

  /** The three fields the create handler reads from the request body. */
  datatype Body = Body(content: Value, ttlSeconds: Value, maxViews: Value)

  /** The reasons a create request is refused with a bad-request answer. */
  datatype CreateError = InvalidContent | InvalidTtl | InvalidMaxViews

  /** A request that passed every check. */
  datatype Request = Request(content: string, ttlSeconds: Option<int>, maxViews: Option<int>)

  /** The content rule: a string with at least one visible character. */
  predicate ContentAccepted(v: Value)
  {
    v.Str? && HasVisibleChar(v.s)
  }

  /** The rule shared by `ttl_seconds` and `max_views`: absent, or an integer of at least 1. */
  predicate CountAccepted(v: Value)
  {
    v.Undefined? || (v.Int? && v.i >= 1)
  }

  /** The count a field carries: its integer when it holds one, none otherwise. */
  function CountOf(v: Value): Option<int>
  {
    if v.Int? then Some(v.i) else None
  }

  /**
   * The three checks in source order; the first that fails decides the
   * error. On success the counts are the integers the body carried.
   */
  function Validate(body: Body): (r: Result<Request, CreateError>)
    ensures r.Ok? <==>
      ContentAccepted(body.content) && CountAccepted(body.ttlSeconds) && CountAccepted(body.maxViews)
    ensures !ContentAccepted(body.content) ==> r == Err(InvalidContent)
    ensures ContentAccepted(body.content) && !CountAccepted(body.ttlSeconds) ==> r == Err(InvalidTtl)
    ensures ContentAccepted(body.content) && CountAccepted(body.ttlSeconds) && !CountAccepted(body.maxViews)
      ==> r == Err(InvalidMaxViews)
    ensures r.Ok? ==>
      r.value == Request(body.content.s, CountOf(body.ttlSeconds), CountOf(body.maxViews))
  {
    if !body.content.Str? || Trim(body.content.s) == [] then
      Err(InvalidContent)
    else if !body.ttlSeconds.Undefined? && (!IsInteger(body.ttlSeconds) || body.ttlSeconds.i < 1) then
      Err(InvalidTtl)
    else if !body.maxViews.Undefined? && (!IsInteger(body.maxViews) || body.maxViews.i < 1) then
      Err(InvalidMaxViews)
    else
      Ok(Request(body.content.s, CountOf(body.ttlSeconds), CountOf(body.maxViews)))
  }

  /**
   * After validation, testing `ttl_seconds` by truthiness (as the record
   * construction and the choice of a native expiry do) is the same as asking
   * whether it was given.
   */
  lemma TtlTruthyMeansGiven(body: Body)
    requires Validate(body).Ok?
    ensures Truthy(body.ttlSeconds) <==> Validate(body).value.ttlSeconds.Some?
    ensures Truthy(body.ttlSeconds) ==> Validate(body).value.ttlSeconds == Some(body.ttlSeconds.i)
  {
  }

  /** After validation, `max_views ?? null` is null exactly when the field was absent. */
  lemma MaxViewsNullishMeansAbsent(body: Body)
    requires Validate(body).Ok?
    ensures Nullish(body.maxViews) <==> Validate(body).value.maxViews.None?
    ensures !Nullish(body.maxViews) ==> Validate(body).value.maxViews == Some(body.maxViews.i)
  {
  }

  /**
   * The record built for an accepted body: no views yet, created now, a
   * deadline `ttl_seconds` seconds ahead when one was given, and the view
   * budget as given.
   */
  function NewPaste(body: Body, id: string, now: nat): (p: Paste)
    requires Validate(body).Ok?
    ensures p.id == id && p.content == Validate(body).value.content
    ensures p.createdAt == now && p.views == 0
    ensures p.expiresAt.Some? <==> Validate(body).value.ttlSeconds.Some?
    ensures p.expiresAt.Some? ==> p.expiresAt.value == now + Validate(body).value.ttlSeconds.value * 1000
    ensures p.maxViews == Validate(body).value.maxViews
    ensures WellFormed(p)
  {
    TtlTruthyMeansGiven(body);
    MaxViewsNullishMeansAbsent(body);
    Paste(
      id,
      body.content.s,
      now,
      if Truthy(body.ttlSeconds) then Some(now + body.ttlSeconds.i * 1000) else None,
      if Nullish(body.maxViews) then None else Some(body.maxViews.i),
      0)
  }

  /**
   * Content that is not a string, or holds only white space, is refused
   * whatever the other two fields say.
   */
  lemma RejectedContent(content: Value, ttlSeconds: Value, maxViews: Value)
    requires !content.Str? || !HasVisibleChar(content.s)
    ensures Validate(Body(content, ttlSeconds, maxViews)) == Err(InvalidContent)
  {
  }

  /** The empty string and `" \t\n"` hold no visible character, so both are refused. */
  lemma RejectedBlankContent(ttlSeconds: Value, maxViews: Value)
    ensures Validate(Body(Str(""), ttlSeconds, maxViews)) == Err(InvalidContent)
    ensures Validate(Body(Str(" \t\n"), ttlSeconds, maxViews)) == Err(InvalidContent)
  {
    assert !HasVisibleChar(" \t\n");
  }

  /**
   * A `ttl_seconds` of 0, -1, 1.5, null or a numeric string is refused after
   * valid content, whatever `max_views` says.
   */
  lemma RejectedTtl(content: string, ttlSeconds: Value, maxViews: Value)
    requires HasVisibleChar(content)
    requires ttlSeconds == Int(0) || ttlSeconds == Int(-1) || ttlSeconds == NonInteger
      || ttlSeconds == Null || ttlSeconds == Str("10")
    ensures Validate(Body(Str(content), ttlSeconds, maxViews)) == Err(InvalidTtl)
  {
  }

  /** A `max_views` of 0, 2.5 or null is refused after valid content and `ttl_seconds`. */
  lemma RejectedMaxViews(content: string, ttlSeconds: Value, maxViews: Value)
    requires HasVisibleChar(content) && CountAccepted(ttlSeconds)
    requires maxViews == Int(0) || maxViews == NonInteger || maxViews == Null
    ensures Validate(Body(Str(content), ttlSeconds, maxViews)) == Err(InvalidMaxViews)
  {
  }
}
