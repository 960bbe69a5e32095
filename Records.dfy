/**
 * The stored paste record, its store key and the lazy expiry policy that
 * both read paths apply to it.
 */
module Records {
  import opened Common

  /** A paste as it is stored. Instants are epoch milliseconds. */
  datatype Paste = Paste(
    id: string,
    content: string,
    createdAt: int,
    expiresAt: Option<int>,   // None: no time limit
    maxViews: Option<int>,    // None: unlimited views
    views: nat)

  const KeyPrefix: string := "paste:"

  /** The store key `paste:<id>` under which a paste lives. */
  function Key(id: string): string
  {
    KeyPrefix + id
  }

  /** Distinct ids never share a key. */
  lemma KeyInjective(a: string, b: string)
    ensures Key(a) == Key(b) <==> a == b
  {
    if Key(a) == Key(b) {
      assert a == Key(a)[|KeyPrefix|..];
      assert b == Key(b)[|KeyPrefix|..];
    }
  }

  /**
   * What every record written by the create path satisfies, and what the
   * read paths keep: a non-negative creation instant, a deadline at least one
   * second after it, and a view budget of at least one that is never overrun.
   */
  ghost predicate WellFormed(p: Paste)
  {
    && p.createdAt >= 0
    && (p.expiresAt.Some? ==> p.expiresAt.value >= p.createdAt + 1000)
    && (p.maxViews.Some? ==> 1 <= p.maxViews.value && p.views <= p.maxViews.value)
  }

  /** The time test of the peek path: `expires_at !== null && now >= expires_at`. */
  predicate ExpiredAt(p: Paste, now: int)
  {
    p.expiresAt.Some? && now >= p.expiresAt.value
  }

  /**
   * The time test of the consume path: `paste.expires_at && now >= expires_at`,
   * where a deadline of 0 is falsy like null.
   */
  predicate ExpiredAtTruthy(p: Paste, now: int)
  {
    p.expiresAt.Some? && p.expiresAt.value != 0 && now >= p.expiresAt.value
  }

  /** The view test of both paths: `max_views !== null && views >= max_views`. */
  predicate ViewLimitReached(p: Paste)
  {
    p.maxViews.Some? && p.views >= p.maxViews.value
  }

  /** A record that a read at `now` may still show. */
  predicate Live(p: Paste, now: int)
  {
    !ExpiredAt(p, now) && !ViewLimitReached(p)
  }

  /** The null test and the truthiness test agree on every well-formed record. */
  lemma ExpiryTestsAgree(p: Paste, now: int)
    requires WellFormed(p)
    ensures ExpiredAt(p, now) <==> ExpiredAtTruthy(p, now)
  {
  }

  /** The record a successful consume writes back. */
  function Viewed(p: Paste): (q: Paste)
    ensures q.views == p.views + 1
    ensures q == p.(views := q.views)
  {
    p.(views := p.views + 1)
  }

  /**
   * A consume of a well-formed record that still has views left keeps it
   * well formed and spends exactly one view of its budget.
   */
  lemma ViewedSpendsOneView(p: Paste)
    requires WellFormed(p) && !ViewLimitReached(p)
    ensures WellFormed(Viewed(p))
    ensures p.maxViews.Some? ==> RemainingViews(Viewed(p)).value == RemainingViews(p).value - 1
    ensures p.maxViews.None? ==> RemainingViews(Viewed(p)).None?
  {
  }

  /** `remaining_views`: `max(max_views - views, 0)`, or null when unlimited. */
  function RemainingViews(p: Paste): (r: Option<int>)
    ensures r.None? <==> p.maxViews.None?
    ensures r.Some? ==> r.value >= 0 && r.value >= p.maxViews.value - p.views
    ensures r.Some? ==> r.value == 0 || r.value == p.maxViews.value - p.views
    ensures r.Some? && WellFormed(p) ==> r.value == p.maxViews.value - p.views
  {
    if p.maxViews.None? then None else Some(Max(p.maxViews.value - p.views, 0))
  }
}
