/**
 * What the per-record policy gives over a whole life: sequences of reads on
 * one id, the view budget, the time window, peeks that change nothing, and
 * deletion that cannot be undone.
 */
module Lifecycle {
  import opened Common
  import opened Records
  import opened Validation
  import opened Escape
  import opened Service

  /** A read of one id, with the instant the clock gives for it. */
  datatype Read = PeekAt(now: int) | ConsumeAt(now: int)

  datatype Answer = PeekAnswer(peek: PeekResult) | ConsumeAnswer(consume: ConsumeResult)

  /** The read showed the paste. */
  predicate Found(a: Answer)
  {
    match a
    case PeekAnswer(p) => p.Peeked?
    case ConsumeAnswer(c) => c.Rendered?
  }

  /** The answer a read gets for an id that was never stored. */
  function Unknown(op: Read): Answer
  {
    Refused(op, Missing)
  }

  /** The not-found answer a read gets for the given reason. */
  function Refused(op: Read, why: Reason): Answer
  {
    match op
    case PeekAt(_) => PeekAnswer(PeekNotFound(why))
    case ConsumeAt(_) => ConsumeAnswer(ConsumeNotFound(why))
  }

  function ReadOnce(s: Store, id: string, op: Read): Step<Answer>
  {
    match op
    case PeekAt(now) =>
      var st := PeekSpec(s, id, now);
      Step(PeekAnswer(st.result), st.store)
    case ConsumeAt(now) =>
      var st := ConsumeSpec(s, id, now);
      Step(ConsumeAnswer(st.result), st.store)
  }

  /** The answers of a sequence of reads of one id and the store they leave. */
  datatype Trace = Trace(answers: seq<Answer>, store: Store)

  function Replay(s: Store, id: string, ops: seq<Read>): (t: Trace)
    ensures |t.answers| == |ops|
    ensures Invariant(s) ==> Invariant(t.store)
  {
    if ops == [] then Trace([], s)
    else
      var first := ReadOnce(s, id, ops[0]);
      var rest := Replay(first.store, id, ops[1..]);
      Trace([first.result] + rest.answers, rest.store)
  }

  predicate AllConsumes(ops: seq<Read>)
  {
    forall i :: 0 <= i < |ops| ==> ops[i].ConsumeAt?
  }

  predicate AllPeeks(ops: seq<Read>)
  {
    forall i :: 0 <= i < |ops| ==> ops[i].PeekAt?
  }

  function Repeat(op: Read, n: nat): (ops: seq<Read>)
    ensures |ops| == n && forall i :: 0 <= i < n ==> ops[i] == op
  {
    if n == 0 then [] else [op] + Repeat(op, n - 1)
  }

  /** Reading in two runs is reading in one. */
  lemma {:induction false} ReplayAppend(s: Store, id: string, ops1: seq<Read>, ops2: seq<Read>)
    ensures var t1 := Replay(s, id, ops1); var t2 := Replay(t1.store, id, ops2);
      Replay(s, id, ops1 + ops2) == Trace(t1.answers + t2.answers, t2.store)
  {
    if ops1 == [] {
      assert ops1 + ops2 == ops2;
    } else {
      assert (ops1 + ops2)[1..] == ops1[1..] + ops2;
      ReplayAppend(ReadOnce(s, id, ops1[0]).store, id, ops1[1..], ops2);
    }
  }

  /** Reads of one id leave every other key as it was. */
  lemma {:induction false} ReadsTouchOnlyTheirKey(s: Store, id: string, ops: seq<Read>, k: string)
    requires k != Key(id)
    ensures var t := Replay(s, id, ops);
      (k in t.store <==> k in s) && (k in s ==> t.store[k] == s[k])
  {
    if ops != [] {
      ReadsTouchOnlyTheirKey(ReadOnce(s, id, ops[0]).store, id, ops[1..], k);
    }
  }

  /**
   * While a record survives, only its view counter changes, and that counter
   * never goes down.
   */
  lemma {:induction false} ViewsNeverDecrease(s: Store, id: string, ops: seq<Read>)
    requires Key(id) in s && Key(id) in Replay(s, id, ops).store
    ensures var before, after := s[Key(id)], Replay(s, id, ops).store[Key(id)];
      after.views >= before.views && after == before.(views := after.views)
  {
    if ops != [] {
      var next := ReadOnce(s, id, ops[0]).store;
      if Key(id) !in next {
        DeletionIsTerminal(next, id, ops[1..]);
      } else {
        ViewsNeverDecrease(next, id, ops[1..]);
      }
    }
  }

  /**
   * Once the key is gone, every later read answers as for an id that never
   * existed, and nothing is written back.
   */
  lemma {:induction false} DeletionIsTerminal(s: Store, id: string, ops: seq<Read>)
    requires Key(id) !in s
    ensures Replay(s, id, ops).store == s
    ensures forall i :: 0 <= i < |ops| ==> Replay(s, id, ops).answers[i] == Unknown(ops[i])
  {
    if ops != [] {
      DeletionIsTerminal(s, id, ops[1..]);
    }
  }

  lemma AllConsumesSlice(ops: seq<Read>, lo: nat, hi: nat)
    requires AllConsumes(ops) && lo <= hi <= |ops|
    ensures AllConsumes(ops[lo..hi])
  {
    forall i | 0 <= i < hi - lo ensures ops[lo..hi][i].ConsumeAt? {
      assert ops[lo..hi][i] == ops[lo + i];
    }
  }

  /** The answer of a consume that shows `p`. */
  function Served(p: Paste): Answer
  {
    ConsumeAnswer(Rendered(EscapeHtml(p.content)))
  }

  /** Within the view budget and with no deadline, every consume shows the paste and counts one view. */
  lemma {:induction false} BudgetServes(s: Store, id: string, ops: seq<Read>)
    requires Invariant(s) && Key(id) in s
    requires s[Key(id)].expiresAt.None? && s[Key(id)].maxViews.Some?
    requires AllConsumes(ops) && |ops| <= s[Key(id)].maxViews.value - s[Key(id)].views
    ensures var p, t := s[Key(id)], Replay(s, id, ops);
      && (forall i :: 0 <= i < |ops| ==> t.answers[i] == Served(p))
      && Key(id) in t.store && t.store[Key(id)] == p.(views := p.views + |ops|)
  {
    if ops != [] {
      var p := s[Key(id)];
      var first := ReadOnce(s, id, ops[0]);
      assert first.result == Served(p) && first.store == s[Key(id) := Viewed(p)];
      AllConsumesSlice(ops, 1, |ops|);
      BudgetServes(first.store, id, ops[1..]);
    }
  }

  /** A consume of a paste whose views are used up deletes it; every read after it finds nothing. */
  lemma ExhaustedIsDeleted(s: Store, id: string, ops: seq<Read>)
    requires ops != [] && ops[0].ConsumeAt?
    requires Key(id) in s && !ExpiredAtTruthy(s[Key(id)], ops[0].now) && ViewLimitReached(s[Key(id)])
    ensures var t := Replay(s, id, ops);
      && t.answers[0] == ConsumeAnswer(ConsumeNotFound(ViewLimitExceeded))
      && (forall i :: 0 < i < |ops| ==> t.answers[i] == Unknown(ops[i]))
      && Key(id) !in t.store
  {
    var first := ReadOnce(s, id, ops[0]);
    assert first.result == ConsumeAnswer(ConsumeNotFound(ViewLimitExceeded));
    DeletionIsTerminal(first.store, id, ops[1..]);
  }

  /**
   * With no deadline, a record with `views` of `max_views` used serves
   * exactly the remaining `max_views - views` consumes; the next one deletes
   * it with a view-limit answer and the ones after find nothing.
   */
  lemma ViewBudget(s: Store, id: string, ops: seq<Read>)
    requires Invariant(s) && Key(id) in s
    requires s[Key(id)].expiresAt.None? && s[Key(id)].maxViews.Some?
    requires AllConsumes(ops)
    ensures var p := s[Key(id)]; var left := p.maxViews.value - p.views; var t := Replay(s, id, ops);
      && (forall i :: 0 <= i < |ops| ==> (Found(t.answers[i]) <==> i < left))
      && (forall i :: 0 <= i < |ops| && i < left ==> t.answers[i] == Served(p))
      && (left < |ops| ==>
            t.answers[left] == ConsumeAnswer(ConsumeNotFound(ViewLimitExceeded)) && Key(id) !in t.store)
      && (|ops| <= left ==> Key(id) in t.store && t.store[Key(id)] == p.(views := p.views + |ops|))
  {
    var p := s[Key(id)];
    var left := p.maxViews.value - p.views;
    if |ops| <= left {
      BudgetServes(s, id, ops);
    } else {
      var used, rest := ops[..left], ops[left..];
      assert ops == used + rest;
      AllConsumesSlice(ops, 0, left);
      BudgetServes(s, id, used);
      var t1 := Replay(s, id, used);
      ExhaustedIsDeleted(t1.store, id, rest);
      ReplayAppend(s, id, used, rest);
    }
  }

  /**
   * One consume past the budget deletes the paste; every read after that,
   * peek or consume, answers as for an id that never existed. (`ReplayAppend`
   * joins the two runs into one.)
   */
  lemma ExhaustedForGood(s: Store, id: string, uses: seq<Read>, later: seq<Read>)
    requires Invariant(s) && Key(id) in s
    requires s[Key(id)].expiresAt.None? && s[Key(id)].maxViews.Some?
    requires AllConsumes(uses) && |uses| == s[Key(id)].maxViews.value - s[Key(id)].views + 1
    ensures var p := s[Key(id)]; var t1 := Replay(s, id, uses); var t2 := Replay(t1.store, id, later);
      && (forall i :: 0 <= i < |uses| - 1 ==> t1.answers[i] == Served(p))
      && t1.answers[|uses| - 1] == ConsumeAnswer(ConsumeNotFound(ViewLimitExceeded))
      && (forall i :: 0 <= i < |later| ==> t2.answers[i] == Unknown(later[i]))
      && Key(id) !in t1.store && t2.store == t1.store
  {
    ViewBudget(s, id, uses);
    DeletionIsTerminal(Replay(s, id, uses).store, id, later);
  }

  /**
   * A paste created with `max_views = N` and no `ttl_seconds`: of the
   * consumes that follow, the first N show it and the next deletes it; every
   * read after that, peek or consume, gets not-found.
   */
  lemma ConsumeLimitAfterCreate(
    s: Store, body: Body, id: string, created: nat, uses: seq<Read>, later: seq<Read>)
    requires Invariant(s)
    requires Validate(body).Ok? && body.ttlSeconds.Undefined?
    requires Validate(body).value.maxViews.Some?
    requires AllConsumes(uses) && |uses| == Validate(body).value.maxViews.value + 1
    ensures var n := Validate(body).value.maxViews.value;
      var start := CreateSpec(s, body, id, created).store;
      var t1 := Replay(start, id, uses);
      var t2 := Replay(t1.store, id, later);
      && (forall i :: 0 <= i < n ==> t1.answers[i] == ConsumeAnswer(Rendered(EscapeHtml(body.content.s))))
      && t1.answers[n] == ConsumeAnswer(ConsumeNotFound(ViewLimitExceeded))
      && (forall i :: 0 <= i < |later| ==> t2.answers[i] == Unknown(later[i]))
      && Key(id) !in t2.store
  {
    var n := Validate(body).value.maxViews.value;
    var start := CreateSpec(s, body, id, created).store;
    CreatedRecord(s, body, id, created);
    var p := start[Key(id)];
    assert p.maxViews.value - p.views + 1 == |uses| == n + 1;
    assert Served(p) == ConsumeAnswer(Rendered(EscapeHtml(body.content.s)));
    ExhaustedForGood(start, id, uses, later);
  }

  /** The record an accepted create leaves under its key. */
  lemma CreatedRecord(s: Store, body: Body, id: string, created: nat)
    requires Invariant(s) && Validate(body).Ok?
    ensures var req, start := Validate(body).value, CreateSpec(s, body, id, created).store;
      && Invariant(start) && Key(id) in start
      && start[Key(id)].content == req.content && start[Key(id)].views == 0
      && start[Key(id)].maxViews == req.maxViews
      && (start[Key(id)].expiresAt.None? <==> req.ttlSeconds.None?)
  {
    var start := CreateSpec(s, body, id, created).store;
    assert start[Key(id)] == NewPaste(body, id, created);
  }

  /**
   * Peeking again at the same instant changes nothing more: it gives the same
   * answer when the first peek showed the paste, and "missing" once the first
   * peek has answered not-found and deleted the key.
   */
  lemma PeekIsIdempotent(s: Store, id: string, now: int)
    ensures var once := PeekSpec(s, id, now); var twice := PeekSpec(once.store, id, now);
      && twice.store == once.store
      && (twice.result.Peeked? <==> once.result.Peeked?)
      && twice.result == (if once.result.Peeked? then once.result else PeekNotFound(Missing))
  {
    var once := PeekSpec(s, id, now);
    if !once.result.Peeked? {
      assert Key(id) !in once.store;
    }
  }

  /** Any run of peeks leaves the store as it was, or without this one key. */
  lemma {:induction false} PeeksChangeNoRecord(s: Store, id: string, ops: seq<Read>)
    requires AllPeeks(ops)
    ensures var t := Replay(s, id, ops); t.store == s || t.store == s - {Key(id)}
  {
    if ops != [] {
      var next := ReadOnce(s, id, ops[0]).store;
      assert AllPeeks(ops[1..]) by {
        forall i | 0 <= i < |ops[1..]| ensures ops[1..][i].PeekAt? {
          assert ops[1..][i] == ops[i + 1];
        }
      }
      PeeksChangeNoRecord(next, id, ops[1..]);
      if next != s {
        assert next == s - {Key(id)};
        assert next - {Key(id)} == next;
      }
    }
  }

  lemma {:induction false} RepeatedPeeksStore(s: Store, id: string, now: int, n: nat)
    requires n >= 1
    ensures Replay(s, id, Repeat(PeekAt(now), n)).store == PeekSpec(s, id, now).store
  {
    if n > 1 {
      var ops := Repeat(PeekAt(now), n);
      assert ops[1..] == Repeat(PeekAt(now), n - 1);
      RepeatedPeeksStore(PeekSpec(s, id, now).store, id, now, n - 1);
      PeekIsIdempotent(s, id, now);
    }
  }

  /** N peeks followed by a consume end like one peek followed by that consume. */
  lemma ManyPeeksThenConsume(s: Store, id: string, now: int, n: nat)
    requires n >= 1
    ensures var many := Replay(s, id, Repeat(PeekAt(now), n) + [ConsumeAt(now)]);
      var one := Replay(s, id, [PeekAt(now), ConsumeAt(now)]);
      many.store == one.store && many.answers[n] == one.answers[1]
  {
    ReplayAppend(s, id, Repeat(PeekAt(now), n), [ConsumeAt(now)]);
    ReplayAppend(s, id, [PeekAt(now)], [ConsumeAt(now)]);
    RepeatedPeeksStore(s, id, now, n);
    RepeatedPeeksStore(s, id, now, 1);
  }

  /** On a store that keeps the invariant, both read paths apply one policy. */
  lemma SharedExpiryPolicy(s: Store, id: string, now: int)
    requires Invariant(s)
    ensures var peek, consume := PeekSpec(s, id, now), ConsumeSpec(s, id, now);
      && (peek.result.Peeked? <==> consume.result.Rendered?)
      && (peek.result.PeekNotFound? ==>
            consume.result == ConsumeNotFound(peek.result.reason) && consume.store == peek.store)
  {
    if Key(id) in s {
      ExpiryTestsAgree(s[Key(id)], now);
    }
  }

  /**
   * A paste created with `ttl_seconds = T` at `created` is shown by either
   * read exactly before `created + T * 1000`; from that instant on both
   * answer expired.
   */
  lemma TtlWindow(s: Store, body: Body, id: string, created: nat, now: int)
    requires Invariant(s)
    requires Validate(body).Ok? && Validate(body).value.ttlSeconds.Some?
    ensures var deadline := created + Validate(body).value.ttlSeconds.value * 1000;
      var stored := CreateSpec(s, body, id, created).store;
      && (PeekSpec(stored, id, now).result.Peeked? <==> now < deadline)
      && (ConsumeSpec(stored, id, now).result.Rendered? <==> now < deadline)
      && (now >= deadline ==>
            PeekSpec(stored, id, now).result == PeekNotFound(Expired)
            && ConsumeSpec(stored, id, now).result == ConsumeNotFound(Expired))
  {
    var stored := CreateSpec(s, body, id, created).store;
    SharedExpiryPolicy(stored, id, now);
  }

  /**
   * Whatever reads came before, a read at or after a record's deadline does
   * not show it: it answers expired while the key is still there, and
   * missing once an earlier read has deleted it. Either way the key is gone
   * afterwards.
   */
  lemma PastDeadline(s: Store, id: string, ops: seq<Read>, later: Read, deadline: int)
    requires Invariant(s)
    requires Key(id) in s ==> s[Key(id)].expiresAt == Some(deadline)
    requires later.now >= deadline
    ensures var t := Replay(s, id, ops); var last := ReadOnce(t.store, id, later);
      && (last.result == Refused(later, Expired) || last.result == Refused(later, Missing))
      && Key(id) !in last.store
  {
    var t := Replay(s, id, ops);
    if Key(id) in t.store {
      if Key(id) !in s {
        DeletionIsTerminal(s, id, ops);
        assert false;
      }
      ViewsNeverDecrease(s, id, ops);
      assert t.store[Key(id)].expiresAt == Some(deadline);
      ExpiryTestsAgree(t.store[Key(id)], later.now);
    }
  }

  /**
   * A paste created with `ttl_seconds = T` at `created`: after any run of
   * reads, a read at `created + T * 1000` or later does not show it.
   */
  lemma TtlDeadlineIsFinal(
    s: Store, body: Body, id: string, created: nat, ops: seq<Read>, later: Read)
    requires Invariant(s)
    requires Validate(body).Ok? && Validate(body).value.ttlSeconds.Some?
    requires later.now >= created + Validate(body).value.ttlSeconds.value * 1000
    ensures var stored := CreateSpec(s, body, id, created).store;
      var last := ReadOnce(Replay(stored, id, ops).store, id, later);
      && !Found(last.result)
      && (last.result == Refused(later, Expired) || last.result == Refused(later, Missing))
  {
    var stored := CreateSpec(s, body, id, created).store;
    assert stored[Key(id)] == NewPaste(body, id, created);
    PastDeadline(stored, id, ops, later, created + Validate(body).value.ttlSeconds.value * 1000);
  }

  /** A peek right after a create shows the submitted content unchanged. */
  lemma CreateThenPeek(s: Store, body: Body, id: string, now: nat)
    requires Validate(body).Ok?
    ensures var stored := CreateSpec(s, body, id, now).store;
      PeekSpec(stored, id, now).result
        == Peeked(body.content.s, Validate(body).value.maxViews, NewPaste(body, id, now).expiresAt)
  {
  }

  /**
   * When a peek reports `remaining_views = r` and no deadline, exactly the
   * next r consumes show the paste.
   */
  lemma RemainingViewsAreTheBudget(s: Store, id: string, now: int, ops: seq<Read>)
    requires Invariant(s) && AllConsumes(ops)
    requires PeekSpec(s, id, now).result.Peeked?
    requires PeekSpec(s, id, now).result.remainingViews.Some?
    requires PeekSpec(s, id, now).result.expiresAt.None?
    ensures var r := PeekSpec(s, id, now).result.remainingViews.value; var t := Replay(s, id, ops);
      forall i :: 0 <= i < |ops| ==> (Found(t.answers[i]) <==> i < r)
  {
    ViewBudget(s, id, ops);
  }

  /** The body `{"content": "hello", "max_views": 1}` is accepted. */
  lemma HelloBody()
    ensures Validate(Body(Json.Str("hello"), Json.Undefined, Json.Int(1)))
      == Ok(Request("hello", None, Some(1)))
  {
    var v := Validate(Body(Json.Str("hello"), Json.Undefined, Json.Int(1)));
    assert JsString.HasVisibleChar("hello") by { assert !JsString.IsWhitespace("hello"[0]); }
    assert v.Ok?;
    assert v.value.ttlSeconds == None;
    assert v.value.maxViews == Some(1);
  }

  /** With `max_views = 1` and no deadline, one consume shows the paste and the next finds the limit reached. */
  lemma SingleView(s: Store, body: Body, id: string, now: nat)
    requires Validate(body).Ok? && Validate(body).value.ttlSeconds.None?
    requires Validate(body).value.maxViews == Some(1)
    ensures var made := CreateSpec(s, body, id, now);
      var first := ConsumeSpec(made.store, id, now);
      && made.result == Created(id)
      && first.result == Rendered(EscapeHtml(Validate(body).value.content))
      && ConsumeSpec(first.store, id, now).result == ConsumeNotFound(ViewLimitExceeded)
  {
    var p := NewPaste(body, id, now);
    var made := CreateSpec(s, body, id, now);
    assert made.store[Key(id)] == p;
    assert !ExpiredAtTruthy(p, now) && !ViewLimitReached(p);
    var first := ConsumeSpec(made.store, id, now);
    assert first.store[Key(id)] == p.(views := 1);
  }

  /** "hello" holds none of `&`, `<` and `>`, so escaping leaves it as it is. */
  lemma HelloNeedsNoEscaping(h: string)
    requires h == "hello"
    ensures EscapeHtml(h) == h
  {
    assert h[0] == 'h' && h[1] == 'e' && h[2] == 'l' && h[3] == 'l' && h[4] == 'o';
    assert '&' !in h && '<' !in h && '>' !in h;
  }

  /** `{"content": "hello", "max_views": 1}`: the one consume shows "hello", the next finds the limit reached. */
  lemma HelloOnce(s: Store, id: string, now: nat)
    ensures var made := CreateSpec(s, Body(Json.Str("hello"), Json.Undefined, Json.Int(1)), id, now);
      var first := ConsumeSpec(made.store, id, now);
      && made.result == Created(id)
      && first.result == Rendered("hello")
      && ConsumeSpec(first.store, id, now).result == ConsumeNotFound(ViewLimitExceeded)
  {
    HelloBody();
    SingleView(s, Body(Json.Str("hello"), Json.Undefined, Json.Int(1)), id, now);
    HelloNeedsNoEscaping("hello");
  }

  /** The body `{"content": "hi", "ttl_seconds": 1}` is accepted. */
  lemma HiBody()
    ensures Validate(Body(Json.Str("hi"), Json.Int(1), Json.Undefined)) == Ok(Request("hi", Some(1), None))
  {
    var v := Validate(Body(Json.Str("hi"), Json.Int(1), Json.Undefined));
    assert JsString.HasVisibleChar("hi") by { assert !JsString.IsWhitespace("hi"[0]); }
    assert v.Ok?;
    assert v.value.ttlSeconds == Some(1);
    assert v.value.maxViews == None;
  }

  /** `ttl_seconds = 1` at instant 0: a peek at 500 shows it, a peek at 1000 finds it expired. */
  lemma HiForOneSecond(s: Store, id: string)
    ensures var made := CreateSpec(s, Body(Json.Str("hi"), Json.Int(1), Json.Undefined), id, 0);
      && PeekSpec(made.store, id, 500).result.Peeked?
      && PeekSpec(made.store, id, 1000).result == PeekNotFound(Expired)
  {
    var body := Body(Json.Str("hi"), Json.Int(1), Json.Undefined);
    HiBody();
    var p := NewPaste(body, id, 0);
    assert p == Paste(id, "hi", 0, Some(1000), None, 0);
    var made := CreateSpec(s, body, id, 0);
    assert made.store[Key(id)] == p;
  }
}
