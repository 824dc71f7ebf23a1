/** Whole runs of a producer and a resuming consumer over the event stream: pushes, polls, checkpoints, restarts
    from a checkpoint and restarts into a fresh stream, in any order. */
module EventRuns {
  import opened Ordered
  import opened Outcomes
  import opened Events

  // ----- one page ----------------------------------------------------------------------------

  ghost predicate Retained(h: Hub, cursor: nat) {
    exists e :: e in h.events && e.cursor == cursor
  }

  /** The cursors a sound hub retains are those from its oldest to its high-water mark. */
  lemma RetainedIs(h: Hub, cursor: nat)
    requires Sound(h)
    ensures Retained(h, cursor) <==> Oldest(h) <= cursor <= h.nextCursor
  {
    var n := |h.events|;
    if Oldest(h) <= cursor <= h.nextCursor {
      assert h.events[0].cursor + (n - 1) == h.nextCursor;
      assert h.events[n - 1 - (h.nextCursor - cursor)].cursor == cursor;
    }
  }

  /** For a matching stream a reset is asked for exactly when the cursor is ahead, or a later event is no
      longer retained. */
  lemma ResetExactly(h: Hub, after: nat)
    requires Sound(h)
    ensures ResetRequired(h, Some(h.streamIdentity), after) <==>
              after > h.nextCursor || exists c: nat :: after < c <= h.nextCursor && !Retained(h, c)
  {
    forall c: nat {
      RetainedIs(h, c);
    }
    if after < h.nextCursor && after + 1 < Oldest(h) {
      assert !Retained(h, after + 1);
    }
  }

  /** What a page says, for every request. It holds only events of the stream asked for. A request that names another
      stream, or a cursor that names none, gets no events, a reset, and the limitation that says so; cursor zero
      without a stream is no such request. */
  lemma PageLaw(h: Hub, requested: Option<string>, after: nat, max: nat)
    requires Sound(h)
    ensures var page := Polled(h, requested, after, max);
            var limits := page.limitations;
            && page.streamIdentity == h.streamIdentity
            && page.afterCursor == after && page.currentCursor == h.nextCursor
            && (forall e :: e in page.events ==>
                              e.streamIdentity == h.streamIdentity && e in h.events && e.cursor > after)
            && (requested.Some? ==> forall e :: e in page.events ==> e.streamIdentity == requested.value)
            && (requested.Some? && requested.value != h.streamIdentity ==> page.resetRequired && page.events == [])
            && (requested.None? && after > 0 ==> page.resetRequired && page.events == [])
            && (OtherStream in limits <==> requested.Some? && requested.value != h.streamIdentity)
            && (NoStream in limits <==> requested.None? && after > 0)
            && (forall a, c :: Ahead(a, c) in limits <==> after > h.nextCursor && a == after && c == h.nextCursor)
            && (forall n :: AgedOut(n) in limits <==> n == h.discarded && n > 0)
            && |page.events| <= (if max < 1 then 1 else max)
  {
    hide Later;
    LaterMembers(h.events, after);
    var all := Later(h.events, after);
    assert forall e :: e in Head(all, if max < 1 then 1 else max) ==> e in all;
  }

  /** A poll without a stream from cursor zero is answered like one that names it. */
  lemma FirstPoll(h: Hub, max: nat)
    requires Sound(h)
    ensures Polled(h, None, 0, max) == Polled(h, Some(h.streamIdentity), 0, max)
  {
  }

  /** Nothing is lost uncounted: what is retained and what was discarded add up, and only a full window discards. */
  lemma PushConserves(h: Hub, body: EventBody)
    requires Sound(h)
    ensures var g := Pushed(h, body);
            && |g.events| + g.discarded == |h.events| + h.discarded + 1
            && (g.discarded == h.discarded <==> |h.events| < h.capacity)
            && g.events[|g.events| - 1] == Event(h.streamIdentity, h.nextCursor + 1, body)
            && g.capacity == h.capacity && g.streamIdentity == h.streamIdentity
  {
  }

  lemma WindowTail(events: seq<Event>, stream: string, next: nat)
    requires Window(events, stream, next) && events != []
    ensures events[0].cursor + (|events| - 1) == next && Window(events[1..], stream, next)
    ensures forall i :: 0 <= i < |events[1..]| ==> events[1..][i].cursor > events[0].cursor
  {
    var rest := events[1..];
    assert events[0].cursor + (|events| - 1 - 0) == next;
    forall i | 0 <= i < |rest|
      ensures rest[i].streamIdentity == stream && rest[i].cursor + (|rest| - 1 - i) == next
    {
      assert rest[i] == events[i + 1];
    }
  }

  lemma {:induction false} LaterSuffix(events: seq<Event>, stream: string, next: nat, after: nat)
    requires Window(events, stream, next) && after <= next && next - after <= |events|
    ensures Later(events, after) == events[|events| - (next - after)..]
    decreases |events|
  {
    hide Window;
    if events != [] {
      var rest := events[1..];
      WindowTail(events, stream, next);
      if next - after <= |rest| {
        LaterSuffix(rest, stream, next, after);
      } else {
        AllLater(rest, after);
        assert events == [events[0]] + rest;
      }
    }
  }

  lemma {:induction false} AllLater(events: seq<Event>, after: nat)
    requires forall i :: 0 <= i < |events| ==> events[i].cursor > after
    ensures Later(events, after) == events
  {
    if events != [] {
      AllLater(events[1..], after);
    }
  }

  // ----- the world of one stream and one consumer --------------------------------------------

  datatype Consumer = Consumer(stream: string, cursor: nat, collected: seq<Event>, reset: bool)

  datatype Checkpoint = Checkpoint(stream: string, next: nat, events: seq<Event>, log: seq<Event>)

  /** `log` is every event of the consumer's stream past cursor `base`, retained or not; a restart takes it back to the
      checkpoint's. `overtaken` remembers a restart from a checkpoint the consumer was already past. */
  datatype World = World(hub: Hub, base: nat, log: seq<Event>, saved: Option<Checkpoint>, consumer: Consumer,
                         overtaken: bool)

  /** A fresh stream has an identity no stream had before. */
  datatype Action =
    | Push(body: EventBody) | Poll(max: nat) | Save | Restart(capacity: nat) | Fresh(stream: string, capacity: nat)

  /** The hub serves the consumer's stream. */
  predicate Own(w: World) {
    w.hub.streamIdentity == w.consumer.stream
  }

  function Collect(c: Consumer, page: Page): Consumer {
    if c.reset then c
    else if page.resetRequired then c.(reset := true)
    else
      c.(collected := c.collected + page.events,
         cursor := if page.events == [] then c.cursor else page.events[|page.events| - 1].cursor)
  }

  function FreshHub(capacity: nat, stream: string): Hub {
    Hub(if capacity < 1 then 1 else capacity, stream, 0, [], 0)
  }

  function Acted(w: World, a: Action): World {
    match a
    case Push(body) =>
      w.(hub := Pushed(w.hub, body),
         log := if Own(w) then w.log + [Event(w.hub.streamIdentity, w.hub.nextCursor + 1, body)] else w.log)
    case Poll(max) =>
      w.(consumer := Collect(w.consumer, Polled(w.hub, Some(w.consumer.stream), w.consumer.cursor, max)))
    case Save =>
      w.(saved := Some(Checkpoint(w.hub.streamIdentity, w.hub.nextCursor, w.hub.events, w.log)))
    case Restart(capacity) =>
      if w.saved.None? then w
      else
        var c := w.saved.value;
        var own := c.stream == w.consumer.stream;
        w.(hub := Restored(FreshHub(capacity, ""), c.stream, c.next, c.events).0,
           log := if own then c.log else w.log,
           overtaken := w.overtaken || (own && !w.consumer.reset && w.consumer.cursor > c.next))
    case Fresh(stream, capacity) =>
      if stream == w.consumer.stream then w else w.(hub := FreshHub(capacity, stream))
  }

  function After(w: World, actions: seq<Action>): World
    decreases |actions|
  {
    if actions == [] then w else After(Acted(w, actions[0]), actions[1..])
  }

  /** Events that are entries of the log, as far as they lie past its base. */
  predicate FromLog(events: seq<Event>, base: nat, log: seq<Event>) {
    forall i :: 0 <= i < |events| && events[i].cursor > base ==>
      events[i].cursor - base - 1 < |log| && events[i] == log[events[i].cursor - base - 1]
  }

  predicate Follows(stream: string, next: nat, events: seq<Event>, base: nat, log: seq<Event>) {
    Window(events, stream, next) && next == base + |log| && FromLog(events, base, log) && Numbered(log, stream, base)
  }

  predicate Numbered(log: seq<Event>, stream: string, base: nat) {
    forall i :: 0 <= i < |log| ==> log[i].streamIdentity == stream && log[i].cursor == base + i + 1
  }

  /** The consumer holds every event of the log up to its cursor, once and in order. */
  predicate Exact(w: World) {
    && w.base <= w.consumer.cursor <= w.base + |w.log|
    && w.consumer.collected == w.log[..w.consumer.cursor - w.base]
  }

  predicate SavedFollows(w: World) {
    w.saved.Some? ==>
      && Window(w.saved.value.events, w.saved.value.stream, w.saved.value.next)
      && (w.saved.value.stream == w.consumer.stream ==> SavedOwn(w))
  }

  predicate SavedOwn(w: World)
    requires w.saved.Some?
  {
    && Follows(w.consumer.stream, w.saved.value.next, w.saved.value.events, w.base, w.saved.value.log)
    && w.saved.value.log <= w.log
  }

  /** Everything the consumer holds is of its own stream. */
  predicate OwnEvents(c: Consumer) {
    forall e :: e in c.collected ==> e.streamIdentity == c.stream
  }

  predicate Tracked(w: World) {
    && Sound(w.hub) && Numbered(w.log, w.consumer.stream, w.base) && OwnEvents(w.consumer)
    && (Own(w) ==> Follows(w.consumer.stream, w.hub.nextCursor, w.hub.events, w.base, w.log))
    && SavedFollows(w)
    && (!w.overtaken && !w.consumer.reset ==> Exact(w))
  }

  /** A consumer that has just adopted a stream. */
  function Started(h: Hub): World {
    World(h, h.nextCursor, [], None, Consumer(h.streamIdentity, h.nextCursor, [], false), false)
  }

  lemma StartedTracked(h: Hub)
    requires Sound(h)
    ensures Tracked(Started(h))
  {
  }

  // ----- every step --------------------------------------------------------------------------

  lemma PushWindow(h: Hub, body: EventBody)
    requires Sound(h)
    ensures Sound(Pushed(h, body))
  {
    var g := Pushed(h, body);
    var dropped := |h.events| + 1 - |g.events|;
    assert forall i :: 0 <= i < |g.events| - 1 ==> g.events[i] == h.events[i + dropped];
  }

  lemma PushFromLog(h: Hub, body: EventBody, base: nat, log: seq<Event>)
    requires FromLog(h.events, base, log) && h.nextCursor == base + |log|
    ensures FromLog(Pushed(h, body).events, base, log + [Event(h.streamIdentity, h.nextCursor + 1, body)])
  {
    var g := Pushed(h, body);
    var dropped := |h.events| + 1 - |g.events|;
    assert forall i :: 0 <= i < |g.events| - 1 ==> g.events[i] == h.events[i + dropped];
  }

  lemma PushFollows(h: Hub, body: EventBody, base: nat, log: seq<Event>)
    requires Sound(h) && Follows(h.streamIdentity, h.nextCursor, h.events, base, log)
    ensures var g := Pushed(h, body);
            Sound(g) && Follows(g.streamIdentity, g.nextCursor, g.events, base, log
                + [Event(h.streamIdentity, h.nextCursor + 1, body)])
  {
    PushWindow(h, body);
    PushFromLog(h, body, base, log);
    hide FromLog, Window;
  }

  /** What a page that is no reset holds: the next events of the log, as many as asked for. */
  lemma PageIs(h: Hub, after: nat, max: nat, base: nat, log: seq<Event>)
    requires Sound(h) && Follows(h.streamIdentity, h.nextCursor, h.events, base, log) && base <= after
    requires !ResetRequired(h, Some(h.streamIdentity), after)
    ensures after - base <= |log|
    ensures Polled(h, Some(h.streamIdentity), after, max).events
              == Head(log[after - base..], if max < 1 then 1 else max)
  {
    var d := h.nextCursor - after;
    if h.events != [] {
      assert h.events[0].cursor + (|h.events| - 1 - 0) == h.nextCursor;
    }
    LaterSuffix(h.events, h.streamIdentity, h.nextCursor, after);
    var suffix := h.events[|h.events| - d..];
    forall i | 0 <= i < |suffix|
      ensures suffix[i] == log[after - base..][i]
    {
      var j := |h.events| - d + i;
      assert h.events[j].cursor + (|h.events| - 1 - j) == h.nextCursor;
    }
    assert suffix == log[after - base..];
  }

  lemma CollectExact(w: World, max: nat)
    requires Tracked(w) && !w.consumer.reset && Exact(w)
    ensures var v := Acted(w, Poll(max));
            v.consumer.reset
            || (Exact(v) && (w.consumer.cursor < w.hub.nextCursor ==> v.consumer.cursor > w.consumer.cursor))
  {
    hide Sound, Window, FromLog, Later, Numbered, Head, ResetRequired;
    var c := w.consumer;
    if !Own(w) {
      ForeignPoll(w, max);
    } else if !ResetRequired(w.hub, Some(c.stream), c.cursor) {
      PageIs(w.hub, c.cursor, max, w.base, w.log);
      var n := PageOf(w.log, c.stream, w.base, c.cursor - w.base, if max < 1 then 1 else max);
    }
  }

  /** A poll of another stream's hub takes nothing and asks for a reset. */
  lemma ForeignPoll(w: World, max: nat)
    requires !Own(w)
    ensures var v := Acted(w, Poll(max)); v.consumer.reset && v.consumer.collected == w.consumer.collected
  {
  }

  /** Whatever a poll takes is of the consumer's stream. */
  lemma CollectOwn(w: World, max: nat)
    requires Sound(w.hub) && OwnEvents(w.consumer)
    ensures OwnEvents(Acted(w, Poll(max)).consumer)
  {
    hide Sound, Polled;
    PageLaw(w.hub, Some(w.consumer.stream), w.consumer.cursor, max);
  }

  /** A page past log entry `from`: the entries that follow it, and the cursor they end at. */
  lemma PageOf(log: seq<Event>, stream: string, base: nat, from: nat, max: nat) returns (n: nat)
    requires Numbered(log, stream, base) && from <= |log| && max > 0
    ensures from + n <= |log| && |Head(log[from..], max)| == n && (from < |log| ==> n > 0)
    ensures log[..from] + Head(log[from..], max) == log[..from + n]
    ensures n > 0 ==> Head(log[from..], max)[n - 1].cursor == base + from + n
  {
    n := |Head(log[from..], max)|;
    assert Head(log[from..], max) == log[from..from + n];
  }

  lemma RestartFollows(c: Checkpoint, capacity: nat, base: nat)
    requires Follows(c.stream, c.next, c.events, base, c.log)
    ensures var g := Restored(FreshHub(capacity, ""), c.stream, c.next, c.events).0;
            Sound(g) && g.streamIdentity == c.stream && g.nextCursor == c.next
            && Follows(c.stream, c.next, g.events, base, c.log)
  {
  }

  lemma RestartSound(c: Checkpoint, capacity: nat)
    ensures var g := Restored(FreshHub(capacity, ""), c.stream, c.next, c.events).0;
            Sound(g) && g.streamIdentity == c.stream
  {
  }

  lemma StepTracked(w: World, a: Action)
    requires Tracked(w)
    ensures Tracked(Acted(w, a)) && (w.overtaken ==> Acted(w, a).overtaken)
            && (w.consumer.reset ==> Acted(w, a).consumer.reset)
  {
    hide Sound, Follows, Polled, Window, Numbered, OwnEvents;
    match a
    case Push(body) =>
      PushWindow(w.hub, body);
      if Own(w) {
        PushFollows(w.hub, body, w.base, w.log);
        FollowsNumbers(w.consumer.stream, Acted(w, a).hub.nextCursor, Acted(w, a).hub.events, w.base, Acted(w, a).log);
      }
    case Poll(max) =>
      CollectOwn(w, max);
      if !w.overtaken && !w.consumer.reset {
        CollectExact(w, max);
      }
    case Save =>
      SaveFollows(w.hub);
    case Restart(capacity) =>
      if w.saved.Some? {
        RestartSound(w.saved.value, capacity);
        if w.saved.value.stream == w.consumer.stream {
          RestartFollows(w.saved.value, capacity, w.base);
          FollowsNumbers(w.consumer.stream, w.saved.value.next, w.saved.value.events, w.base, w.saved.value.log);
          ExactLog(w, w.saved.value.log);
        }
      }
    case Fresh(stream, capacity) =>
      FreshSound(capacity, stream);
  }

  lemma FollowsNumbers(stream: string, next: nat, events: seq<Event>, base: nat, log: seq<Event>)
    requires Follows(stream, next, events, base, log)
    ensures Numbered(log, stream, base)
  {
  }

  lemma FreshSound(capacity: nat, stream: string)
    ensures Sound(FreshHub(capacity, stream)) && FreshHub(capacity, stream).streamIdentity == stream
  {
  }

  lemma SaveFollows(h: Hub)
    requires Sound(h)
    ensures Window(h.events, h.streamIdentity, h.nextCursor)
  {
  }

  lemma ExactLog(w: World, log: seq<Event>)
    requires log <= w.log
    ensures Exact(w) && w.consumer.cursor <= w.base + |log| ==> Exact(w.(log := log))
  {
  }

  /** In every run the consumer holds every event pushed to its stream since it started, once and in order, up to its
      cursor, until a page asks for a reset or the service restarts from a checkpoint the consumer is already past.
      It never holds an event of another stream. */
  lemma {:induction false} EveryRun(w: World, actions: seq<Action>)
    requires Tracked(w)
    ensures var v := After(w, actions);
            && Tracked(v) && (!v.overtaken && !v.consumer.reset ==> Exact(v))
            && forall e :: e in v.consumer.collected ==> e.streamIdentity == v.consumer.stream
    decreases |actions|
  {
    hide Acted;
    if actions != [] {
      StepTracked(w, actions[0]);
      EveryRun(Acted(w, actions[0]), actions[1..]);
    }
  }

  /** Polling on reaches the high-water mark or a reset. */
  lemma {:induction false} CatchesUp(w: World, max: nat) returns (polls: seq<Action>)
    requires Tracked(w) && Own(w) && !w.overtaken && !w.consumer.reset
    ensures |polls| <= w.hub.nextCursor - w.consumer.cursor && forall i :: 0 <= i < |polls| ==> polls[i] == Poll(max)
    ensures var v := After(w, polls).consumer; v.reset || (v.cursor == w.hub.nextCursor && v.collected == w.log)
    decreases w.hub.nextCursor - w.consumer.cursor
  {
    hide Sound, Window, FromLog, Numbered, Polled;
    polls := [];
    if w.consumer.cursor < w.hub.nextCursor {
      var v := Acted(w, Poll(max));
      StepTracked(w, Poll(max));
      CollectExact(w, max);
      if v.consumer.reset {
        polls := [Poll(max)];
        assert polls[1..] == [];
      } else {
        var rest := CatchesUp(v, max);
        polls := [Poll(max)] + rest;
        assert polls[1..] == rest;
      }
    }
  }

  // ----- restarting from an older checkpoint -------------------------------------------------

  predicate NoRestart(actions: seq<Action>) {
    forall i :: 0 <= i < |actions| ==> !actions[i].Restart?
  }

  /** Whatever follows, short of another restart, the consumer is asked to reset or holds exactly the log. */
  ghost predicate SafeFrom(w: World) {
    forall actions :: NoRestart(actions) ==> After(w, actions).consumer.reset || Exact(After(w, actions))
  }

  lemma {:induction false} StaysInStep(w: World, actions: seq<Action>)
    requires NoRestart(actions)
    ensures After(w, actions).overtaken == w.overtaken
    decreases |actions|
  {
    if actions != [] {
      assert NoRestart(actions[1..]);
      StaysInStep(Acted(w, actions[0]), actions[1..]);
    }
  }

  /** A restart from a checkpoint is safe for a consumer exactly when the checkpoint is another stream's or the consumer
      is not past it: otherwise the stream can catch up with its cursor again, with other events, before it polls. */
  lemma RestartSafe(w: World, capacity: nat)
    requires Tracked(w) && !w.overtaken && !w.consumer.reset && w.saved.Some?
    ensures SafeFrom(Acted(w, Restart(capacity))) <==>
              w.saved.value.stream != w.consumer.stream || w.consumer.cursor <= w.saved.value.next
  {
    hide Sound, Follows;
    var v := Acted(w, Restart(capacity));
    StepTracked(w, Restart(capacity));
    if w.saved.value.stream != w.consumer.stream || w.consumer.cursor <= w.saved.value.next {
      forall actions | NoRestart(actions)
        ensures After(v, actions).consumer.reset || Exact(After(v, actions))
      {
        EveryRun(v, actions);
        StaysInStep(v, actions);
      }
    } else {
      var actions := Overtaking(w, v);
    }
  }

  /** From every start: checkpoint, push one event, poll it, restart. The consumer is past the checkpoint then,
      and what follows is not safe. */
  lemma OvertakenRestart(h: Hub, body: EventBody, max: nat, capacity: nat)
    requires Sound(h)
    ensures !SafeFrom(After(Started(h), [Save, Push(body), Poll(max), Restart(capacity)]))
  {
    hide Sound, Follows, Polled, SafeFrom, Acted, ResetRequired, Exact;
    var saved := Acted(Started(h), Save);
    var pushed := Acted(saved, Push(body));
    var polled := Acted(pushed, Poll(max));
    StartedTracked(h);
    StepTracked(Started(h), Save);
    StepTracked(saved, Push(body));
    StepTracked(pushed, Poll(max));
    FourSteps(Started(h), Save, Push(body), Poll(max), Restart(capacity));
    PollsPast(h, body, max);
    RestartSafe(polled, capacity);
  }

  lemma PollsPast(h: Hub, body: EventBody, max: nat)
    requires Sound(h)
    requires var saved := Acted(Started(h), Save); Tracked(Acted(saved, Push(body)))
    ensures var w := Acted(Acted(Acted(Started(h), Save), Push(body)), Poll(max));
            && !w.overtaken && !w.consumer.reset && w.saved.Some?
            && w.saved.value.stream == w.consumer.stream
            && w.saved.value.next == h.nextCursor && w.consumer.cursor > h.nextCursor
  {
    hide Sound, Follows, Polled, ResetRequired;
    var w := Acted(Acted(Started(h), Save), Push(body));
    PushWindow(h, body);
    assert !ResetRequired(w.hub, Some(w.hub.streamIdentity), h.nextCursor) by {
      ResetExactly(w.hub, h.nextCursor);
      NewestRetained(h, body);
    }
    CollectExact(w, max);
    assert Collect(w.consumer, Polled(w.hub, Some(w.consumer.stream), w.consumer.cursor, max)).reset
           == Polled(w.hub, Some(w.consumer.stream), w.consumer.cursor, max).resetRequired;
    PolledResets(w.hub, Some(w.consumer.stream), w.consumer.cursor, max);
  }

  lemma NewestRetained(h: Hub, body: EventBody)
    requires Sound(h)
    ensures var g := Pushed(h, body); g.nextCursor == h.nextCursor + 1 && Retained(g, h.nextCursor + 1)
  {
    var g := Pushed(h, body);
    assert g.events[|g.events| - 1].cursor == h.nextCursor + 1;
  }

  lemma PolledResets(h: Hub, stream: Option<string>, after: nat, max: nat)
    ensures Polled(h, stream, after, max).resetRequired == ResetRequired(h, stream, after)
  {
  }

  lemma FourSteps(w: World, a: Action, b: Action, c: Action, d: Action)
    ensures After(w, [a, b, c, d]) == Acted(Acted(Acted(Acted(w, a), b), c), d)
  {
    hide Acted;
    assert [a, b, c, d][1..] == [b, c, d] && [b, c, d][1..] == [c, d] && [c, d][1..] == [d] && [d][1..] == [];
    assert After(Acted(Acted(w, a), b), [c, d]) == Acted(Acted(Acted(Acted(w, a), b), c), d) by {
      assert After(Acted(Acted(Acted(w, a), b), c), [d]) == Acted(Acted(Acted(Acted(w, a), b), c), d);
    }
  }

  function Pushes(body: EventBody, n: nat): (r: seq<Action>)
    ensures |r| == n && forall i :: 0 <= i < n ==> r[i] == Push(body)
  {
    seq(n, _ => Push(body))
  }

  lemma {:induction false} PushesLog(w: World, body: EventBody, n: nat)
    requires Own(w)
    ensures var v := After(w, Pushes(body, n));
            && Own(v) && v.consumer == w.consumer && v.base == w.base && v.hub.nextCursor == w.hub.nextCursor + n
            && |v.log| == |w.log| + n && w.log <= v.log && (n > 0 ==> v.log[|w.log|].body == body)
    decreases n
  {
    if n > 0 {
      assert Pushes(body, n)[1..] == Pushes(body, n - 1);
      PushesLog(Acted(w, Push(body)), body, n - 1);
    }
  }

  lemma {:induction false} AfterConcat(w: World, a: seq<Action>, b: seq<Action>)
    ensures After(w, a + b) == After(After(w, a), b)
    decreases |a|
  {
    if a == [] {
      assert a + b == b;
    } else {
      assert (a + b)[0] == a[0] && (a + b)[1..] == a[1..] + b;
      AfterConcat(Acted(w, a[0]), a[1..], b);
    }
  }

  /** Pushes that bring the stream back to the consumer's cursor, and a poll that notices nothing. */
  lemma Overtaking(w: World, v: World) returns (actions: seq<Action>)
    requires Tracked(v) && Exact(w) && !w.consumer.reset && v.consumer == w.consumer && v.base == w.base
             && v.log <= w.log
    requires Own(v) && w.consumer.cursor > v.hub.nextCursor
    ensures NoRestart(actions) && !After(v, actions).consumer.reset && !Exact(After(v, actions))
  {
    var at := |v.log|;
    var lost := w.log[at].body;
    var other := lost.(payload := lost.payload + "!");
    var n := w.consumer.cursor - v.hub.nextCursor;
    var pushes := Pushes(other, n);
    assert other.payload != lost.payload;
    PushesLog(v, other, n);
    EveryRun(v, pushes);
    var u := After(v, pushes);
    assert u.log[at] != w.log[at];
    assert w.consumer.collected[at] == w.log[at];
    PollsNothing(u);
    actions := pushes + [Poll(1)];
    AfterConcat(v, pushes, [Poll(1)]);
    AfterOne(u, Poll(1));
  }

  lemma AfterOne(w: World, a: Action)
    ensures After(w, [a]) == Acted(w, a)
  {
    hide Acted;
    assert [a][1..] == [];
  }

  lemma PollsNothing(w: World)
    requires Tracked(w) && Own(w) && !w.consumer.reset
    requires w.consumer.cursor == w.hub.nextCursor && w.base <= w.consumer.cursor
    ensures Acted(w, Poll(1)) == w
  {
    hide Sound, Window, FromLog, Numbered, Later;
    PageIs(w.hub, w.consumer.cursor, 1, w.base, w.log);
    assert w.log[w.consumer.cursor - w.base..] == [];
  }
}
