/** The bounded, resumable event stream (crates/service-core/src/events.rs). Cursors are unbounded. */
module Events {
  import opened Ordered
  import opened Outcomes

  datatype EventBody = EventBody(uri: string, affected: seq<string>, payload: string)

  datatype Event = Event(streamIdentity: string, cursor: nat, body: EventBody)

  datatype Limitation = AgedOut(count: nat) | OtherStream | NoStream | Ahead(after: nat, current: nat)

  datatype Page = Page(
    streamIdentity: string,
    afterCursor: nat,
    currentCursor: nat,
    oldestCursor: nat,
    resetRequired: bool,
    events: seq<Event>,
    limitations: seq<Limitation>)

  /** What a hub holds at one moment. */
  datatype Hub = Hub(capacity: nat, streamIdentity: string, nextCursor: nat, events: seq<Event>, discarded: nat)

  // ----- what the retained window looks like -------------------------------------------------

  /** Consecutive cursors, the last of which is the stream's high-water mark, all of one stream. */
  predicate Window(events: seq<Event>, stream: string, next: nat) {
    forall i :: 0 <= i < |events| ==>
        events[i].streamIdentity == stream && events[i].cursor + (|events| - 1 - i) == next
  }

  predicate Sound(h: Hub) {
    1 <= h.capacity && |h.events| <= h.capacity && Window(h.events, h.streamIdentity, h.nextCursor)
  }

  // ----- operations --------------------------------------------------------------------------

  function Pushed(h: Hub, body: EventBody): Hub {
    var full := |h.events| >= h.capacity && h.events != [];
    h.(nextCursor := h.nextCursor + 1,
       events := (if full then h.events[1..] else h.events) + [Event(h.streamIdentity, h.nextCursor + 1, body)],
       discarded := if full then h.discarded + 1 else h.discarded)
  }

  function RestoredStream(h: Hub, stream: string, next: nat): Hub {
    if h.events == [] then h.(streamIdentity := stream, nextCursor := next) else h
  }

  function Restored(h: Hub, stream: string, next: nat, events: seq<Event>): (Hub, bool) {
    if h.events != [] then (h, false)
    else
      var ok := |events| <= h.capacity && Window(events, stream, next);
      (h.(streamIdentity := stream, nextCursor := next, events := if ok then events else []), ok)
  }

  /** The retained events past a cursor, oldest first. */
  function Later(events: seq<Event>, after: nat): seq<Event> {
    if events == [] then [] else (if events[0].cursor > after then [events[0]] else []) + Later(events[1..], after)
  }

  function Oldest(h: Hub): nat {
    if h.events == [] then h.nextCursor + 1 else h.events[0].cursor
  }

  predicate Mismatch(h: Hub, requested: Option<string>, after: nat) {
    if requested.Some? then requested.value != h.streamIdentity else after > 0
  }

  predicate ResetRequired(h: Hub, requested: Option<string>, after: nat) {
    Mismatch(h, requested, after) || after > h.nextCursor || (after + 1 < Oldest(h) && after < h.nextCursor)
  }

  function Polled(h: Hub, requested: Option<string>, after: nat, max: nat): Page {
    Page(
      h.streamIdentity,
      after,
      h.nextCursor,
      Oldest(h),
      ResetRequired(h, requested, after),
      if ResetRequired(h, requested, after) then [] else Head(Later(h.events, after), if max < 1 then 1 else max),
      (if h.discarded > 0 then [AgedOut(h.discarded)] else [])
      + (if Mismatch(h, requested, after) then [if requested.Some? then OtherStream else NoStream] else [])
      + (if after > h.nextCursor then [Ahead(after, h.nextCursor)] else []))
  }

  predicate Mentions(e: Event, uri: string) {
    e.body.uri == uri || uri in e.body.affected
  }

  // ----- the hub -----------------------------------------------------------------------------

  class EventHub {
    const capacity: nat
    var streamIdentity: string
    var nextCursor: nat
    var events: seq<Event>
    var discarded: nat

    function State(): Hub
      reads this
    {
      Hub(capacity, streamIdentity, nextCursor, events, discarded)
    }

    predicate Valid()
      reads this
    {
      Sound(State())
    }

    constructor (capacity: nat, streamIdentity: string)
      ensures Valid() && State() == Hub(if capacity < 1 then 1 else capacity, streamIdentity, 0, [], 0)
    {
      this.capacity := if capacity < 1 then 1 else capacity;
      this.streamIdentity, nextCursor, events, discarded := streamIdentity, 0, [], 0;
    }

    /** `restore_stream` */
    method RestoreStream(stream: string, next: nat)
      requires Valid()
      modifies this
      ensures Valid() && State() == RestoredStream(old(State()), stream, next)
      ensures old(events) == [] ==> streamIdentity == stream && nextCursor == next
      ensures old(events) != [] ==> streamIdentity == old(streamIdentity) && nextCursor == old(nextCursor)
      ensures events == old(events) && discarded == old(discarded)
    {
      if events == [] {
        streamIdentity, nextCursor := stream, next;
      }
    }

    /** `restore_checkpoint` */
    method RestoreCheckpoint(stream: string, next: nat, window: seq<Event>) returns (ok: bool)
      requires Valid()
      modifies this
      ensures Valid() && (State(), ok) == Restored(old(State()), stream, next, window)
      ensures ok <==> old(events) == [] && |window| <= capacity
                      && forall i :: 0 <= i < |window| ==>
                           window[i].streamIdentity == stream && window[i].cursor + (|window| - 1 - i) == next
      ensures old(events) == [] ==> streamIdentity == stream && nextCursor == next
      ensures old(events) != [] ==> streamIdentity == old(streamIdentity) && nextCursor == old(nextCursor)
      ensures events == (if ok then window else old(events)) && discarded == old(discarded)
    {
      if events != [] {
        return false;
      }
      var consistent := CheckWindow(stream, next, window);
      ok := |window| <= capacity && consistent;
      streamIdentity, nextCursor := stream, next;
      events := if ok then window else [];
    }

    /** `push` */
    method Push(body: EventBody) returns (cursor: nat)
      requires Valid()
      modifies this
      ensures Valid() && State() == Pushed(old(State()), body)
      ensures cursor == nextCursor == old(nextCursor) + 1 && streamIdentity == old(streamIdentity)
      ensures events == old(if |events| >= capacity then events[1..] else events)
                        + [Event(streamIdentity, cursor, body)]
      ensures discarded == old(discarded) + (if |old(events)| >= capacity then 1 else 0)
    {
      nextCursor := nextCursor + 1;
      var event := Event(streamIdentity, nextCursor, body);
      if |events| >= capacity {
        events := events[1..];
        discarded := discarded + 1;
      }
      events := events + [event];
      cursor := nextCursor;
    }

    /** `checkpoint_snapshot` */
    method CheckpointSnapshot() returns (r: (string, nat, seq<Event>))
      ensures r == (streamIdentity, nextCursor, events)
    {
      r := (streamIdentity, nextCursor, events);
    }

    /** `latest_cursor_for_uri`: the last retained event about a document, or zero. */
    method LatestCursorForUri(uri: string) returns (latest: nat)
      requires Valid()
      ensures forall e :: e in events && (e.body.uri == uri || uri in e.body.affected) ==> e.cursor <= latest
      ensures latest == 0
              || exists e :: e in events && (e.body.uri == uri || uri in e.body.affected) && e.cursor == latest
    {
      latest := 0;
      for i := 0 to |events|
        invariant forall j :: 0 <= j < i && Mentions(events[j], uri) ==> events[j].cursor <= latest
        invariant latest == 0 || exists e :: e in events && Mentions(e, uri) && e.cursor == latest
      {
        if Mentions(events[i], uri) && events[i].cursor > latest {
          latest := events[i].cursor;
        }
      }
    }

    /** `poll_for` */
    method PollFor(requested: Option<string>, after: nat, max: nat) returns (page: Page)
      requires Valid()
      ensures page == Polled(State(), requested, after, max)
      ensures page.streamIdentity == streamIdentity && page.afterCursor == after && page.currentCursor == nextCursor
      ensures page.oldestCursor == if events == [] then nextCursor + 1 else events[0].cursor
      ensures (if requested.Some? then requested.value != streamIdentity else after > 0) ==>
                page.resetRequired && page.events == []
      ensures page.resetRequired <==>
              || (requested.Some? && requested.value != streamIdentity) || (requested.None? && after > 0)
              || after > nextCursor || (after + 1 < page.oldestCursor && after < nextCursor)
      ensures forall e :: e in page.events ==>
                            e in events && e.cursor > after && (requested.Some? ==> e.streamIdentity == requested.value)
    {
      hide Window, Later, Head;
      var mismatch := if requested.Some? then requested.value != streamIdentity else after > 0;
      var oldest := if events == [] then nextCursor + 1 else events[0].cursor;
      var ahead := after > nextCursor;
      var reset := mismatch || ahead || (after + 1 < oldest && after < nextCursor);
      var out: seq<Event> := [];
      if !reset {
        out := TakeLater(events, after, if max < 1 then 1 else max);
        PageHolds(events, streamIdentity, nextCursor, after, if max < 1 then 1 else max);
      }
      var limitations: seq<Limitation> := [];
      if discarded > 0 {
        limitations := limitations + [AgedOut(discarded)];
      }
      if mismatch {
        limitations := limitations + [if requested.Some? then OtherStream else NoStream];
      }
      if ahead {
        limitations := limitations + [Ahead(after, nextCursor)];
      }
      return Page(streamIdentity, after, nextCursor, oldest, reset, out, limitations);
    }
  }

  /** The five checks on a durable window. */
  method CheckWindow(stream: string, next: nat, window: seq<Event>) returns (ok: bool)
    ensures ok == Window(window, stream, next)
  {
    ok := |window| > 0 ==> window[|window| - 1].cursor == next;
    for i := 0 to |window|
      invariant ok ==> |window| > 0 ==> window[|window| - 1].cursor == next
      invariant ok ==> forall j :: 0 <= j < i ==> window[j].streamIdentity == stream && window[j].cursor <= next
      invariant ok ==> forall j :: 0 < j < i ==> window[j].cursor == window[j - 1].cursor + 1
      invariant !ok ==> !Window(window, stream, next)
    {
      ok := ok && window[i].streamIdentity == stream && window[i].cursor <= next
            && (i > 0 ==> window[i].cursor == window[i - 1].cursor + 1);
    }
    if ok {
      Consecutive(window, stream, next);
    }
  }

  lemma {:induction false} CursorFromLast(window: seq<Event>, next: nat, i: nat)
    requires i < |window| && window[|window| - 1].cursor == next
    requires forall j :: 0 < j < |window| ==> window[j].cursor == window[j - 1].cursor + 1
    ensures window[i].cursor + (|window| - 1 - i) == next
    decreases |window| - i
  {
    if i + 1 < |window| {
      CursorFromLast(window, next, i + 1);
      assert window[i + 1].cursor == window[i + 1 - 1].cursor + 1;
    }
  }

  lemma Consecutive(window: seq<Event>, stream: string, next: nat)
    requires |window| > 0 ==> window[|window| - 1].cursor == next
    requires forall j :: 0 < j < |window| ==> window[j].cursor == window[j - 1].cursor + 1
    requires forall j :: 0 <= j < |window| ==> window[j].streamIdentity == stream
    ensures Window(window, stream, next)
  {
    forall i | 0 <= i < |window|
      ensures window[i].cursor + (|window| - 1 - i) == next
    {
      CursorFromLast(window, next, i);
    }
  }

  lemma {:induction false} LaterConcat(a: seq<Event>, b: seq<Event>, after: nat)
    ensures Later(a + b, after) == Later(a, after) + Later(b, after)
  {
    hide Later;
    if a == [] {
      NothingLater(after);
      assert a + b == b;
    } else {
      var rest, later := a[1..], Later(a[1..], after);
      assert (a + b)[0] == a[0] && (a + b)[1..] == rest + b;
      LaterConcat(rest, b, after);
      LaterHead(a + b, after);
      LaterHead(a, after);
      assert [a[0]] + (later + Later(b, after)) == ([a[0]] + later) + Later(b, after);
    }
  }

  lemma LaterHead(events: seq<Event>, after: nat)
    requires events != []
    ensures Later(events, after) == if events[0].cursor > after then [events[0]] + Later(events[1..], after)
                                    else Later(events[1..], after)
  {
  }

  lemma {:induction false} LaterMembers(events: seq<Event>, after: nat)
    ensures forall e :: e in Later(events, after) <==> e in events && e.cursor > after
  {
    if events != [] {
      LaterMembers(events[1..], after);
      assert events == [events[0]] + events[1..];
    }
  }

  lemma PageHolds(events: seq<Event>, stream: string, next: nat, after: nat, max: nat)
    requires Window(events, stream, next)
    ensures forall e :: e in Head(Later(events, after), max) ==>
                          e in events && e.cursor > after && e.streamIdentity == stream
  {
    hide Later;
    LaterMembers(events, after);
    var all := Later(events, after);
    assert forall e :: e in Head(all, max) ==> e in all;
  }

  lemma LaterGrows(events: seq<Event>, i: nat, after: nat)
    requires i < |events|
    ensures Later(events[..i + 1], after)
              == Later(events[..i], after) + (if events[i].cursor > after then [events[i]] else [])
  {
    assert events[..i + 1] == events[..i] + [events[i]] && [events[i]][1..] == [];
    LaterConcat(events[..i], [events[i]], after);
  }

  /** `filter(|event| event.cursor > after).take(max)` */
  method TakeLater(events: seq<Event>, after: nat, max: nat) returns (out: seq<Event>)
    ensures out == Head(Later(events, after), max)
  {
    hide Later;
    out := [];
    assert Later(events[..0], after) == [] by {
      NothingLater(after);
    }
    for i := 0 to |events|
      invariant out == Head(Later(events[..i], after), max)
    {
      LaterGrows(events, i, after);
      if events[i].cursor > after && |out| < max {
        out := out + [events[i]];
      }
    }
    assert events[..|events|] == events;
  }

  lemma NothingLater(after: nat)
    ensures Later([], after) == []
  {
  }
}
