/** The relay as a state machine over whole runs: UDP datagrams, WebSocket
    messages and the idle collector act on the router one at a time, and what
    they send out is the trace. Whether the rate limiter admits a packet is an
    input of the step, so the theorems hold for any limiter. */
module Relay {
  import opened Prelude
  import opened Router

  datatype Kind = RequestKind | ReleaseKind | OtherKind

  /** A datagram that decodes to a session packet, or anything else (malformed
      or a rendezvous message, which never reaches the routing table). */
  datatype Content = NotSession | Session(sid: u32, kind: Kind)

  datatype Event =
    | UdpDatagram(from: SocketAddr, at: nat, admitted: bool, content: Content)
    | WsDatagram(channel: nat, at: nat, admitted: bool, content: Content)
    | Collect(at: nat, closed: set<nat>)

  datatype Message = Forwarded | FloorGrant | FloorDeny | FloorTaken | FloorFreed

  datatype Output = Output(message: Message, sid: u32, to: Endpoint)

  function ToAll(message: Message, sid: u32, targets: seq<Endpoint>): seq<Output> {
    seq(|targets|, i requires 0 <= i < |targets| => Output(message, sid, targets[i]))
  }

  function Forwards(sid: u32, d: RouteDecision): seq<Output> {
    ToAll(Forwarded, sid, Targets(d))
  }

  /** One datagram of a session, after admission and decoding. */
  function Handle(limits: Limits, t: Table, from: Endpoint, sid: u32, kind: Kind, at: nat)
    : (Table, seq<Output>, FloorDecision)
  {
    if from.Udp? && kind.RequestKind? then
      var (t', d) := FloorRequest(Route(limits, t, sid, from, at).0, sid, from.addr, at);
      (t', match d
           case Granted(others) => [Output(FloorGrant, sid, from)] + ToAll(FloorTaken, sid, others)
           case Denied => [Output(FloorDeny, sid, from)]
           case _ => [], d)
    else if from.Udp? && kind.ReleaseKind? then
      var (t', d) := FloorRelease(t, sid, from.addr, at);
      (t', if d.Released? then ToAll(FloorFreed, sid, d.others) else [], d)
    else
      var (t', d) := Route(limits, t, sid, from, at);
      (t', Forwards(sid, d), Unknown)
  }

  function Source(e: Event): Endpoint
    requires !e.Collect?
  {
    if e.UdpDatagram? then Udp(e.from) else WebSocket(e.channel)
  }

  /** The event reaches the routing table as a packet of session `sid`. */
  predicate Speaks(e: Event, sid: u32) {
    !e.Collect? && e.admitted && e.content.Session? && e.content.sid == sid
  }

  function Step(limits: Limits, ttl: nat, t: Table, e: Event): (Table, seq<Output>, FloorDecision) {
    if e.Collect? then (EvictIdle(t, ttl, e.at, e.closed), [], Unknown)
    else if !e.admitted || e.content.NotSession? then (t, [], Unknown)
    else Handle(limits, t, Source(e), e.content.sid, e.content.kind, e.at)
  }

  /** The table after a run from an empty relay. */
  function Run(limits: Limits, ttl: nat, events: seq<Event>): Table {
    if events == [] then Table(map[], 0)
    else Step(limits, ttl, Run(limits, ttl, events[..|events| - 1]), events[|events| - 1]).0
  }

  lemma RunAppend(limits: Limits, ttl: nat, past: seq<Event>, e: Event)
    ensures Run(limits, ttl, past + [e]) == Step(limits, ttl, Run(limits, ttl, past), e).0
  {
    var all := past + [e];
    assert all[..|all| - 1] == past;
  }

  /** What event `i` of a run sends out. */
  function Outputs(limits: Limits, ttl: nat, events: seq<Event>, i: nat): seq<Output>
    requires i < |events|
  {
    Step(limits, ttl, Run(limits, ttl, events[..i]), events[i]).1
  }

  function Decision(limits: Limits, ttl: nat, events: seq<Event>, i: nat): FloorDecision
    requires i < |events|
  {
    Step(limits, ttl, Run(limits, ttl, events[..i]), events[i]).2
  }

  predicate Grants(limits: Limits, ttl: nat, events: seq<Event>, i: nat, sid: u32)
    requires i < |events|
  {
    Speaks(events[i], sid) && Decision(limits, ttl, events, i).Granted?
  }

  predicate Releases(limits: Limits, ttl: nat, events: seq<Event>, i: nat, sid: u32)
    requires i < |events|
  {
    Speaks(events[i], sid) && Decision(limits, ttl, events, i).Released?
  }

  predicate Clocked(events: seq<Event>) {
    forall i, j :: 0 <= i < j < |events| ==> events[i].at <= events[j].at
  }

  /** The body of the UDP receive loop, for one datagram. */
  method UdpStep(router: Router, from: SocketAddr, at: nat, admitted: bool, content: Content)
    returns (sent: seq<Output>)
    modifies router
    ensures var e := UdpDatagram(from, at, admitted, content);
            var (t, outputs, _) := Step(router.limits, 0, old(router.State()), e);
            router.State() == t && sent == outputs
  {
    sent := [];
    if !admitted || content.NotSession? {
      return;
    }
    var sid := content.sid;
    match content.kind
    case RequestKind =>
      var _ := router.RouteDatagram(sid, Udp(from), at);
      var d, _ := router.RequestFloor(sid, from, at, at, at, at);
      match d {
        case Granted(others) => sent := [Output(FloorGrant, sid, Udp(from))] + ToAll(FloorTaken, sid, others);
        case Denied => sent := [Output(FloorDeny, sid, Udp(from))];
        case _ =>
      }
    case ReleaseKind =>
      var d := router.ReleaseFloor(sid, from, at);
      if d.Released? {
        sent := ToAll(FloorFreed, sid, d.others);
      }
    case OtherKind =>
      var d := router.RouteDatagram(sid, Udp(from), at);
      sent := Forwards(sid, d);
  }

  // ------------------------------------------------------------ the table is sound

  lemma StepKeepsTable(limits: Limits, ttl: nat, t: Table, e: Event)
    requires GoodTable(limits, t)
    ensures GoodTable(limits, Step(limits, ttl, t, e).0)
  {
    hide GoodTable, EvictIdle, FloorRequest, FloorRelease, Route;
    if e.Collect? {
      EvictKeeps(limits, t, ttl, e.at, e.closed);
    } else if e.content.Session? {
      var sid, from := e.content.sid, Source(e);
      RouteKeeps(limits, t, sid, from, e.at);
      if from.Udp? {
        FloorKeeps(limits, Route(limits, t, sid, from, e.at).0, sid, from.addr, e.at);
        FloorKeeps(limits, t, sid, from.addr, e.at);
      }
    }
  }

  /** In every reachable state peers are pairwise distinct and within the limit,
      sessions are within theirs, the gauge is the table size, and any floor
      holder is a registered UDP peer with a grant time. */
  lemma {:induction false} ReachableTablesSound(limits: Limits, ttl: nat, events: seq<Event>)
    ensures GoodTable(limits, Run(limits, ttl, events))
  {
    if events != [] {
      ReachableTablesSound(limits, ttl, events[..|events| - 1]);
      StepKeepsTable(limits, ttl, Run(limits, ttl, events[..|events| - 1]), events[|events| - 1]);
    }
  }

  // -------------------------------------------------------------- floor exclusion

  /** `h` holds the floor of `sid` since `granted`, in a session seen since. */
  ghost predicate Held(t: Table, sid: u32, h: SocketAddr, granted: nat) {
    && sid in t.routes
    && var e := t.routes[sid];
       e.floorHolder == Some(h) && e.floorGrantedAt == Some(granted)
       && Udp(h) in e.peers && e.lastActivity >= granted
  }

  lemma GrantHolds(limits: Limits, ttl: nat, t: Table, e: Event, sid: u32)
    requires GoodTable(limits, t) && Speaks(e, sid) && Step(limits, ttl, t, e).2.Granted?
    ensures e.UdpDatagram? && Held(Step(limits, ttl, t, e).0, sid, e.from, e.at)
  {
  }

  /** The collector is about to forget the session: it has been idle for the TTL. */
  predicate Forgets(e: Event, ttl: nat, lastActivity: nat) {
    e.Collect? && Since(e.at, lastActivity) >= ttl * SECOND
  }

  /** Within 30 s of a grant nobody else is granted the floor, an accepted release is
      the holder's, and any other event takes the floor away exactly when it is the
      collector forgetting the session. */
  lemma StepKeepsHeld(limits: Limits, ttl: nat, t: Table, e: Event, sid: u32, h: SocketAddr, granted: nat)
    requires Held(t, sid, h, granted) && granted <= e.at <= granted + MAX_HOLD
    ensures Speaks(e, sid) ==> !Step(limits, ttl, t, e).2.Granted?
    ensures Speaks(e, sid) && Step(limits, ttl, t, e).2.Released? ==> e.UdpDatagram? && e.from == h
    ensures !(Speaks(e, sid) && Step(limits, ttl, t, e).2.Released?) ==>
              (Held(Step(limits, ttl, t, e).0, sid, h, granted) <==> !Forgets(e, ttl, t.routes[sid].lastActivity))
  {
    assert sid in t.routes;
    hide Held, Route, EvictIdle, FloorRequest, FloorRelease;
    if e.Collect? {
      EvictKeepsHeld(t, ttl, e.at, e.closed, sid, h, granted);
    } else if e.content.Session? {
      var s, from := e.content.sid, Source(e);
      RouteKeepsHeld(limits, t, s, from, e.at, sid, h, granted);
      if from.Udp? {
        RequestKeepsHeld(Route(limits, t, s, from, e.at).0, s, from.addr, e.at, sid, h, granted);
        ReleaseKeepsHeld(t, s, from.addr, e.at, sid, h, granted);
      }
    }
  }

  lemma RouteKeepsHeld(
      limits: Limits, t: Table, s: u32, from: Endpoint, at: nat, sid: u32, h: SocketAddr, granted: nat)
    requires Held(t, sid, h, granted) && granted <= at
    ensures Held(Route(limits, t, s, from, at).0, sid, h, granted)
  {
  }

  lemma RequestKeepsHeld(t: Table, s: u32, from: SocketAddr, at: nat, sid: u32, h: SocketAddr, granted: nat)
    requires Held(t, sid, h, granted) && granted <= at <= granted + MAX_HOLD
    ensures Held(FloorRequest(t, s, from, at).0, sid, h, granted)
    ensures s == sid ==> !FloorRequest(t, s, from, at).1.Granted? && !FloorRequest(t, s, from, at).1.Released?
  {
  }

  lemma ReleaseKeepsHeld(t: Table, s: u32, from: SocketAddr, at: nat, sid: u32, h: SocketAddr, granted: nat)
    requires Held(t, sid, h, granted) && granted <= at <= granted + MAX_HOLD
    ensures s == sid && FloorRelease(t, s, from, at).1.Released? ==> from == h
    ensures s == sid ==> !FloorRelease(t, s, from, at).1.Granted?
    ensures !(s == sid && FloorRelease(t, s, from, at).1.Released?) ==>
              Held(FloorRelease(t, s, from, at).0, sid, h, granted)
  {
  }

  lemma EvictKeepsHeld(t: Table, ttl: nat, at: nat, closed: set<nat>, sid: u32, h: SocketAddr, granted: nat)
    requires Held(t, sid, h, granted)
    ensures Held(EvictIdle(t, ttl, at, closed), sid, h, granted) <==>
              Since(at, t.routes[sid].lastActivity) < ttl * SECOND
  {
    StillOpenMembers(t.routes[sid].peers, closed, Udp(h));
  }

  /** A TTL above 30 s outlasts the hold. */
  lemma NotForgotten(t: Table, ttl: nat, e: Event, sid: u32, h: SocketAddr, granted: nat)
    requires Held(t, sid, h, granted) && ttl > 30 && e.at <= granted + MAX_HOLD
    ensures !Forgets(e, ttl, t.routes[sid].lastActivity)
  {
    MulMonotone(31, ttl, SECOND);
  }

  lemma {:induction false} HeldThrough(
      limits: Limits, ttl: nat, events: seq<Event>, i: nat, m: nat, sid: u32)
    requires i < m <= |events| && Clocked(events) && ttl > 30
    requires Grants(limits, ttl, events, i, sid)
    requires forall k :: i < k < m ==> !Releases(limits, ttl, events, k, sid)
    requires events[m - 1].at <= events[i].at + MAX_HOLD
    ensures events[i].UdpDatagram? && Held(Run(limits, ttl, events[..m]), sid, events[i].from, events[i].at)
    decreases m
  {
    hide Step, Run, Held, Speaks;
    ReachableTablesSound(limits, ttl, events[..i]);
    GrantHolds(limits, ttl, Run(limits, ttl, events[..i]), events[i], sid);
    RunAppend(limits, ttl, events[..m - 1], events[m - 1]);
    assert events[..m - 1] + [events[m - 1]] == events[..m];
    if m > i + 1 {
      HeldThrough(limits, ttl, events, i, m - 1, sid);
      assert !Releases(limits, ttl, events, m - 1, sid);
      NotForgotten(Run(limits, ttl, events[..m - 1]), ttl, events[m - 1], sid, events[i].from, events[i].at);
      StepKeepsHeld(limits, ttl, Run(limits, ttl, events[..m - 1]), events[m - 1], sid,
                    events[i].from, events[i].at);
    }
  }

  /** Two grants of one session with no accepted release between them are more
      than 30 seconds apart. */
  ghost predicate FloorExclusive(limits: Limits, ttl: nat, events: seq<Event>) {
    forall sid: u32, i, j ::
      && 0 <= i < j < |events|
      && Grants(limits, ttl, events, i, sid) && Grants(limits, ttl, events, j, sid)
      && (forall k :: i < k < j ==> !Releases(limits, ttl, events, k, sid))
      ==> events[j].at > events[i].at + MAX_HOLD
  }

  lemma ExclusionAboveHold(limits: Limits, ttl: nat, events: seq<Event>)
    requires Clocked(events) && ttl > 30
    ensures FloorExclusive(limits, ttl, events)
  {
    forall sid: u32, i, j |
      && 0 <= i < j < |events|
      && Grants(limits, ttl, events, i, sid) && Grants(limits, ttl, events, j, sid)
      && (forall k :: i < k < j ==> !Releases(limits, ttl, events, k, sid))
      ensures events[j].at > events[i].at + MAX_HOLD
    {
      if events[j].at <= events[i].at + MAX_HOLD {
        HeldThrough(limits, ttl, events, i, j, sid);
        StepKeepsHeld(limits, ttl, Run(limits, ttl, events[..j]), events[j], sid, events[i].from, events[i].at);
      }
    }
  }

  /** Within 30 seconds of a grant, the first accepted release is the holder's. */
  ghost predicate HolderReleases(limits: Limits, ttl: nat, events: seq<Event>) {
    forall sid: u32, i, j ::
      && 0 <= i < j < |events|
      && Grants(limits, ttl, events, i, sid) && Releases(limits, ttl, events, j, sid)
      && (forall k :: i < k < j ==> !Releases(limits, ttl, events, k, sid))
      && events[j].at <= events[i].at + MAX_HOLD
      ==> events[i].UdpDatagram? && events[j].UdpDatagram? && events[j].from == events[i].from
  }

  lemma ReleasesAboveHold(limits: Limits, ttl: nat, events: seq<Event>)
    requires Clocked(events) && ttl > 30
    ensures HolderReleases(limits, ttl, events)
  {
    forall sid: u32, i, j |
      && 0 <= i < j < |events|
      && Grants(limits, ttl, events, i, sid) && Releases(limits, ttl, events, j, sid)
      && (forall k :: i < k < j ==> !Releases(limits, ttl, events, k, sid))
      && events[j].at <= events[i].at + MAX_HOLD
      ensures events[i].UdpDatagram? && events[j].UdpDatagram? && events[j].from == events[i].from
    {
      HeldThrough(limits, ttl, events, i, j, sid);
      StepKeepsHeld(limits, ttl, Run(limits, ttl, events[..j]), events[j], sid, events[i].from, events[i].at);
    }
  }

  /** On all clocked runs, exactly when the TTL outlasts the hold (or no session can
      exist at all). */
  lemma OnlyHolderReleases(limits: Limits, ttl: nat)
    ensures (forall events :: Clocked(events) ==> HolderReleases(limits, ttl, events))
       <==> ttl > 30 || limits.maxSessions == 0
  {
    if ttl > 30 {
      forall events | Clocked(events)
        ensures HolderReleases(limits, ttl, events)
      {
        ReleasesAboveHold(limits, ttl, events);
      }
    } else if limits.maxSessions == 0 {
      forall events | Clocked(events)
        ensures HolderReleases(limits, ttl, events)
      {
        NoSessionsNoGrants(limits, ttl, events);
      }
    } else {
      var events := StrangersRelease(ttl);
      StrangerReleases(limits, ttl);
      assert !HolderReleases(limits, ttl, events);
    }
  }

  /** Whoever holds the floor was granted it, and no release was accepted since. */
  ghost predicate GrantedAt(
      limits: Limits, ttl: nat, events: seq<Event>, i: nat, m: nat, sid: u32, h: SocketAddr, granted: nat)
  {
    && i < m <= |events| && Grants(limits, ttl, events, i, sid)
    && events[i].UdpDatagram? && events[i].from == h && events[i].at == granted
    && forall k :: i < k < m ==> !Releases(limits, ttl, events, k, sid)
  }

  lemma {:induction false} HolderWasGranted(limits: Limits, ttl: nat, events: seq<Event>, m: nat, sid: u32)
    returns (i: nat)
    requires m <= |events|
    requires var t := Run(limits, ttl, events[..m]);
             sid in t.routes && t.routes[sid].floorHolder.Some? && t.routes[sid].floorGrantedAt.Some?
    ensures var e := Run(limits, ttl, events[..m]).routes[sid];
            GrantedAt(limits, ttl, events, i, m, sid, e.floorHolder.value, e.floorGrantedAt.value)
    decreases m
  {
    assert events[..0] == [];
    assert m > 0;
    LastGivesFloor(limits, ttl, events, m, sid);
    hide Run, Grants, Releases, GrantedAt;
    if Grants(limits, ttl, events, m - 1, sid) {
      i := m - 1;
      JustGranted(limits, ttl, events, m, sid);
    } else {
      i := HolderWasGranted(limits, ttl, events, m - 1, sid);
      GrantStands(limits, ttl, events, i, m, sid);
    }
  }

  /** A floor held after `m` events was given by the last of them or held before it. */
  lemma LastGivesFloor(limits: Limits, ttl: nat, events: seq<Event>, m: nat, sid: u32)
    requires 0 < m <= |events|
    requires var t' := Run(limits, ttl, events[..m]); sid in t'.routes && t'.routes[sid].floorHolder.Some?
    ensures var t, f := Run(limits, ttl, events[..m - 1]), Run(limits, ttl, events[..m]).routes[sid];
            var e := events[m - 1];
            if Grants(limits, ttl, events, m - 1, sid) then
              e.UdpDatagram? && f.floorHolder == Some(e.from) && f.floorGrantedAt == Some(e.at)
            else
              !Releases(limits, ttl, events, m - 1, sid) && sid in t.routes
              && f.floorHolder == t.routes[sid].floorHolder && f.floorGrantedAt == t.routes[sid].floorGrantedAt
  {
    hide Step, Run, Speaks;
    var past, e := events[..m - 1], events[m - 1];
    RunAppend(limits, ttl, past, e);
    assert past + [e] == events[..m];
    StepGivesFloor(limits, ttl, Run(limits, ttl, past), e, sid);
  }

  lemma JustGranted(limits: Limits, ttl: nat, events: seq<Event>, m: nat, sid: u32)
    requires 0 < m <= |events| && Grants(limits, ttl, events, m - 1, sid) && events[m - 1].UdpDatagram?
    ensures GrantedAt(limits, ttl, events, m - 1, m, sid, events[m - 1].from, events[m - 1].at)
  {
  }

  lemma GrantStands(limits: Limits, ttl: nat, events: seq<Event>, i: nat, m: nat, sid: u32)
    requires i < m <= |events| && !Releases(limits, ttl, events, m - 1, sid)
    ensures forall h, granted ::
              GrantedAt(limits, ttl, events, i, m - 1, sid, h, granted) ==>
              GrantedAt(limits, ttl, events, i, m, sid, h, granted)
  {
    hide Releases, Grants;
  }

  /** Only a grant gives the floor, and an accepted release takes it away. */
  lemma StepGivesFloor(limits: Limits, ttl: nat, t: Table, e: Event, sid: u32)
    requires var t' := Step(limits, ttl, t, e).0; sid in t'.routes && t'.routes[sid].floorHolder.Some?
    ensures var (t', _, d) := Step(limits, ttl, t, e);
            var f := t'.routes[sid];
            if Speaks(e, sid) && d.Granted? then
              e.UdpDatagram? && f.floorHolder == Some(e.from) && f.floorGrantedAt == Some(e.at)
            else
              !(Speaks(e, sid) && d.Released?) && sid in t.routes
              && f.floorHolder == t.routes[sid].floorHolder && f.floorGrantedAt == t.routes[sid].floorGrantedAt
  {
    hide Route, FloorRequest, FloorRelease;
    if !e.Collect? && e.content.Session? {
      var s, from := e.content.sid, Source(e);
      RouteLeavesFloor(limits, t, s, from, e.at, sid);
      if from.Udp? {
        FloorChanges(Route(limits, t, s, from, e.at).0, s, from.addr, e.at, sid);
        FloorChanges(t, s, from.addr, e.at, sid);
      }
    }
  }

  /** The floor of `sid`: its holder and grant time, if it is held. */
  function Floor(t: Table, sid: u32): (Option<SocketAddr>, Option<nat>) {
    if sid in t.routes && t.routes[sid].floorHolder.Some?
    then (t.routes[sid].floorHolder, t.routes[sid].floorGrantedAt)
    else (None, None)
  }

  lemma RouteLeavesFloor(limits: Limits, t: Table, s: u32, from: Endpoint, at: nat, sid: u32)
    ensures Floor(Route(limits, t, s, from, at).0, sid) == Floor(t, sid)
  {
  }

  lemma FloorChanges(t: Table, s: u32, from: SocketAddr, at: nat, sid: u32)
    ensures var (t', d) := FloorRequest(t, s, from, at);
            Floor(t', sid) == (if s == sid && d.Granted? then (Some(from), Some(at)) else Floor(t, sid)) && !d.Released?
    ensures var (t', d) := FloorRelease(t, s, from, at);
            Floor(t', sid) == (if s == sid && d.Released? then (None, None) else Floor(t, sid)) && !d.Granted?
  {
    hide Others, FloorIsFree;
  }

  /** The converse of exclusion: a request is denied only when the floor of its
      session was granted at most 30 seconds before and not released since. */
  lemma DeniedOnlyWhileHeld(limits: Limits, ttl: nat, events: seq<Event>, j: nat, sid: u32) returns (i: nat)
    requires j < |events| && Clocked(events) && Speaks(events[j], sid)
    requires Decision(limits, ttl, events, j).Denied?
    ensures i < j && Grants(limits, ttl, events, i, sid) && events[j].at <= events[i].at + MAX_HOLD
    ensures forall k :: i < k < j ==> !Releases(limits, ttl, events, k, sid)
  {
    ReachableTablesSound(limits, ttl, events[..j]);
    var t, e := Run(limits, ttl, events[..j]), events[j];
    assert sid in t.routes && !FloorIsFree(t.routes[sid], e.at);
    i := HolderWasGranted(limits, ttl, events, j, sid);
  }

  /** The guarantee needs the TTL: with 30 seconds or less the collector can
      forget the holder while it holds. It holds on every run exactly when the
      TTL exceeds 30 seconds (or no session can exist at all). */
  lemma ExclusionIffTtl(limits: Limits, ttl: nat)
    ensures (forall events :: Clocked(events) ==> FloorExclusive(limits, ttl, events))
       <==> ttl > 30 || limits.maxSessions == 0
  {
    if ttl > 30 {
      forall events | Clocked(events)
        ensures FloorExclusive(limits, ttl, events)
      {
        ExclusionAboveHold(limits, ttl, events);
      }
    } else if limits.maxSessions == 0 {
      forall events | Clocked(events)
        ensures FloorExclusive(limits, ttl, events)
      {
        NoSessionsNoGrants(limits, ttl, events);
      }
    } else {
      var events := ForgottenHolder(ttl);
      ForgottenHolderGrants(limits, ttl);
      assert !FloorExclusive(limits, ttl, events);
    }
  }

  lemma NoSessionsNoGrants(limits: Limits, ttl: nat, events: seq<Event>)
    requires limits.maxSessions == 0
    ensures forall sid: u32, i :: 0 <= i < |events| ==> !Grants(limits, ttl, events, i, sid)
  {
    forall sid: u32, i | 0 <= i < |events|
      ensures !Grants(limits, ttl, events, i, sid)
    {
      ReachableTablesSound(limits, ttl, events[..i]);
      var t := Run(limits, ttl, events[..i]);
      assert t.routes == map[];
    }
  }

  /** One speaker takes the floor, the collector runs when the session is exactly
      as old as the TTL, and another speaker asks at once. */
  function ForgottenHolder(ttl: nat): seq<Event> {
    [UdpDatagram(SocketAddr(1, 1), 0, true, Session(7, RequestKind)),
     Collect(ttl * SECOND, {}),
     UdpDatagram(SocketAddr(2, 2), ttl * SECOND, true, Session(7, RequestKind))]
  }

  /** The first speaker of a new session is granted its floor. */
  lemma FreshGrant(limits: Limits, t: Table, sid: u32, from: SocketAddr, at: nat)
    requires sid != 0 && sid !in t.routes && |t.routes| < limits.maxSessions
    ensures var (t', _, d) := Handle(limits, t, Udp(from), sid, RequestKind, at);
            d.Granted? && t'.routes == t.routes[sid := RouteEntry([Udp(from)], at, Some(from), Some(at))]
  {
    var routed := Route(limits, t, sid, Udp(from), at).0;
    assert routed.routes[sid] == RouteEntry([Udp(from)], at, None, None);
  }

  lemma ForgottenHolderGrants(limits: Limits, ttl: nat)
    requires ttl <= 30 && limits.maxSessions > 0
    ensures var events := ForgottenHolder(ttl);
            && Clocked(events) && events[2].at <= events[0].at + MAX_HOLD
            && Grants(limits, ttl, events, 0, 7) && Grants(limits, ttl, events, 2, 7)
            && !Releases(limits, ttl, events, 1, 7)
  {
    hide Handle;
    var events := ForgottenHolder(ttl);
    assert events[..0] == [];
    FreshGrant(limits, Table(map[], 0), 7, SocketAddr(1, 1), 0);
    CollectorForgets(limits, ttl);
    FreshGrant(limits, Run(limits, ttl, events[..2]), 7, SocketAddr(2, 2), ttl * SECOND);
  }

  lemma CollectorForgets(limits: Limits, ttl: nat)
    requires limits.maxSessions > 0
    ensures Run(limits, ttl, ForgottenHolder(ttl)[..2]).routes == map[]
  {
    hide Handle;
    var events := ForgottenHolder(ttl);
    assert events[..1] == [] + [events[0]] && events[..2] == events[..1] + [events[1]];
    FreshGrant(limits, Table(map[], 0), 7, SocketAddr(1, 1), 0);
    RunAppend(limits, ttl, [], events[0]);
    var first := Run(limits, ttl, events[..1]);
    assert first.routes.Keys == {7} && first.routes[7].lastActivity == 0;
    RunAppend(limits, ttl, events[..1], events[1]);
  }

  /** The same, but the other speaker sends an ordinary packet and then a release. */
  function StrangersRelease(ttl: nat): seq<Event> {
    [UdpDatagram(SocketAddr(1, 1), 0, true, Session(7, RequestKind)),
     Collect(ttl * SECOND, {}),
     UdpDatagram(SocketAddr(2, 2), ttl * SECOND, true, Session(7, OtherKind)),
     UdpDatagram(SocketAddr(2, 2), ttl * SECOND, true, Session(7, ReleaseKind))]
  }

  /** A new session nobody holds: any of its speakers may release. */
  lemma FreshRelease(limits: Limits, t: Table, sid: u32, from: SocketAddr, at: nat)
    requires sid != 0 && sid !in t.routes && |t.routes| < limits.maxSessions
    ensures var (t', _, d) := Handle(limits, t, Udp(from), sid, OtherKind, at);
            && d == Unknown
            && Handle(limits, t', Udp(from), sid, ReleaseKind, at).2.Released?
  {
  }

  lemma StrangerReleases(limits: Limits, ttl: nat)
    requires ttl <= 30 && limits.maxSessions > 0
    ensures var events := StrangersRelease(ttl);
            && Clocked(events) && events[3].at <= events[0].at + MAX_HOLD && events[3].from != events[0].from
            && Grants(limits, ttl, events, 0, 7) && Releases(limits, ttl, events, 3, 7)
            && !Releases(limits, ttl, events, 1, 7) && !Releases(limits, ttl, events, 2, 7)
  {
    hide Handle;
    var events := StrangersRelease(ttl);
    assert events[..3] == ForgottenHolder(ttl)[..2] + [events[2]];
    assert events[..0] == [] && events[..2] == ForgottenHolder(ttl)[..2];
    CollectorForgets(limits, ttl);
    FreshGrant(limits, Table(map[], 0), 7, SocketAddr(1, 1), 0);
    RunAppend(limits, ttl, events[..2], events[2]);
    FreshRelease(limits, Run(limits, ttl, events[..2]), 7, SocketAddr(2, 2), ttl * SECOND);
  }

  // ------------------------------------------------------- the floor over a run

  /** Holder and grant time as the trace tells them: the last grant, unless a release
      was accepted since or the session was gone. */
  function TracedFloor(limits: Limits, ttl: nat, events: seq<Event>, sid: u32): (Option<SocketAddr>, Option<nat>) {
    if events == [] then (None, None)
    else
      var n := |events| - 1;
      var e := events[n];
      if Grants(limits, ttl, events, n, sid) then (if e.UdpDatagram? then Some(e.from) else None, Some(e.at))
      else if Releases(limits, ttl, events, n, sid) || sid !in Run(limits, ttl, events).routes then (None, None)
      else TracedFloor(limits, ttl, events[..n], sid)
  }

  /** The table's floor is the traced one. */
  lemma {:induction false} FloorIsTraced(limits: Limits, ttl: nat, events: seq<Event>, sid: u32)
    ensures Floor(Run(limits, ttl, events), sid) == TracedFloor(limits, ttl, events, sid)
  {
    if events != [] {
      var n := |events| - 1;
      FloorIsTraced(limits, ttl, events[..n], sid);
      StepMovesFloor(limits, ttl, Run(limits, ttl, events[..n]), events[n], sid);
      hide Step, Floor, Speaks;
    }
  }

  lemma StepMovesFloor(limits: Limits, ttl: nat, t: Table, e: Event, sid: u32)
    ensures var (t', _, d) := Step(limits, ttl, t, e);
            Floor(t', sid) ==
              if Speaks(e, sid) && d.Granted? then (if e.UdpDatagram? then Some(e.from) else None, Some(e.at))
              else if (Speaks(e, sid) && d.Released?) || sid !in t'.routes then (None, None)
              else Floor(t, sid)
  {
    hide Route, FloorRequest, FloorRelease;
    if !e.Collect? && e.content.Session? {
      var s, from := e.content.sid, Source(e);
      RouteLeavesFloor(limits, t, s, from, e.at, sid);
      if from.Udp? {
        FloorChanges(Route(limits, t, s, from, e.at).0, s, from.addr, e.at, sid);
        FloorChanges(t, s, from.addr, e.at, sid);
      }
    }
  }

  /** Nobody holds the floor, or somebody does for more than 30 seconds. */
  predicate Free(floor: (Option<SocketAddr>, Option<nat>), now: nat) {
    floor.0.None? || (floor.1.Some? && now > floor.1.value + MAX_HOLD)
  }

  /** On every run a request is answered: granted exactly when the floor is free and the
      sender has a place in the session, denied exactly when it has one and the floor
      is not free. */
  lemma RequestAnswered(limits: Limits, ttl: nat, events: seq<Event>, i: nat, sid: u32)
    requires i < |events| && Speaks(events[i], sid)
    requires events[i].UdpDatagram? && events[i].content.kind.RequestKind?
    ensures var e, d := events[i], Decision(limits, ttl, events, i);
            var free := Free(TracedFloor(limits, ttl, events[..i], sid), e.at);
            var member := IsMember(Run(limits, ttl, events[..i + 1]), sid, Udp(e.from));
            && (d.Granted? <==> member && free) && (d.Denied? <==> member && !free) && !d.Released?
  {
    var t, e := Run(limits, ttl, events[..i]), events[i];
    ReachableTablesSound(limits, ttl, events[..i]);
    FloorIsTraced(limits, ttl, events[..i], sid);
    RouteLeavesFloor(limits, t, sid, Udp(e.from), e.at, sid);
    RouteKeeps(limits, t, sid, Udp(e.from), e.at);
    RunAppend(limits, ttl, events[..i], e);
    assert events[..i] + [e] == events[..i + 1];
    hide Run, TracedFloor, Route;
    RequestOnFloor(limits, Route(limits, t, sid, Udp(e.from), e.at).0, sid, e.from, e.at);
  }

  lemma RequestOnFloor(limits: Limits, t: Table, sid: u32, from: SocketAddr, at: nat)
    requires GoodTable(limits, t)
    ensures var (t', d) := FloorRequest(t, sid, from, at);
            var free, member := Free(Floor(t, sid), at), IsMember(t, sid, Udp(from));
            && (IsMember(t', sid, Udp(from)) <==> member)
            && (d.Granted? <==> member && free) && (d.Denied? <==> member && !free) && !d.Released?
  {
  }

  /** On every run a release is answered: accepted exactly when the session exists and
      the sender holds its floor or the floor is free, and otherwise denied if the
      session exists. */
  lemma ReleaseAnswered(limits: Limits, ttl: nat, events: seq<Event>, i: nat, sid: u32)
    requires i < |events| && Speaks(events[i], sid)
    requires events[i].UdpDatagram? && events[i].content.kind.ReleaseKind?
    ensures var e, d, floor := events[i], Decision(limits, ttl, events, i), TracedFloor(limits, ttl, events[..i], sid);
            var accepted := floor.0 == Some(e.from) || Free(floor, e.at);
            var live := sid in Run(limits, ttl, events[..i]).routes;
            && (d.Released? <==> live && accepted) && (d.Denied? <==> live && !accepted) && !d.Granted?
            && Run(limits, ttl, events[..i + 1]).routes.Keys == Run(limits, ttl, events[..i]).routes.Keys
  {
    var t, e := Run(limits, ttl, events[..i]), events[i];
    ReachableTablesSound(limits, ttl, events[..i]);
    FloorIsTraced(limits, ttl, events[..i], sid);
    RunAppend(limits, ttl, events[..i], e);
    assert events[..i] + [e] == events[..i + 1];
    hide Run, TracedFloor;
    ReleaseOnFloor(limits, t, sid, e.from, e.at);
  }

  lemma ReleaseOnFloor(limits: Limits, t: Table, sid: u32, from: SocketAddr, at: nat)
    requires GoodTable(limits, t)
    ensures var (t', d) := FloorRelease(t, sid, from, at);
            var accepted, live := Floor(t, sid).0 == Some(from) || Free(Floor(t, sid), at), sid in t.routes;
            && (d.Released? <==> live && accepted) && (d.Denied? <==> live && !accepted) && !d.Granted?
            && t'.routes.Keys == t.routes.Keys
  {
  }

  /** The holder hands over: its release is accepted, and the next request of any
      member of the session is granted, whenever it comes. */
  lemma HolderHandsOver(limits: Limits, ttl: nat, t: Table, sid: u32, h: SocketAddr, granted: nat,
                        release: Event, request: Event)
    requires Held(t, sid, h, granted) && GoodTable(limits, t)
    requires release == UdpDatagram(h, release.at, true, Session(sid, ReleaseKind))
    requires request.UdpDatagram? && request == UdpDatagram(request.from, request.at, true, Session(sid, RequestKind))
    requires IsMember(t, sid, Udp(request.from))
    ensures var (freed, _, d) := Step(limits, ttl, t, release);
            d.Released? && Floor(freed, sid) == (None, None) && Step(limits, ttl, freed, request).2.Granted?
  {
    var freed := FloorRelease(t, sid, h, release.at).0;
    assert sid != 0 && Floor(t, sid).0 == Some(h);
    hide FloorRelease, FloorRequest, Route, GoodTable;
    ReleaseOnFloor(limits, t, sid, h, release.at);
    FloorChanges(t, sid, h, release.at, sid);
    FloorKeeps(limits, t, sid, h, release.at);
    FloorKeepsPlaces(t, sid, h, release.at);
    assert IsMember(freed, sid, Udp(request.from));
    RouteExact(limits, freed, sid, Udp(request.from), request.at);
    RouteLeavesFloor(limits, freed, sid, Udp(request.from), request.at, sid);
    RouteKeeps(limits, freed, sid, Udp(request.from), request.at);
    RequestOnFloor(limits, Route(limits, freed, sid, Udp(request.from), request.at).0, sid, request.from, request.at);
  }

  // ------------------------------------------------------- membership over a run

  /** On every run, after a packet that is not a floor release its sender is a member
      of the session exactly if it was one, or there was room for it. Members stay,
      nobody else joins, and no other session changes. */
  lemma JoinsExactly(limits: Limits, ttl: nat, events: seq<Event>, i: nat, sid: u32)
    requires i < |events| && Speaks(events[i], sid) && sid != 0
    requires events[i].WsDatagram? || !events[i].content.kind.ReleaseKind?
    ensures var before, after := Run(limits, ttl, events[..i]), Run(limits, ttl, events[..i + 1]);
            var from := Source(events[i]);
            var fits := if sid in before.routes
                        then from in before.routes[sid].peers || |before.routes[sid].peers| < limits.maxPeers
                        else |before.routes| < limits.maxSessions;
            && (IsMember(after, sid, from) <==> fits)
            && (forall p :: p != from ==> (IsMember(after, sid, p) <==> IsMember(before, sid, p)))
            && (forall s :: s != sid ==>
                  && (s in after.routes <==> s in before.routes)
                  && (s in before.routes ==> after.routes[s] == before.routes[s]))
            && (sid in after.routes ==> after.routes[sid].lastActivity == events[i].at)
  {
    var t, e, from := Run(limits, ttl, events[..i]), events[i], Source(events[i]);
    RunAppend(limits, ttl, events[..i], e);
    assert events[..i] + [e] == events[..i + 1];
    hide Run, Route;
    RouteExact(limits, t, sid, from, e.at);
    if from.Udp? {
      FloorKeepsPlaces(Route(limits, t, sid, from, e.at).0, sid, from.addr, e.at);
    }
  }

  /** Floor messages move nobody, and leave other sessions alone. */
  lemma FloorKeepsPlaces(t: Table, sid: u32, from: SocketAddr, at: nat)
    ensures SamePlaces(t, FloorRequest(t, sid, from, at).0, sid)
    ensures SamePlaces(t, FloorRelease(t, sid, from, at).0, sid)
  {
  }

  ghost predicate SamePlaces(t: Table, t': Table, sid: u32) {
    && t'.routes.Keys == t.routes.Keys
    && (forall s :: s in t.routes && s != sid ==> t'.routes[s] == t.routes[s])
    && (sid in t.routes ==>
          t'.routes[sid].peers == t.routes[sid].peers && t'.routes[sid].lastActivity == t.routes[sid].lastActivity)
  }

  // ---------------------------------------------------------- what a run sends

  /** What an event that led to decision `d` and table `after` must send. */
  ghost predicate Owes(e: Event, d: FloorDecision, after: Table, o: Output) {
    && Speaks(e, o.sid)
    && var from := Source(e);
       var other := o.to != from && IsMember(after, o.sid, o.to);
       match o.message
       case FloorGrant => d.Granted? && o.to == from
       case FloorTaken => d.Granted? && other
       case FloorDeny => d.Denied? && e.content.kind.RequestKind? && o.to == from
       case FloorFreed => d.Released? && other
       case Forwarded => IsOrdinary(e) && IsMember(after, o.sid, from) && other
  }

  /** Not a floor packet. The WebSocket side forwards every kind. */
  predicate IsOrdinary(e: Event)
    requires !e.Collect? && e.content.Session?
  {
    e.WsDatagram? || e.content.kind.OtherKind?
  }

  /** On every run, every event sends exactly what it must, once each: the grant to the
      sender and the news to the other members, a denial to the sender, a release to
      the other members, an ordinary packet to the other members; floor packets are
      never forwarded. */
  lemma OutputsExact(limits: Limits, ttl: nat, events: seq<Event>, i: nat)
    requires i < |events|
    ensures SendsExactly(events[i], Decision(limits, ttl, events, i), Run(limits, ttl, events[..i + 1]),
                         Outputs(limits, ttl, events, i))
  {
    hide Run, Step, SendsExactly, GoodTable;
    ReachableTablesSound(limits, ttl, events[..i]);
    RunAppend(limits, ttl, events[..i], events[i]);
    assert events[..i] + [events[i]] == events[..i + 1];
    StepSends(limits, ttl, Run(limits, ttl, events[..i]), events[i]);
  }

  /** The outputs are what is owed, once each. */
  ghost predicate SendsExactly(e: Event, d: FloorDecision, after: Table, outputs: seq<Output>) {
    && (forall o :: o in outputs <==> Owes(e, d, after, o))
    && (forall j, k :: 0 <= j < k < |outputs| ==> outputs[j] != outputs[k])
  }

  lemma StepSends(limits: Limits, ttl: nat, t: Table, e: Event)
    requires GoodTable(limits, t)
    ensures var (t', outputs, d) := Step(limits, ttl, t, e); SendsExactly(e, d, t', outputs)
  {
    if !e.Collect? && e.admitted && e.content.Session? {
      hide SendsExactly, Handle;
      if IsOrdinary(e) {
        OrdinarySends(limits, ttl, t, e);
      } else if e.content.kind.RequestKind? {
        RequestSends(limits, ttl, t, e);
      } else {
        ReleaseSends(limits, ttl, t, e);
      }
    }
  }

  lemma OrdinarySends(limits: Limits, ttl: nat, t: Table, e: Event)
    requires GoodTable(limits, t) && !e.Collect? && e.admitted && e.content.Session? && IsOrdinary(e)
    ensures var (t', outputs, d) := Step(limits, ttl, t, e); SendsExactly(e, d, t', outputs)
  {
    var sid, from := e.content.sid, Source(e);
    hide Route, GoodTable, ToAll, SendsExactly;
    RouteReaches(limits, t, sid, from, e.at);
    var (t', d) := Route(limits, t, sid, from, e.at);
    ForwardOwes(e, t', sid, Targets(d));
  }

  lemma ForwardOwes(e: Event, after: Table, sid: u32, targets: seq<Endpoint>)
    requires Speaks(e, sid) && IsOrdinary(e) && Distinct(targets)
    requires forall p :: p in targets <==> IsMember(after, sid, Source(e)) && IsMember(after, sid, p) && p != Source(e)
    ensures SendsExactly(e, Unknown, after, ToAll(Forwarded, sid, targets))
  {
    SentToAll(Forwarded, sid, targets);
    hide ToAll, IsMember, Distinct;
  }

  lemma RequestSends(limits: Limits, ttl: nat, t: Table, e: Event)
    requires GoodTable(limits, t) && e.UdpDatagram? && e.admitted && e.content.Session? && e.content.kind.RequestKind?
    ensures var (t', outputs, d) := Step(limits, ttl, t, e); SendsExactly(e, d, t', outputs)
  {
    var sid, from := e.content.sid, Udp(e.from);
    var routed := Route(limits, t, sid, from, e.at).0;
    hide SendsExactly, Route, GoodTable, ToAll;
    var (t', d) := FloorRequest(routed, sid, e.from, e.at);
    RouteKeeps(limits, t, sid, from, e.at);
    FloorKeepsPlaces(routed, sid, e.from, e.at);
    OthersOfFloor(limits, routed, sid, e.from, e.at);
    SameOthers(routed, t', sid, from, if d.Granted? then d.others else []);
    hide FloorRequest, SamePlaces, AreOthers;
    GrantOwes(e, t', sid, if d.Granted? then d.others else []);
    NoGrantOwes(e, t', sid);
  }

  lemma ReleaseSends(limits: Limits, ttl: nat, t: Table, e: Event)
    requires GoodTable(limits, t) && e.UdpDatagram? && e.admitted && e.content.Session? && e.content.kind.ReleaseKind?
    ensures var (t', outputs, d) := Step(limits, ttl, t, e); SendsExactly(e, d, t', outputs)
  {
    var sid := e.content.sid;
    var (t', d) := FloorRelease(t, sid, e.from, e.at);
    FloorKeepsPlaces(t, sid, e.from, e.at);
    OthersOfFloor(limits, t, sid, e.from, e.at);
    assert forall p :: IsMember(t', sid, p) <==> IsMember(t, sid, p);
    hide FloorRelease, GoodTable, ToAll, SamePlaces, IsMember;
    if d.Released? {
      SentToAll(FloorFreed, sid, d.others);
    }
  }

  lemma SameOthers(t: Table, t': Table, sid: u32, from: Endpoint, others: seq<Endpoint>)
    requires SamePlaces(t, t', sid)
    ensures AreOthers(t, sid, from, others) ==> AreOthers(t', sid, from, others)
  {
    assert forall p :: IsMember(t', sid, p) <==> IsMember(t, sid, p);
  }

  lemma GrantOwes(e: Event, after: Table, sid: u32, others: seq<Endpoint>)
    requires e.UdpDatagram? && Speaks(e, sid) && e.content.kind.RequestKind?
    ensures AreOthers(after, sid, Udp(e.from), others) ==>
              SendsExactly(e, Granted(others), after,
                           [Output(FloorGrant, sid, Udp(e.from))] + ToAll(FloorTaken, sid, others))
  {
    if AreOthers(after, sid, Udp(e.from), others) {
      GrantAndNews(sid, Udp(e.from), others);
      hide ToAll, IsMember, Distinct;
    }
  }

  lemma NoGrantOwes(e: Event, after: Table, sid: u32)
    requires e.UdpDatagram? && Speaks(e, sid) && e.content.kind.RequestKind?
    ensures SendsExactly(e, Denied, after, [Output(FloorDeny, sid, Udp(e.from))])
    ensures SendsExactly(e, Unknown, after, [])
  {
  }

  lemma GrantAndNews(sid: u32, from: Endpoint, others: seq<Endpoint>)
    requires Distinct(others)
    ensures var outputs := [Output(FloorGrant, sid, from)] + ToAll(FloorTaken, sid, others);
            && (forall o :: o in outputs <==>
                  || o == Output(FloorGrant, sid, from)
                  || (o.message == FloorTaken && o.sid == sid && o.to in others))
            && (forall j, k :: 0 <= j < k < |outputs| ==> outputs[j] != outputs[k])
  {
    SentToAll(FloorTaken, sid, others);
    hide ToAll, Distinct;
    var news := ToAll(FloorTaken, sid, others);
    assert Output(FloorGrant, sid, from) !in news;
  }

  lemma SentToAll(message: Message, sid: u32, targets: seq<Endpoint>)
    requires Distinct(targets)
    ensures var outputs := ToAll(message, sid, targets);
            && (forall o :: o in outputs <==> o.message == message && o.sid == sid && o.to in targets)
            && (forall j, k :: 0 <= j < k < |outputs| ==> outputs[j] != outputs[k])
  {
    forall o: Output
      ensures o in ToAll(message, sid, targets) <==> o.message == message && o.sid == sid && o.to in targets
    {
      ToAllReaches(message, sid, targets, o);
    }
    OncePerTarget(message, sid, targets);
  }

  /** The lists that go with a grant and a release are the other members, once each. */
  lemma OthersOfFloor(limits: Limits, t: Table, sid: u32, from: SocketAddr, at: nat)
    requires GoodTable(limits, t)
    ensures var d := FloorRequest(t, sid, from, at).1;
            !d.Released? && (d.Granted? ==> AreOthers(t, sid, Udp(from), d.others))
    ensures var d := FloorRelease(t, sid, from, at).1;
            !d.Granted? && (d.Released? ==> AreOthers(t, sid, Udp(from), d.others))
  {
    if sid in t.routes {
      OthersExact(t.routes[sid].peers, Udp(from));
    }
    hide Others, FloorIsFree;
  }

  ghost predicate AreOthers(t: Table, sid: u32, from: Endpoint, others: seq<Endpoint>) {
    Distinct(others) && forall p :: p in others <==> IsMember(t, sid, p) && p != from
  }

  // -------------------------------------------------------------- confidentiality

  /** Who has spoken in a session so far. */
  function Speakers(events: seq<Event>, sid: u32): set<Endpoint> {
    if events == [] then {}
    else
      var last := events[|events| - 1];
      Speakers(events[..|events| - 1], sid) + (if Speaks(last, sid) then {Source(last)} else {})
  }

  ghost predicate PeersSpoke(t: Table, events: seq<Event>) {
    forall s, p :: s in t.routes && p in t.routes[s].peers ==> p in Speakers(events, s)
  }

  lemma ToAllReaches(message: Message, sid: u32, targets: seq<Endpoint>, o: Output)
    ensures o in ToAll(message, sid, targets) <==> o.message == message && o.sid == sid && o.to in targets
  {
    if o.message == message && o.sid == sid && o.to in targets {
      var i :| 0 <= i < |targets| && targets[i] == o.to;
      assert ToAll(message, sid, targets)[i] == o;
    }
  }

  /** A routed datagram reaches exactly the other peers of its session, each once,
      when its sender is (or becomes) one of them, and nobody otherwise; only the
      sender can enter the table. */
  lemma RouteReaches(limits: Limits, t: Table, sid: u32, from: Endpoint, at: nat)
    requires GoodTable(limits, t)
    ensures var (t', d) := Route(limits, t, sid, from, at);
            var targets := Targets(d);
            && Distinct(targets)
            && (forall p :: p in targets <==>
                  sid in t'.routes && from in t'.routes[sid].peers && p in t'.routes[sid].peers && p != from)
            && (forall p :: p in targets ==> sid in t.routes && p in t.routes[sid].peers)
            && (forall s :: s in t'.routes && s != sid ==> s in t.routes && t'.routes[s] == t.routes[s])
            && (sid in t'.routes ==> forall p :: p in t'.routes[sid].peers ==>
                  p == from || (sid in t.routes && p in t.routes[sid].peers))
  {
    hide Others;
    if sid in t.routes {
      assert GoodEntry(limits, t.routes[sid]);
      OthersExact(t.routes[sid].peers, from);
    }
  }

  lemma FloorReaches(t: Table, sid: u32, from: SocketAddr, at: nat, p: Endpoint)
    ensures var (t', d) := FloorRequest(t, sid, from, at);
            && (d.Granted? && p in d.others ==> p in t.routes[sid].peers)
            && t'.routes.Keys == t.routes.Keys
            && forall s :: s in t.routes ==> t'.routes[s].peers == t.routes[s].peers
    ensures var (t', d) := FloorRelease(t, sid, from, at);
            && (d.Released? && p in d.others ==> p in t.routes[sid].peers)
            && t'.routes.Keys == t.routes.Keys
            && forall s :: s in t.routes ==> t'.routes[s].peers == t.routes[s].peers
    ensures FloorRequest(t, sid, from, at).1.Granted? || FloorRelease(t, sid, from, at).1.Released? ==> sid in t.routes
  {
    hide Others, FloorIsFree;
    if sid in t.routes {
      OthersExact(t.routes[sid].peers, Udp(from));
    }
  }

  /** Whatever a datagram triggers is about its own session and goes to its
      sender or to endpoints already registered there. */
  lemma HandleStaysInSession(limits: Limits, t: Table, from: Endpoint, sid: u32, kind: Kind, at: nat, o: Output)
    requires GoodTable(limits, t)
    ensures var (t', outputs, _) := Handle(limits, t, from, sid, kind, at);
            && (o in outputs ==> o.sid == sid && (o.to == from || (sid in t.routes && o.to in t.routes[sid].peers)))
            && (forall s, p :: s in t'.routes && p in t'.routes[s].peers ==>
                  (s in t.routes && p in t.routes[s].peers) || (s == sid && p == from))
  {
    hide ToAll, Route, FloorRequest, FloorRelease, GoodTable;
    RouteReaches(limits, t, sid, from, at);
    var (routed, d) := Route(limits, t, sid, from, at);
    ToAllReaches(Forwarded, sid, Targets(d), o);
    if from.Udp? {
      FloorReaches(routed, sid, from.addr, at, o.to);
      FloorReaches(t, sid, from.addr, at, o.to);
      var asked, freed := FloorRequest(routed, sid, from.addr, at).1, FloorRelease(t, sid, from.addr, at).1;
      if asked.Granted? {
        ToAllReaches(FloorTaken, sid, asked.others, o);
      }
      if freed.Released? {
        ToAllReaches(FloorFreed, sid, freed.others, o);
      }
    }
  }

  lemma {:induction false} PeersHaveSpoken(limits: Limits, ttl: nat, events: seq<Event>)
    ensures PeersSpoke(Run(limits, ttl, events), events)
  {
    hide Handle, EvictIdle;
    if events != [] {
      var past, e := events[..|events| - 1], events[|events| - 1];
      PeersHaveSpoken(limits, ttl, past);
      ReachableTablesSound(limits, ttl, past);
      var t := Run(limits, ttl, past);
      if e.Collect? {
        EvictOnlyShrinks(t, ttl, e.at, e.closed);
      } else if e.content.Session? {
        HandleStaysInSession(limits, t, Source(e), e.content.sid, e.content.kind, e.at,
                             Output(Forwarded, 0, Source(e)));
      }
    }
  }

  lemma EvictOnlyShrinks(t: Table, ttl: nat, at: nat, closed: set<nat>)
    ensures var kept := EvictIdle(t, ttl, at, closed).routes;
            forall s, p :: s in kept && p in kept[s].peers ==> s in t.routes && p in t.routes[s].peers
  {
    var kept := EvictIdle(t, ttl, at, closed).routes;
    forall s, p | s in kept && p in kept[s].peers
      ensures s in t.routes && p in t.routes[s].peers
    {
      StillOpenMembers(t.routes[s].peers, closed, p);
    }
  }

  /** No endpoint ever receives traffic or floor messages of a session it has not
      itself spoken in. */
  lemma NoTrafficToStrangers(limits: Limits, ttl: nat, events: seq<Event>, i: nat, o: Output)
    requires i < |events| && o in Outputs(limits, ttl, events, i)
    ensures o.to in Speakers(events[..i + 1], o.sid)
  {
    PeersHaveSpoken(limits, ttl, events[..i]);
    ReachableTablesSound(limits, ttl, events[..i]);
    var t, e := Run(limits, ttl, events[..i]), events[i];
    assert events[..i + 1][..i] == events[..i];
    HandleStaysInSession(limits, t, Source(e), e.content.sid, e.content.kind, e.at, o);
  }

  /** On every run, an ordinary session packet goes to exactly the other peers of
      its session, once each. */
  lemma BroadcastExact(limits: Limits, ttl: nat, events: seq<Event>, i: nat, sid: u32)
    requires i < |events| && Speaks(events[i], sid)
    requires events[i].WsDatagram? || events[i].content.kind.OtherKind?
    ensures var from, outputs := Source(events[i]), Outputs(limits, ttl, events, i);
            var after := Run(limits, ttl, events[..i + 1]);
            && (forall o :: o in outputs <==>
                  && o.message == Forwarded && o.sid == sid && sid in after.routes
                  && from in after.routes[sid].peers && o.to in after.routes[sid].peers && o.to != from)
            && (forall j, k :: 0 <= j < k < |outputs| ==> outputs[j] != outputs[k])
  {
    hide Route, GoodTable, ToAll;
    ReachableTablesSound(limits, ttl, events[..i]);
    assert events[..i + 1][..i] == events[..i];
    var t, from := Run(limits, ttl, events[..i]), Source(events[i]);
    RouteReaches(limits, t, sid, from, events[i].at);
    SentToAll(Forwarded, sid, Targets(Route(limits, t, sid, from, events[i].at).1));
  }

  lemma OncePerTarget(message: Message, sid: u32, targets: seq<Endpoint>)
    requires Distinct(targets)
    ensures var outputs := ToAll(message, sid, targets);
            forall j, k :: 0 <= j < k < |outputs| ==> outputs[j] != outputs[k]
  {
    forall j, k | 0 <= j < k < |targets|
      ensures targets[j] != targets[k]
    {
      assert !Matches(targets[j], targets[k]);
    }
  }
}
