/** The relay's routing table and floor arbiter. `Table` and the functions on it
    are the specification; `Router` is the code that mutates the map and its
    entries. A call reads the clock once, except `floor_request`, which reads it up
    to four times. */
module Router {
  import opened Prelude

  /** `FLOOR_MAX_HOLD_SECS`. */
  const MAX_HOLD: nat := 30 * SECOND

  datatype SocketAddr = SocketAddr(ip: nat, port: nat)

  datatype Endpoint = Udp(addr: SocketAddr) | WebSocket(channel: nat)

  predicate Matches(a: Endpoint, b: Endpoint) {
    match (a, b)
    case (Udp(x), Udp(y)) => x == y
    case (WebSocket(x), WebSocket(y)) => x == y
    case _ => false
  }

  datatype RouteEntry = RouteEntry(
    peers: seq<Endpoint>, lastActivity: nat, floorHolder: Option<SocketAddr>, floorGrantedAt: Option<nat>)

  datatype Limits = Limits(maxSessions: nat, maxPeers: nat)

  /** The routing table and the `active_sessions` gauge. */
  datatype Table = Table(routes: map<u32, RouteEntry>, gauge: nat)

  datatype RouteDecision = Broadcast(targets: seq<Endpoint>) | Registered | Dropped

  /** Where the datagram goes. */
  function Targets(d: RouteDecision): seq<Endpoint> {
    if d.Broadcast? then d.targets else []
  }

  datatype FloorDecision = Granted(others: seq<Endpoint>) | Denied | Released(others: seq<Endpoint>) | Unknown

  /** Nobody holds the floor, or the holder exceeded its time. */
  predicate FloorIsFree(e: RouteEntry, now: nat) {
    match (e.floorHolder, e.floorGrantedAt)
    case (None, _) => true
    case (Some(_), Some(granted)) => Since(now, granted) > MAX_HOLD
    case (Some(_), None) => false
  }

  /** The peers other than `from`, in order. */
  function Others(peers: seq<Endpoint>, from: Endpoint): seq<Endpoint> {
    if peers == [] then []
    else
      var last := peers[|peers| - 1];
      Others(peers[..|peers| - 1], from) + (if Matches(last, from) then [] else [last])
  }

  function StillOpen(peers: seq<Endpoint>, closed: set<nat>): seq<Endpoint> {
    if peers == [] then []
    else
      var last := peers[|peers| - 1];
      StillOpen(peers[..|peers| - 1], closed) + (if last.WebSocket? && last.channel in closed then [] else [last])
  }

  function Reach(targets: seq<Endpoint>): RouteDecision {
    if targets == [] then Registered else Broadcast(targets)
  }

  // ----------------------------------------------------------------- specification

  function Route(limits: Limits, t: Table, sid: u32, from: Endpoint, now: nat): (Table, RouteDecision) {
    if sid == 0 then (t, Dropped)
    else if sid in t.routes then
      var e := t.routes[sid].(lastActivity := now);
      if from in e.peers then
        (t.(routes := t.routes[sid := e]), Reach(Others(e.peers, from)))
      else if |e.peers| >= limits.maxPeers then
        (t.(routes := t.routes[sid := e]), Dropped)
      else
        (t.(routes := t.routes[sid := e.(peers := e.peers + [from])]), Reach(e.peers))
    else if |t.routes| >= limits.maxSessions then (t, Dropped)
    else
      var routes := t.routes[sid := RouteEntry([from], now, None, None)];
      (Table(routes, |routes|), Registered)
  }

  function Cleaned(e: RouteEntry, closed: set<nat>): RouteEntry {
    e.(peers := StillOpen(e.peers, closed))
  }

  predicate Keeps(e: RouteEntry, maxAge: nat, now: nat, closed: set<nat>) {
    StillOpen(e.peers, closed) != [] && Since(now, e.lastActivity) < maxAge
  }

  /** `closed` are the channels whose WebSocket is gone. */
  function EvictIdle(t: Table, maxAgeSecs: nat, now: nat, closed: set<nat>): Table {
    var kept := KeptOf(t.routes, t.routes.Keys, maxAgeSecs * SECOND, now, closed);
    Table(kept, if |kept| < |t.routes| then |kept| else t.gauge)
  }

  /** What survives of the sessions `among`. */
  function KeptOf(routes: map<u32, RouteEntry>, among: set<u32>, maxAge: nat, now: nat, closed: set<nat>)
    : map<u32, RouteEntry>
  {
    map s | s in routes && s in among && Keeps(routes[s], maxAge, now, closed) :: Cleaned(routes[s], closed)
  }

  /** A registered speaker's request: decided on one clock reading, and a grant
      stamped with another. */
  function FloorRequestAt(t: Table, sid: u32, from: SocketAddr, decided: nat, stamp: nat): (Table, FloorDecision) {
    if !IsPeer(t, sid, from) then (t, Unknown)
    else
      var e := t.routes[sid];
      if FloorIsFree(e, decided) then
        (t.(routes := t.routes[sid := e.(floorHolder := Some(from), floorGrantedAt := Some(stamp))]),
         Granted(Others(e.peers, Udp(from))))
      else (t, Denied)
  }

  predicate IsPeer(t: Table, sid: u32, from: SocketAddr) {
    sid in t.routes && Udp(from) in t.routes[sid].peers
  }

  /** The same with one reading for both. */
  function FloorRequest(t: Table, sid: u32, from: SocketAddr, now: nat): (Table, FloorDecision) {
    FloorRequestAt(t, sid, from, now, now)
  }

  function FloorRelease(t: Table, sid: u32, from: SocketAddr, now: nat): (Table, FloorDecision) {
    if sid !in t.routes then (t, Unknown)
    else
      var e := t.routes[sid];
      if e.floorHolder == Some(from) || FloorIsFree(e, now) then
        (t.(routes := t.routes[sid := e.(floorHolder := None, floorGrantedAt := None)]),
         Released(Others(e.peers, Udp(from))))
      else (t, Denied)
  }

  // -------------------------------------------------------------------- invariant

  ghost predicate Distinct(peers: seq<Endpoint>) {
    forall i, j :: 0 <= i < j < |peers| ==> !Matches(peers[i], peers[j])
  }

  /** Any floor holder is a registered UDP peer with a grant time. */
  ghost predicate GoodEntry(limits: Limits, e: RouteEntry) {
    && 1 <= |e.peers| <= Max(1, limits.maxPeers)
    && Distinct(e.peers)
    && (e.floorHolder.Some? <==> e.floorGrantedAt.Some?)
    && (e.floorHolder.Some? ==> Udp(e.floorHolder.value) in e.peers)
  }

  ghost predicate GoodTable(limits: Limits, t: Table) {
    && 0 !in t.routes
    && |t.routes| <= limits.maxSessions
    && t.gauge == |t.routes|
    && forall s :: s in t.routes ==> GoodEntry(limits, t.routes[s])
  }

  // -------------------------------------------------------------------- filtering

  lemma DistinctAppend(peers: seq<Endpoint>, p: Endpoint)
    requires Distinct(peers) && p !in peers
    ensures Distinct(peers + [p])
  {
  }

  lemma {:induction false} OthersExact(peers: seq<Endpoint>, from: Endpoint)
    ensures forall p :: p in Others(peers, from) <==> p in peers && p != from
    ensures |Others(peers, from)| <= |peers|
    ensures Distinct(peers) ==> Distinct(Others(peers, from))
  {
    if peers != [] {
      var n := |peers| - 1;
      OthersExact(peers[..n], from);
      if Distinct(peers) && peers[n] != from {
        DistinctAppend(Others(peers[..n], from), peers[n]);
      }
    }
  }

  lemma {:induction false} StillOpenMembers(peers: seq<Endpoint>, closed: set<nat>, p: Endpoint)
    ensures p in StillOpen(peers, closed) <==> p in peers && !(p.WebSocket? && p.channel in closed)
  {
    if peers != [] {
      var n := |peers| - 1;
      StillOpenMembers(peers[..n], closed, p);
      assert peers == peers[..n] + [peers[n]];
    }
  }

  lemma {:induction false} StillOpenDistinct(peers: seq<Endpoint>, closed: set<nat>)
    ensures |StillOpen(peers, closed)| <= |peers|
    ensures Distinct(peers) ==> Distinct(StillOpen(peers, closed))
  {
    if peers != [] {
      var n := |peers| - 1;
      StillOpenDistinct(peers[..n], closed);
      if Distinct(peers) {
        assert peers[n] !in peers[..n];
        StillOpenMembers(peers[..n], closed, peers[n]);
        DistinctAppend(StillOpen(peers[..n], closed), peers[n]);
      }
    }
  }

  lemma KeptOfNone(routes: map<u32, RouteEntry>, maxAge: nat, now: nat, closed: set<nat>)
    ensures KeptOf(routes, routes.Keys - routes.Keys, maxAge, now, closed) == map[]
  {
  }

  lemma KeptOfOneMore(
      routes: map<u32, RouteEntry>, among: set<u32>, s: u32, maxAge: nat, now: nat, closed: set<nat>)
    requires s in routes && s !in among
    ensures var e := routes[s].(peers := StillOpen(routes[s].peers, closed));
            var before := KeptOf(routes, among, maxAge, now, closed);
            && s !in before
            && KeptOf(routes, among + {s}, maxAge, now, closed)
               == if e.peers != [] && Since(now, e.lastActivity) < maxAge then before[s := e] else before
  {
  }

  // --------------------------------------------------------------------- the code

  class Router {
    const limits: Limits
    var routes: map<u32, RouteEntry>
    var gauge: nat

    function State(): Table
      reads this
    {
      Table(routes, gauge)
    }

    constructor (limits: Limits)
      ensures this.limits == limits && State() == Table(map[], 0)
      ensures GoodTable(limits, State())
    {
      this.limits := limits;
      routes, gauge := map[], 0;
    }

    method RouteDatagram(sid: u32, from: Endpoint, now: nat) returns (d: RouteDecision)
      modifies this
      ensures (State(), d) == Route(limits, old(State()), sid, from, now)
    {
      if sid == 0 {
        return Dropped;
      }
      if sid in routes {
        var entry := routes[sid].(lastActivity := now);
        routes := routes[sid := entry];
        var known := IsKnown(entry.peers, from);
        if known {
          var targets := OtherPeers(entry.peers, from);
          return if targets == [] then Registered else Broadcast(targets);
        }
        if |entry.peers| >= limits.maxPeers {
          return Dropped;
        }
        var existing := entry.peers;
        routes := routes[sid := entry.(peers := existing + [from])];
        assert routes == old(routes)[sid := entry.(peers := existing + [from])];
        return if existing == [] then Registered else Broadcast(existing);
      }
      if |routes| >= limits.maxSessions {
        return Dropped;
      }
      routes := routes[sid := RouteEntry([from], now, None, None)];
      gauge := |routes|;
      d := Registered;
    }

    static method IsKnown(peers: seq<Endpoint>, from: Endpoint) returns (known: bool)
      ensures known <==> from in peers
    {
      known := false;
      for i := 0 to |peers|
        invariant known <==> from in peers[..i]
      {
        known := known || Matches(peers[i], from);
      }
      assert peers[..|peers|] == peers;
    }

    static method OtherPeers(peers: seq<Endpoint>, from: Endpoint) returns (others: seq<Endpoint>)
      ensures others == Others(peers, from)
    {
      others := [];
      for i := 0 to |peers|
        invariant others == Others(peers[..i], from)
      {
        assert peers[..i + 1][..i] == peers[..i];
        if !Matches(peers[i], from) {
          others := others + [peers[i]];
        }
      }
      assert peers[..|peers|] == peers;
    }

    static method OpenPeers(peers: seq<Endpoint>, closed: set<nat>) returns (open: seq<Endpoint>)
      ensures open == StillOpen(peers, closed)
    {
      open := [];
      for i := 0 to |peers|
        invariant open == StillOpen(peers[..i], closed)
      {
        assert peers[..i + 1][..i] == peers[..i];
        if !(peers[i].WebSocket? && peers[i].channel in closed) {
          open := open + [peers[i]];
        }
      }
      assert peers[..|peers|] == peers;
    }

    method Evict(maxAgeSecs: nat, now: nat, closed: set<nat>) returns (removed: nat)
      modifies this
      ensures State() == EvictIdle(old(State()), maxAgeSecs, now, closed)
      ensures removed == old(|routes|) - |routes|
    {
      hide Keeps, KeptOf;
      var maxAge := maxAgeSecs * SECOND;
      var todo, kept: map<u32, RouteEntry> := routes.Keys, map[];
      removed := 0;
      KeptOfNone(routes, maxAge, now, closed);
      while todo != {}
        invariant todo <= routes.Keys && unchanged(this)
        invariant kept == KeptOf(routes, routes.Keys - todo, maxAge, now, closed)
        invariant removed + |kept| + |todo| == |routes|
        decreases todo
      {
        var sid :| sid in todo;
        KeptOfOneMore(routes, routes.Keys - todo, sid, maxAge, now, closed);
        assert routes.Keys - (todo - {sid}) == routes.Keys - todo + {sid};
        todo := todo - {sid};
        var entry := routes[sid];
        var open := OpenPeers(entry.peers, closed);
        entry := entry.(peers := open);
        if entry.peers != [] && Since(now, entry.lastActivity) < maxAge {
          kept := kept[sid := entry];
        } else {
          removed := removed + 1;
        }
      }
      assert routes.Keys - todo == routes.Keys;
      routes := kept;
      if removed > 0 {
        gauge := |routes|;
      }
    }

    /** `first` and `second` are read before and inside the automatic release, `third`
        decides, `stamp` is the grant time. The release happens only when the holder's
        time runs out between the first two readings, and the request is then granted. */
    method RequestFloor(sid: u32, from: SocketAddr, first: nat, second: nat, third: nat, stamp: nat)
      returns (d: FloorDecision, released: bool)
      requires first <= second <= third <= stamp
      modifies this
      ensures (State(), d) == FloorRequestAt(old(State()), sid, from, third, stamp)
      ensures released <==>
                && IsPeer(old(State()), sid, from)
                && var e := old(State()).routes[sid];
                   e.floorHolder.Some? && e.floorGrantedAt.Some?
                   && first <= e.floorGrantedAt.value + MAX_HOLD < second
      ensures released ==> d.Granted?
    {
      released := false;
      if sid !in routes {
        return Unknown, false;
      }
      var entry := routes[sid];
      var known := IsKnown(entry.peers, Udp(from));
      if !known {
        return Unknown, false;
      }
      if !FloorIsFree(entry, first) && entry.floorHolder.Some? && entry.floorGrantedAt.Some?
         && Since(second, entry.floorGrantedAt.value) > MAX_HOLD {
        entry := entry.(floorHolder := None, floorGrantedAt := None);
        released := true;
      }
      if !FloorIsFree(entry, third) {
        return Denied, released;
      }
      routes := routes[sid := entry.(floorHolder := Some(from), floorGrantedAt := Some(stamp))];
      var others := OtherPeers(entry.peers, Udp(from));
      d := Granted(others);
    }

    method ReleaseFloor(sid: u32, from: SocketAddr, now: nat) returns (d: FloorDecision)
      modifies this
      ensures (State(), d) == FloorRelease(old(State()), sid, from, now)
    {
      if sid !in routes {
        return Unknown;
      }
      var entry := routes[sid];
      if !(entry.floorHolder == Some(from) || FloorIsFree(entry, now)) {
        return Denied;
      }
      routes := routes[sid := entry.(floorHolder := None, floorGrantedAt := None)];
      var others := OtherPeers(entry.peers, Udp(from));
      d := Released(others);
    }
  }

  // -------------------------------------------------- every operation keeps it

  lemma RouteKeeps(limits: Limits, t: Table, sid: u32, from: Endpoint, now: nat)
    requires GoodTable(limits, t)
    ensures GoodTable(limits, Route(limits, t, sid, from, now).0)
  {
    hide GoodEntry;
    var t' := Route(limits, t, sid, from, now).0;
    if sid in t.routes && sid != 0 {
      HeardFrom(limits, t.routes[sid], from, now);
      assert t'.routes.Keys == t.routes.Keys;
      assert |t'.routes| == |t.routes.Keys|;
    } else if t' != t {
      FirstPeer(limits, from, now);
    }
  }

  lemma FirstPeer(limits: Limits, from: Endpoint, now: nat)
    ensures GoodEntry(limits, RouteEntry([from], now, None, None))
  {
  }

  lemma HeardFrom(limits: Limits, e: RouteEntry, from: Endpoint, now: nat)
    requires GoodEntry(limits, e)
    ensures GoodEntry(limits, e.(lastActivity := now))
    ensures from !in e.peers && |e.peers| < limits.maxPeers ==>
              GoodEntry(limits, e.(lastActivity := now, peers := e.peers + [from]))
  {
    if from !in e.peers {
      DistinctAppend(e.peers, from);
    }
    hide Distinct;
  }

  /** Who is in a session after one of its packets is routed. The sender gets in if it
      already was in, or there is room for it in the session, or for the session in the
      table; nobody else's place changes, and no other session does. */
  lemma RouteExact(limits: Limits, t: Table, sid: u32, from: Endpoint, now: nat)
    requires sid != 0
    ensures var (t', d) := Route(limits, t, sid, from, now);
            var fits := if sid in t.routes then from in t.routes[sid].peers || |t.routes[sid].peers| < limits.maxPeers
                        else |t.routes| < limits.maxSessions;
            && (IsMember(t', sid, from) <==> fits)
            && (forall p :: p != from ==> (IsMember(t', sid, p) <==> IsMember(t, sid, p)))
            && (forall s :: s != sid ==>
                  && (s in t'.routes <==> s in t.routes)
                  && (s in t.routes ==> t'.routes[s] == t.routes[s]))
            && (sid in t'.routes <==> sid in t.routes || fits)
            && (sid in t'.routes ==> t'.routes[sid].lastActivity == now)
            && (d.Dropped? <==> !fits)
            && (d.Registered? <==> fits && (sid in t.routes ==> forall p :: p in t.routes[sid].peers ==> p == from))
  {
    if sid in t.routes {
      var e := t.routes[sid];
      OthersExact(e.peers, from);
      NobodyElse(e.peers, from);
    }
  }

  ghost predicate IsMember(t: Table, sid: u32, p: Endpoint) {
    sid in t.routes && p in t.routes[sid].peers
  }

  lemma NobodyElse(peers: seq<Endpoint>, from: Endpoint)
    ensures Others(peers, from) == [] <==> forall p :: p in peers ==> p == from
  {
    OthersExact(peers, from);
    if Others(peers, from) != [] {
      assert Others(peers, from)[0] in Others(peers, from);
    }
  }

  /** What the collector leaves: exactly the sessions heard within the age that still
      have an open peer, with those peers in order and everything else as it was. */
  lemma EvictExact(t: Table, maxAgeSecs: nat, now: nat, closed: set<nat>, s: u32, p: Endpoint)
    ensures var t' := EvictIdle(t, maxAgeSecs, now, closed);
            var open := p.Udp? || p.channel !in closed;
            && (s in t'.routes <==>
                  && s in t.routes && Since(now, t.routes[s].lastActivity) < maxAgeSecs * SECOND
                  && exists q :: q in t.routes[s].peers && (q.Udp? || q.channel !in closed))
            && (IsMember(t', s, p) <==> s in t'.routes && IsMember(t, s, p) && open)
            && (s in t'.routes ==> t'.routes[s] == t.routes[s].(peers := t'.routes[s].peers))
  {
    if s in t.routes {
      var peers := t.routes[s].peers;
      StillOpenMembers(peers, closed, p);
      if q :| q in peers && (q.Udp? || q.channel !in closed) {
        StillOpenMembers(peers, closed, q);
      }
      if StillOpen(peers, closed) != [] {
        StillOpenMembers(peers, closed, StillOpen(peers, closed)[0]);
      }
    }
  }

  lemma EvictKeeps(limits: Limits, t: Table, maxAgeSecs: nat, now: nat, closed: set<nat>)
    requires GoodTable(limits, t)
    ensures GoodTable(limits, EvictIdle(t, maxAgeSecs, now, closed))
  {
    var t' := EvictIdle(t, maxAgeSecs, now, closed);
    SubsetSize(t'.routes.Keys, t.routes.Keys);
    forall s | s in t'.routes
      ensures GoodEntry(limits, t'.routes[s])
    {
      var e := t.routes[s];
      StillOpenDistinct(e.peers, closed);
      if e.floorHolder.Some? {
        StillOpenMembers(e.peers, closed, Udp(e.floorHolder.value));
      }
    }
  }

  lemma {:induction false} SubsetSize<T>(a: set<T>, b: set<T>)
    requires a <= b
    ensures |a| <= |b|
  {
    if a != {} {
      var x :| x in a;
      SubsetSize(a - {x}, b - {x});
    }
  }

  lemma FloorKeeps(limits: Limits, t: Table, sid: u32, from: SocketAddr, now: nat)
    requires GoodTable(limits, t)
    ensures GoodTable(limits, FloorRequest(t, sid, from, now).0)
    ensures GoodTable(limits, FloorRelease(t, sid, from, now).0)
  {
    hide Distinct, FloorIsFree, Others;
    if sid in t.routes {
      forall t' | t' == FloorRequest(t, sid, from, now).0 || t' == FloorRelease(t, sid, from, now).0
        ensures GoodTable(limits, t')
      {
        assert t'.routes.Keys == t.routes.Keys;
        assert |t'.routes| == |t.routes.Keys|;
      }
    }
  }
}
