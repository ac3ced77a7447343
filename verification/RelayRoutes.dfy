/**
 The relay's sessions and routes: two routes per session, one for each side, in one list with the newest
 first. Slots of the session array are reused.
 */
module RelayRoutes {
  import opened Words

  datatype Session = Session(id: U32, ingress: U32, egress: U32, last: U64, active: bool)

  datatype Route = Route(conn: U32, slot: int, ingress: bool)

  datatype Relay = Relay(sessions: seq<Session>, routes: seq<Route>, count: int, total: U64)

  function Side(e: Session, ingress: bool): U32 { if ingress then e.ingress else e.egress }

  // ----- route lists

  function First(routes: seq<Route>, conn: U32): Option<Route>
    decreases |routes|
  {
    if routes == [] then None else if routes[0].conn == conn then Some(routes[0]) else First(routes[1..], conn)
  }

  function Purged(routes: seq<Route>, conn: U32): seq<Route>
    decreases |routes|
  {
    if routes == [] then []
    else if routes[0].conn == conn then Purged(routes[1..], conn)
    else [routes[0]] + Purged(routes[1..], conn)
  }

  function Pushed(routes: seq<Route>, r: Route, memory: bool): seq<Route> {
    if memory then [r] + routes else routes
  }

  lemma {:induction false} PurgedMembers(routes: seq<Route>, conn: U32)
    ensures forall r {:trigger r in Purged(routes, conn)} ::
      r in Purged(routes, conn) <==> r in routes && r.conn != conn
    decreases |routes|
  {
    if routes != [] {
      PurgedMembers(routes[1..], conn);
      assert forall r :: r in routes <==> r == routes[0] || r in routes[1..];
    }
  }

  lemma {:induction false} FirstMatches(routes: seq<Route>, conn: U32)
    ensures First(routes, conn).Some? ==> First(routes, conn).value in routes && First(routes, conn).value.conn == conn
    ensures First(routes, conn).None? ==> forall r {:trigger r in routes} :: r in routes ==> r.conn != conn
    decreases |routes|
  {
    if routes != [] {
      FirstMatches(routes[1..], conn);
      assert forall r :: r in routes <==> r == routes[0] || r in routes[1..];
    }
  }

  // ----- operations

  function FirstFree(sessions: seq<Session>, i: nat): (s: nat)
    requires i <= |sessions|
    ensures i <= s <= |sessions| && (s < |sessions| ==> !sessions[s].active)
    decreases |sessions| - i
  {
    if i == |sessions| || !sessions[i].active then i else FirstFree(sessions, i + 1)
  }

  function FirstWithId(sessions: seq<Session>, id: U32, i: nat): (s: nat)
    requires i <= |sessions|
    ensures i <= s <= |sessions| && (s < |sessions| ==> sessions[s].active && sessions[s].id == id)
    decreases |sessions| - i
  {
    if i == |sessions| || (sessions[i].active && sessions[i].id == id) then i else FirstWithId(sessions, id, i + 1)
  }

  predicate Full(s: Relay) { s.count >= |s.sessions| || FirstFree(s.sessions, 0) == |s.sessions| }

  function AfterCreate(s: Relay, ingress: U32, egress: U32, now: U64, memIn: bool, memOut: bool): Relay {
    if Full(s) then s
    else
      var i, total := FirstFree(s.sessions, 0), Wrap64(s.total + 1);
      var routes := Pushed(s.routes, Route(ingress, i, true), memIn);
      Relay(s.sessions[i := Session(Wrap32(total), ingress, egress, now, true)],
            Pushed(routes, Route(egress, i, false), memOut), s.count + 1, total)
  }

  /** Ends the session in slot `i` and removes every route of its two identifiers. */
  function AfterEnd(s: Relay, i: nat): Relay
    requires i < |s.sessions|
  {
    var e := s.sessions[i];
    s.(routes := Purged(Purged(s.routes, e.ingress), e.egress), sessions := s.sessions[i := e.(active := false)],
       count := s.count - 1)
  }

  function AfterDestroy(s: Relay, id: U32): Relay {
    var i := FirstWithId(s.sessions, id, 0);
    if i == |s.sessions| then s else AfterEnd(s, i)
  }

  predicate Idle(e: Session, now: U64, timeout: U64) { e.active && Wrap64(now - e.last) > timeout }

  function AfterVisit(s: Relay, i: nat, now: U64, timeout: U64): Relay
    requires i < |s.sessions|
  {
    if Idle(s.sessions[i], now, timeout) then AfterEnd(s, i) else s
  }

  /** The first `n` slots have been visited. */
  function AfterPurge(s: Relay, n: nat, now: U64, timeout: U64): (r: Relay)
    requires n <= |s.sessions|
    ensures |r.sessions| == |s.sessions|
  {
    if n == 0 then s else AfterVisit(AfterPurge(s, n - 1, now, timeout), n - 1, now, timeout)
  }

  function AfterForward(s: Relay, i: nat, now: U64): Relay
    requires i < |s.sessions|
  {
    s.(sessions := s.sessions[i := s.sessions[i].(last := now)])
  }

  // ----- every route leads to an active session

  function ActiveIn(sessions: seq<Session>): (n: nat)
    ensures n <= |sessions|
    decreases |sessions|
  {
    if sessions == [] then 0
    else ActiveIn(sessions[..|sessions| - 1]) + if sessions[|sessions| - 1].active then 1 else 0
  }

  predicate RouteOk(s: Relay, r: Route) {
    0 <= r.slot < |s.sessions| && s.sessions[r.slot].active && Side(s.sessions[r.slot], r.ingress) == r.conn
  }

  ghost predicate RoutesOk(s: Relay) {
    forall r {:trigger r in s.routes} :: r in s.routes ==> RouteOk(s, r)
  }

  ghost predicate Consistent(s: Relay) { RoutesOk(s) && s.count == ActiveIn(s.sessions) }

  lemma {:induction false} ActiveUpdate(sessions: seq<Session>, i: nat, e: Session)
    requires i < |sessions|
    ensures ActiveIn(sessions[i := e]) ==
      ActiveIn(sessions) - (if sessions[i].active then 1 else 0) + (if e.active then 1 else 0)
    decreases |sessions|
  {
    var n := |sessions| - 1;
    if i < n {
      ActiveUpdate(sessions[..n], i, e);
      assert sessions[i := e][..n] == sessions[..n][i := e];
    } else {
      assert sessions[i := e][..n] == sessions[..n];
    }
  }

  lemma {:induction false} AllActive(sessions: seq<Session>)
    requires FirstFree(sessions, 0) == |sessions|
    ensures ActiveIn(sessions) == |sessions|
  {
    AllActiveTo(sessions, |sessions|);
    assert sessions[..|sessions|] == sessions;
  }

  lemma {:induction false} AllActiveTo(sessions: seq<Session>, n: nat)
    requires n <= |sessions| && FirstFree(sessions, 0) == |sessions|
    ensures ActiveIn(sessions[..n]) == n
    decreases n
  {
    if n > 0 {
      AllActiveTo(sessions, n - 1);
      BeforeFirstFree(sessions, 0, n - 1);
      assert sessions[..n][..n - 1] == sessions[..n - 1];
    }
  }

  lemma {:induction false} BeforeFirstFree(sessions: seq<Session>, i: nat, k: nat)
    requires i <= |sessions| && i <= k < FirstFree(sessions, i)
    ensures sessions[k].active
    decreases |sessions| - i
  {
    if i < k { BeforeFirstFree(sessions, i + 1, k); }
  }

  /** The counter alone decides whether a slot is free. */
  lemma FullExactly(s: Relay)
    requires Consistent(s)
    ensures Full(s) <==> s.count == |s.sessions|
  {
    if FirstFree(s.sessions, 0) == |s.sessions| { AllActive(s.sessions); }
  }

  lemma CreateKeeps(s: Relay, ingress: U32, egress: U32, now: U64, memIn: bool, memOut: bool)
    requires Consistent(s)
    ensures Consistent(AfterCreate(s, ingress, egress, now, memIn, memOut))
  {
    if !Full(s) {
      var s' := AfterCreate(s, ingress, egress, now, memIn, memOut);
      var i := FirstFree(s.sessions, 0);
      ActiveUpdate(s.sessions, i, s'.sessions[i]);
      forall r {:trigger r in s'.routes} | r in s'.routes ensures RouteOk(s', r) {
        assert r == Route(ingress, i, true) || r == Route(egress, i, false) || r in s.routes;
      }
    }
  }

  lemma EndKeeps(s: Relay, i: nat)
    requires Consistent(s) && i < |s.sessions| && s.sessions[i].active
    ensures Consistent(AfterEnd(s, i))
  {
    var s', e := AfterEnd(s, i), s.sessions[i];
    ActiveUpdate(s.sessions, i, s'.sessions[i]);
    PurgedMembers(s.routes, e.ingress);
    PurgedMembers(Purged(s.routes, e.ingress), e.egress);
    forall r {:trigger r in s'.routes} | r in s'.routes ensures RouteOk(s', r) {
      assert r in s.routes;
    }
  }

  lemma {:induction false} PurgeKeeps(s: Relay, n: nat, now: U64, timeout: U64)
    requires Consistent(s) && n <= |s.sessions|
    ensures Consistent(AfterPurge(s, n, now, timeout))
    decreases n
  {
    if n > 0 {
      PurgeKeeps(s, n - 1, now, timeout);
      var p := AfterPurge(s, n - 1, now, timeout);
      if p.sessions[n - 1].active { EndKeeps(p, n - 1); }
    }
  }

  lemma ForwardKeeps(s: Relay, i: nat, now: U64)
    requires Consistent(s) && i < |s.sessions|
    ensures Consistent(AfterForward(s, i, now))
  {
    var s' := AfterForward(s, i, now);
    ActiveUpdate(s.sessions, i, s'.sessions[i]);
    forall r {:trigger r in s'.routes} | r in s'.routes ensures RouteOk(s', r) {
      assert RouteOk(s, r);
    }
  }

  /** Purging ends exactly the sessions idle for longer than the timeout. */
  lemma {:induction false} PurgeExact(s: Relay, n: nat, now: U64, timeout: U64)
    requires n <= |s.sessions|
    ensures forall i {:trigger s.sessions[i]} :: 0 <= i < |s.sessions| ==>
      AfterPurge(s, n, now, timeout).sessions[i] ==
      if i < n && s.sessions[i].active && Wrap64(now - s.sessions[i].last) > timeout
      then s.sessions[i].(active := false) else s.sessions[i]
    decreases n
  {
    if n > 0 { PurgeExact(s, n - 1, now, timeout); }
  }

  // ----- lookup as a map of both directions

  /** `c` is the identifier of side `ingress` of the active session in slot `i`. */
  predicate Uses(s: Relay, i: int, ingress: bool, c: U32) {
    0 <= i < |s.sessions| && s.sessions[i].active && Side(s.sessions[i], ingress) == c
  }

  /** Each side of each active session is found under its own identifier. */
  ghost predicate FindsOwn(s: Relay) {
    forall i, a, c {:trigger Uses(s, i, a, c)} :: Uses(s, i, a, c) ==> First(s.routes, c) == Some(Route(c, i, a))
  }

  /** Whatever is found belongs to an active session that uses the identifier. */
  ghost predicate FindsNothingElse(s: Relay) {
    forall c {:trigger First(s.routes, c)} :: First(s.routes, c).Some? ==>
      var r := First(s.routes, c).value;
      r.conn == c && Uses(s, r.slot, r.ingress, c)
  }

  /** What a caller of lookup can observe: every identifier in use finds its own session and side, no other anything. */
  ghost predicate LookupAgrees(s: Relay) { FindsOwn(s) && FindsNothingElse(s) }

  lemma ConsistentFinds(s: Relay)
    requires RoutesOk(s)
    ensures FindsNothingElse(s)
  {
    forall c {:trigger First(s.routes, c)} | First(s.routes, c).Some?
      ensures var r := First(s.routes, c).value; r.conn == c && Uses(s, r.slot, r.ingress, c)
    {
      FirstMatches(s.routes, c);
      assert RouteOk(s, First(s.routes, c).value);
    }
  }

  /** Both directions of the active sessions among the first `n` slots. */
  function Directions(sessions: seq<Session>, n: nat): map<U32, Route>
    requires n <= |sessions|
  {
    if n == 0 then map[]
    else
      var m, e := Directions(sessions, n - 1), sessions[n - 1];
      if e.active then m[e.ingress := Route(e.ingress, n - 1, true)][e.egress := Route(e.egress, n - 1, false)] else m
  }

  lemma {:induction false} DirectionsExact(s: Relay, n: nat, c: U32)
    requires FindsOwn(s) && n <= |s.sessions|
    ensures c in Directions(s.sessions, n) ==>
      var r := Directions(s.sessions, n)[c]; 0 <= r.slot < n && r.conn == c && Uses(s, r.slot, r.ingress, c)
    ensures forall i, a {:trigger Uses(s, i, a, c)} :: Uses(s, i, a, c) && i < n ==>
      c in Directions(s.sessions, n) && Directions(s.sessions, n)[c] == Route(c, i, a)
    decreases n
  {
    if n > 0 {
      DirectionsExact(s, n - 1, c);
      var e := s.sessions[n - 1];
      if e.active {
        assert Uses(s, n - 1, true, e.ingress) && Uses(s, n - 1, false, e.egress);
      }
      forall i, a {:trigger Uses(s, i, a, c)} | Uses(s, i, a, c) && i < n
        ensures c in Directions(s.sessions, n) && Directions(s.sessions, n)[c] == Route(c, i, a)
      {
        assert First(s.routes, c) == Some(Route(c, i, a));
      }
    }
  }

  /** Where lookup agrees it is the map of both directions. */
  lemma LookupIsMap(s: Relay, c: U32)
    requires LookupAgrees(s)
    ensures
      var m := Directions(s.sessions, |s.sessions|);
      First(s.routes, c) == if c in m then Some(m[c]) else None
  {
    var m := Directions(s.sessions, |s.sessions|);
    DirectionsExact(s, |s.sessions|, c);
    var found := First(s.routes, c);
    if found.Some? {
      assert Uses(s, found.value.slot, found.value.ingress, c);
    } else if c in m {
      assert Uses(s, m[c].slot, m[c].ingress, c);
    }
  }

  /** Known before a creation: two different identifiers that no active session uses. */
  ghost predicate FreshIds(s: Relay, ingress: U32, egress: U32) {
    ingress != egress &&
    forall i, a {:trigger Uses(s, i, a, ingress)} {:trigger Uses(s, i, a, egress)} ::
      !Uses(s, i, a, ingress) && !Uses(s, i, a, egress)
  }

  lemma UsesAfterCreate(s: Relay, s': Relay, k: nat, ingress: U32, egress: U32)
    requires k < |s.sessions| && !s.sessions[k].active && |s'.sessions| == |s.sessions|
    requires s'.sessions == s.sessions[k := s'.sessions[k]] && s'.sessions[k].active
    requires s'.sessions[k].ingress == ingress && s'.sessions[k].egress == egress
    ensures forall i, a, c {:trigger Uses(s', i, a, c)} {:trigger Uses(s, i, a, c)} ::
      Uses(s', i, a, c) <==> Uses(s, i, a, c) || (i == k && c == if a then ingress else egress)
  {
  }

  /** Lookup in a list with a new first route. */
  lemma FirstPushed(routes: seq<Route>, r: Route, memory: bool, c: U32)
    ensures First(Pushed(routes, r, memory), c) == if memory && r.conn == c then Some(r) else First(routes, c)
  {
    assert ([r] + routes)[1..] == routes;
  }

  /** What lookup finds after a creation. */
  lemma FirstAfterCreate(s: Relay, ingress: U32, egress: U32, now: U64, memIn: bool, memOut: bool, c: U32)
    requires !Full(s)
    ensures var k := FirstFree(s.sessions, 0);
      First(AfterCreate(s, ingress, egress, now, memIn, memOut).routes, c) ==
        if memOut && egress == c then Some(Route(c, k, false))
        else if memIn && ingress == c then Some(Route(c, k, true))
        else First(s.routes, c)
  {
    var k := FirstFree(s.sessions, 0);
    var routes := Pushed(s.routes, Route(ingress, k, true), memIn);
    FirstPushed(s.routes, Route(ingress, k, true), memIn, c);
    FirstPushed(routes, Route(egress, k, false), memOut, c);
  }

  /**
   A creation keeps lookup in agreement with the sessions exactly when it is refused, or its identifiers
   are new and different and there is memory for both routes.
   */
  lemma CreateAgreesIff(s: Relay, ingress: U32, egress: U32, now: U64, memIn: bool, memOut: bool)
    requires Consistent(s) && LookupAgrees(s)
    ensures LookupAgrees(AfterCreate(s, ingress, egress, now, memIn, memOut)) <==>
      Full(s) || (FreshIds(s, ingress, egress) && memIn && memOut)
  {
    if !Full(s) {
      var s' := AfterCreate(s, ingress, egress, now, memIn, memOut);
      CreateKeeps(s, ingress, egress, now, memIn, memOut);
      ConsistentFinds(s');
      if FreshIds(s, ingress, egress) && memIn && memOut {
        CreatedFindsOwn(s, ingress, egress, now);
      } else if FindsOwn(s') {
        CreatedNeedsFresh(s, ingress, egress, now, memIn, memOut);
      }
    }
  }

  lemma CreatedFindsOwn(s: Relay, ingress: U32, egress: U32, now: U64)
    requires FindsOwn(s) && !Full(s) && FreshIds(s, ingress, egress)
    ensures FindsOwn(AfterCreate(s, ingress, egress, now, true, true))
  {
    var s' := AfterCreate(s, ingress, egress, now, true, true);
    UsesAfterCreate(s, s', FirstFree(s.sessions, 0), ingress, egress);
    forall i, a, c {:trigger Uses(s', i, a, c)} | Uses(s', i, a, c)
      ensures First(s'.routes, c) == Some(Route(c, i, a))
    {
      FirstAfterCreate(s, ingress, egress, now, true, true, c);
      assert c == ingress ==> !Uses(s, i, a, ingress);
      assert c == egress ==> !Uses(s, i, a, egress);
    }
  }

  /** Where every identifier finds its own side after a creation, they were new and both routes were stored. */
  lemma CreatedNeedsFresh(s: Relay, ingress: U32, egress: U32, now: U64, memIn: bool, memOut: bool)
    requires Consistent(s) && !Full(s) && FindsOwn(AfterCreate(s, ingress, egress, now, memIn, memOut))
    ensures FreshIds(s, ingress, egress) && memIn && memOut
  {
    var s' := AfterCreate(s, ingress, egress, now, memIn, memOut);
    var k := FirstFree(s.sessions, 0);
    assert Uses(s', k, true, ingress) && Uses(s', k, false, egress);
    UsesAfterCreate(s, s', k, ingress, egress);
    FirstAfterCreate(s, ingress, egress, now, memIn, memOut, ingress);
    FirstAfterCreate(s, ingress, egress, now, memIn, memOut, egress);
    NotFoundInSlot(s, k, ingress);
    NotFoundInSlot(s, k, egress);
    forall i, a {:trigger Uses(s, i, a, ingress)} {:trigger Uses(s, i, a, egress)}
      ensures !Uses(s, i, a, ingress) && !Uses(s, i, a, egress)
    {
      assert Uses(s, i, a, ingress) ==> i != k && Uses(s', i, a, ingress);
      assert Uses(s, i, a, egress) ==> i != k && Uses(s', i, a, egress);
    }
  }

  /** No route leads to a free slot. */
  lemma NotFoundInSlot(s: Relay, k: nat, c: U32)
    requires RoutesOk(s) && k < |s.sessions| && !s.sessions[k].active
    ensures First(s.routes, c).Some? ==> First(s.routes, c).value.slot != k
  {
    FirstMatches(s.routes, c);
    if First(s.routes, c).Some? { assert RouteOk(s, First(s.routes, c).value); }
  }

  lemma {:induction false} FirstPurged(routes: seq<Route>, conn: U32, c: U32)
    ensures First(Purged(routes, conn), c) == if c == conn then None else First(routes, c)
    decreases |routes|
  {
    if routes != [] {
      FirstPurged(routes[1..], conn, c);
      if routes[0].conn != conn {
        assert Purged(routes, conn)[1..] == Purged(routes[1..], conn);
      }
    }
  }

  lemma EndAgrees(s: Relay, i: nat)
    requires Consistent(s) && LookupAgrees(s) && i < |s.sessions| && s.sessions[i].active
    ensures LookupAgrees(AfterEnd(s, i))
  {
    EndKeeps(s, i);
    var s', e := AfterEnd(s, i), s.sessions[i];
    ConsistentFinds(s');
    assert Uses(s, i, true, e.ingress) && Uses(s, i, false, e.egress);
    forall j, a, c {:trigger Uses(s', j, a, c)} | Uses(s', j, a, c)
      ensures First(s'.routes, c) == Some(Route(c, j, a))
    {
      assert j != i && Uses(s, j, a, c);
      FirstAfterEnd(s, i, c);
    }
  }

  predicate IsSide(e: Session, c: U32) { c == e.ingress || c == e.egress }

  /** Ending a session makes its two identifiers find nothing, whoever else uses them, and changes no other. */
  lemma FirstAfterEnd(s: Relay, i: nat, c: U32)
    requires i < |s.sessions|
    ensures First(AfterEnd(s, i).routes, c) == if IsSide(s.sessions[i], c) then None else First(s.routes, c)
  {
    var e := s.sessions[i];
    FirstPurged(s.routes, e.ingress, c);
    FirstPurged(Purged(s.routes, e.ingress), e.egress, c);
  }

  /** The other active sessions find after the end of session `i` what they found before it. */
  ghost predicate OthersUndisturbed(s: Relay, i: nat)
    requires i < |s.sessions|
  {
    forall j, a, c {:trigger Uses(s, j, a, c)} :: Uses(s, j, a, c) && j != i ==>
      First(AfterEnd(s, i).routes, c) == First(s.routes, c)
  }

  /** Known before the end: no other active session uses one of its identifiers with a route stored for it. */
  ghost predicate SharesNoRoute(s: Relay, i: nat)
    requires i < |s.sessions|
  {
    forall j, a, c {:trigger Uses(s, j, a, c)} :: Uses(s, j, a, c) && j != i && IsSide(s.sessions[i], c) ==>
      First(s.routes, c).None?
  }

  lemma EndUndisturbedIff(s: Relay, i: nat)
    requires i < |s.sessions|
    ensures OthersUndisturbed(s, i) <==> SharesNoRoute(s, i)
  {
    forall j, a, c {:trigger Uses(s, j, a, c)} | Uses(s, j, a, c) && j != i
      ensures First(AfterEnd(s, i).routes, c) == First(s.routes, c) <==>
        (IsSide(s.sessions[i], c) ==> First(s.routes, c).None?)
    {
      FirstAfterEnd(s, i, c);
    }
  }

  /** Two sessions with one identifier in common: ending the older leaves the newer one active and not found by it. */
  lemma SharedIdentifierLost(s: Relay, a: U32, b: U32, c: U32, now: U64)
    requires !Full(s) && !Full(AfterCreate(s, a, b, now, true, true)) && c != a
    ensures var k := FirstFree(s.sessions, 0);
      var t := AfterCreate(AfterCreate(s, a, b, now, true, true), a, c, now, true, true);
      var m := FirstFree(AfterCreate(s, a, b, now, true, true).sessions, 0);
      k < |t.sessions| && k != m && Uses(t, k, true, a) && Uses(t, m, true, a) &&
      First(t.routes, a) == Some(Route(a, m, true)) &&
      Uses(AfterEnd(t, k), m, true, a) && First(AfterEnd(t, k).routes, a) == None
  {
    var s1 := AfterCreate(s, a, b, now, true, true);
    var t := AfterCreate(s1, a, c, now, true, true);
    FirstAfterCreate(s1, a, c, now, true, true, a);
    FirstAfterEnd(t, FirstFree(s.sessions, 0), a);
  }

  lemma {:induction false} PurgeAgrees(s: Relay, n: nat, now: U64, timeout: U64)
    requires Consistent(s) && LookupAgrees(s) && n <= |s.sessions|
    ensures Consistent(AfterPurge(s, n, now, timeout)) && LookupAgrees(AfterPurge(s, n, now, timeout))
    decreases n
  {
    if n > 0 {
      PurgeAgrees(s, n - 1, now, timeout);
      var p := AfterPurge(s, n - 1, now, timeout);
      if p.sessions[n - 1].active {
        EndKeeps(p, n - 1);
        EndAgrees(p, n - 1);
      }
    }
  }

  lemma ForwardAgrees(s: Relay, i: nat, now: U64)
    requires Consistent(s) && LookupAgrees(s) && i < |s.sessions|
    ensures LookupAgrees(AfterForward(s, i, now))
  {
    ForwardKeeps(s, i, now);
    var s' := AfterForward(s, i, now);
    ConsistentFinds(s');
    forall j, a, c {:trigger Uses(s', j, a, c)} | Uses(s', j, a, c)
      ensures First(s'.routes, c) == Some(Route(c, j, a))
    {
      assert Uses(s, j, a, c);
    }
  }

  // ----- runs

  datatype Op =
    | Create(ingress: U32, egress: U32, now: U64, memIn: bool, memOut: bool)
    | Destroy(id: U32)
    | Purge(now: U64, timeout: U64)
    | Forward(slot: nat, now: U64)

  function Step(s: Relay, op: Op): Relay {
    match op
    case Create(i, e, now, memIn, memOut) => AfterCreate(s, i, e, now, memIn, memOut)
    case Destroy(id) => AfterDestroy(s, id)
    case Purge(now, timeout) => AfterPurge(s, |s.sessions|, now, timeout)
    case Forward(slot, now) => if slot < |s.sessions| then AfterForward(s, slot, now) else s
  }

  function Run(s: Relay, ops: seq<Op>): Relay
    decreases |ops|
  {
    if ops == [] then s else Run(Step(s, ops[0]), ops[1..])
  }

  lemma StepConsistent(s: Relay, op: Op)
    requires Consistent(s)
    ensures Consistent(Step(s, op))
  {
    match op
    case Create(i, e, now, memIn, memOut) => CreateKeeps(s, i, e, now, memIn, memOut);
    case Destroy(id) =>
      var i := FirstWithId(s.sessions, id, 0);
      if i < |s.sessions| { EndKeeps(s, i); }
    case Purge(now, timeout) => PurgeKeeps(s, |s.sessions|, now, timeout);
    case Forward(slot, now) => if slot < |s.sessions| { ForwardKeeps(s, slot, now); }
  }

  /** Whatever happens, every route leads to an active session and the counter counts them. */
  lemma {:induction false} RunConsistent(s: Relay, ops: seq<Op>)
    requires Consistent(s)
    ensures Consistent(Run(s, ops))
    decreases |ops|
  {
    if ops != [] {
      StepConsistent(s, ops[0]);
      RunConsistent(Step(s, ops[0]), ops[1..]);
    }
  }

  /** Every creation that is not refused finds memory and brings new identifiers. */
  ghost predicate Orderly(s: Relay, ops: seq<Op>)
    decreases |ops|
  {
    ops == [] ||
    ((ops[0].Create? && !Full(s) ==> FreshIds(s, ops[0].ingress, ops[0].egress) && ops[0].memIn && ops[0].memOut) &&
     Orderly(Step(s, ops[0]), ops[1..]))
  }

  lemma StepAgrees(s: Relay, op: Op)
    requires Consistent(s) && LookupAgrees(s)
    requires op.Create? && !Full(s) ==> FreshIds(s, op.ingress, op.egress) && op.memIn && op.memOut
    ensures LookupAgrees(Step(s, op))
  {
    match op
    case Create(i, e, now, memIn, memOut) => CreateAgreesIff(s, i, e, now, memIn, memOut);
    case Destroy(id) =>
      var i := FirstWithId(s.sessions, id, 0);
      if i < |s.sessions| { EndAgrees(s, i); }
    case Purge(now, timeout) => PurgeAgrees(s, |s.sessions|, now, timeout);
    case Forward(slot, now) => if slot < |s.sessions| { ForwardAgrees(s, slot, now); }
  }

  /** After an orderly run lookup agrees with the map of both directions of the active sessions. */
  lemma {:induction false} RunMapped(s: Relay, ops: seq<Op>, c: U32)
    requires Consistent(s) && LookupAgrees(s) && Orderly(s, ops)
    ensures
      var e := Run(s, ops);
      var m := Directions(e.sessions, |e.sessions|);
      First(e.routes, c) == if c in m then Some(m[c]) else None
    decreases |ops|
  {
    if ops == [] {
      LookupIsMap(s, c);
    } else {
      StepConsistent(s, ops[0]);
      StepAgrees(s, ops[0]);
      RunMapped(Step(s, ops[0]), ops[1..], c);
    }
  }
}
