/**
 The relay's session array and hashed route chains in place, tied to the single route list of
 `RelayRoutes`: each chain is that list restricted to its bucket, for any hash function.
 */
module RelayTable {
  import opened Words
  import opened RelayRoutes

  type Hash = U32 -> nat

  /** The routes of one bucket, in list order. */
  function InBucket(routes: seq<Route>, hash: Hash, b: nat): seq<Route>
    decreases |routes|
  {
    if routes == [] then []
    else if hash(routes[0].conn) == b then [routes[0]] + InBucket(routes[1..], hash, b)
    else InBucket(routes[1..], hash, b)
  }

  lemma {:induction false} FirstInBucket(routes: seq<Route>, hash: Hash, conn: U32)
    ensures First(InBucket(routes, hash, hash(conn)), conn) == First(routes, conn)
    decreases |routes|
  {
    if routes != [] {
      FirstInBucket(routes[1..], hash, conn);
      var b := hash(conn);
      if hash(routes[0].conn) == b {
        assert InBucket(routes, hash, b)[1..] == InBucket(routes[1..], hash, b);
      }
    }
  }

  lemma PushedInBucket(routes: seq<Route>, r: Route, hash: Hash, b: nat)
    ensures InBucket([r] + routes, hash, b) ==
      if hash(r.conn) == b then [r] + InBucket(routes, hash, b) else InBucket(routes, hash, b)
  {
    assert ([r] + routes)[1..] == routes;
  }

  /** Removing an identifier changes its own bucket only. */
  lemma {:induction false} PurgedInBucket(routes: seq<Route>, conn: U32, hash: Hash, b: nat)
    ensures InBucket(Purged(routes, conn), hash, b) ==
      if hash(conn) == b then Purged(InBucket(routes, hash, b), conn) else InBucket(routes, hash, b)
    decreases |routes|
  {
    if routes != [] {
      var r, rest := routes[0], routes[1..];
      PurgedInBucket(rest, conn, hash, b);
      if r.conn != conn { PushedInBucket(Purged(rest, conn), r, hash, b); }
      if hash(r.conn) == b { assert InBucket(routes, hash, b)[1..] == InBucket(rest, hash, b); }
    }
  }

  class Table {
    const sessions: array<Session>
    const buckets: array<seq<Route>>
    const hash: Hash
    var count: U32
    var total: U64
    /** All routes, newest first. */
    ghost var routes: seq<Route>

    ghost predicate ChainOk(b: nat)
      reads `routes, buckets
    {
      b < buckets.Length ==> buckets[b] == InBucket(routes, hash, b)
    }

    ghost predicate HashOk(conn: U32) { hash(conn) < buckets.Length }

    /** The chains hold the route list. */
    ghost predicate Chained()
      reads `routes, buckets
    {
      (forall b {:trigger ChainOk(b)} :: ChainOk(b)) && (forall conn {:trigger HashOk(conn)} :: HashOk(conn))
    }

    ghost function View(): Relay
      reads this, sessions
    {
      Relay(sessions[..], routes, count, total)
    }

    ghost predicate Valid()
      reads this, sessions, buckets
    {
      sessions.Length < 0x1_0000_0000 && Chained() && Consistent(View())
    }

    constructor (max: U32, bucketCount: nat, hash: Hash)
      requires forall conn {:trigger hash(conn)} :: hash(conn) < bucketCount
      ensures Valid() && LookupAgrees(View()) && fresh(sessions) && fresh(buckets)
      ensures sessions.Length == if max == 0 then 100000 else max
    {
      var n := if max == 0 then 100000 else max;
      sessions := new Session[n](_ => Session(0, 0, 0, 0, false));
      buckets := new seq<Route>[bucketCount](_ => []);
      this.hash := hash;
      count, total, routes := 0, 0, [];
      new;
      NoneActive(sessions[..]);
      forall conn ensures HashOk(conn) {
      }
      forall b: nat ensures ChainOk(b) {
      }
    }

    // ----- routes

    method AddRoute(conn: U32, slot: int, ingress: bool, memory: bool) returns (ok: bool)
      requires Chained()
      modifies `routes, buckets
      ensures Chained() && routes == Pushed(old(routes), Route(conn, slot, ingress), memory) && ok == memory
    {
      if !memory { return false; }
      var r := Route(conn, slot, ingress);
      assert HashOk(conn) && ChainOk(hash(conn));
      buckets[hash(conn)] := [r] + buckets[hash(conn)];
      routes := [r] + routes;
      forall b: nat ensures ChainOk(b) {
        assert old(ChainOk(b));
        PushedInBucket(old(routes), r, hash, b);
      }
      return true;
    }

    method Lookup(conn: U32) returns (found: Option<Route>)
      requires Chained()
      ensures found == First(routes, conn)
    {
      assert HashOk(conn) && ChainOk(hash(conn));
      FirstInBucket(routes, hash, conn);
      var chain := buckets[hash(conn)];
      while chain != []
        invariant First(chain, conn) == First(routes, conn)
        decreases |chain|
      {
        if chain[0].conn == conn { return Some(chain[0]); }
        chain := chain[1..];
      }
      return None;
    }

    method RemoveRoutes(conn: U32)
      requires Chained()
      modifies `routes, buckets
      ensures Chained() && routes == Purged(old(routes), conn)
    {
      assert HashOk(conn) && ChainOk(hash(conn));
      buckets[hash(conn)] := RemoveAll(buckets[hash(conn)], conn);
      routes := Purged(routes, conn);
      forall b: nat ensures ChainOk(b) {
        assert old(ChainOk(b));
        PurgedInBucket(old(routes), conn, hash, b);
      }
    }

    // ----- sessions

    method FindFree() returns (i: nat)
      ensures i == FirstFree(sessions[..], 0)
    {
      i := 0;
      while i < sessions.Length && sessions[i].active
        invariant 0 <= i <= sessions.Length && FirstFree(sessions[..], i) == FirstFree(sessions[..], 0)
      {
        i := i + 1;
      }
    }

    /** The identifier is 0 when creation is refused, and also when the total reaches a multiple of 2^32. */
    method CreateSession(ingress: U32, egress: U32, now: U64, memIn: bool, memOut: bool) returns (id: U32)
      requires Valid()
      modifies this, sessions, buckets
      ensures Valid() && View() == AfterCreate(old(View()), ingress, egress, now, memIn, memOut)
      ensures id == if Full(old(View())) then 0 else Wrap32(old(total) + 1)
    {
      CreateKeeps(View(), ingress, egress, now, memIn, memOut);
      if count >= sessions.Length { return 0; }
      var i := FindFree();
      if i == sessions.Length { return 0; }
      total := Wrap64(total + 1);
      IdWraps(old(total));
      id := Wrap32(total);
      sessions[i] := Session(id, ingress, egress, now, true);
      count := count + 1;
      var _ := AddRoute(ingress, i, true, memIn);
      var _ := AddRoute(egress, i, false, memOut);
    }

    method EndSession(i: nat)
      requires Valid() && i < sessions.Length && sessions[i].active
      modifies this, sessions, buckets
      ensures Valid() && View() == AfterEnd(old(View()), i)
    {
      EndKeeps(View(), i);
      RemoveRoutes(sessions[i].ingress);
      RemoveRoutes(sessions[i].egress);
      sessions[i] := sessions[i].(active := false);
      CountPositive(old(sessions[..]), i);
      count := count - 1;
    }

    method DestroySession(id: U32)
      requires Valid()
      modifies this, sessions, buckets
      ensures Valid() && View() == AfterDestroy(old(View()), id)
    {
      var i := 0;
      while i < sessions.Length
        invariant 0 <= i <= sessions.Length && Valid() && View() == old(View())
        invariant FirstWithId(sessions[..], id, i) == FirstWithId(sessions[..], id, 0)
      {
        if sessions[i].active && sessions[i].id == id {
          EndSession(i);
          return;
        }
        i := i + 1;
      }
    }

    method PurgeIdle(now: U64, timeout: U64) returns (purged: nat)
      requires Valid()
      modifies this, sessions, buckets
      ensures Valid() && View() == AfterPurge(old(View()), sessions.Length, now, timeout)
      ensures purged == old(count) - count
    {
      purged := 0;
      for i := 0 to sessions.Length
        invariant Valid() && View() == AfterPurge(old(View()), i, now, timeout)
        invariant purged == old(count) - count
      {
        if sessions[i].active && Wrap64(now - sessions[i].last) > timeout {
          EndSession(i);
          purged := purged + 1;
        }
      }
    }
  }

  // ----- helpers

  method RemoveAll(chain: seq<Route>, conn: U32) returns (kept: seq<Route>)
    ensures kept == Purged(chain, conn)
  {
    kept := [];
    for i := 0 to |chain|
      invariant kept + Purged(chain[i..], conn) == Purged(chain, conn)
    {
      assert chain[i..][1..] == chain[i + 1..];
      if chain[i].conn != conn { kept := kept + [chain[i]]; }
    }
  }

  lemma {:induction false} NoneActive(sessions: seq<Session>)
    requires forall i {:trigger sessions[i]} :: 0 <= i < |sessions| ==> !sessions[i].active
    ensures ActiveIn(sessions) == 0
    decreases |sessions|
  {
    if sessions != [] { NoneActive(sessions[..|sessions| - 1]); }
  }

  lemma CountPositive(sessions: seq<Session>, i: nat)
    requires i < |sessions| && sessions[i].active
    ensures ActiveIn(sessions) > 0
  {
    ActiveUpdate(sessions, i, sessions[i].(active := false));
  }

  lemma IdWraps(total: int)
    ensures Wrap32(Wrap64(total + 1)) == Wrap32(total + 1)
  {
  }
}
