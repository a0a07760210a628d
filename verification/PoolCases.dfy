/** Runs of the VM pool that end where one would not expect. */
module PoolCases {
  import opened Options
  import opened Network
  import opened Pool

  function Always(mac: string, domain: int): Attempt {
    Attempt(seq(RETRIES, _ => mac), Some(domain), "", 0)
  }

  lemma AlwaysDrawn(table: map<string, string>, mac: string, domain: int)
    requires mac in table
    ensures Drawn(table, Always(mac, domain))
  {
    forall m | m in Always(mac, domain).picks ensures m == mac {
    }
  }

  /** The one address a guest of such an attempt can have. */
  lemma AlwaysAddress(g: Guest, table: map<string, string>, mac: string, domain: int, serial: nat)
    requires mac in table && Drawn(table, Always(mac, domain)) && NewGuest(g, table, Always(mac, domain), serial)
    ensures g.guestIp == table[mac] && g.serial == serial && g.id == serial % ID_LIMIT && g.state == Created
  {
    var a := Always(mac, domain);
    var j :| 0 <= j < RETRIES && g.guestIp == table[a.picks[j]];
  }

  /** A new pool that is not shared, up to the refill. */
  method Cleared(maxVm: nat) returns (pool: PoolService)
    ensures fresh(pool) && pool.Valid() && pool.guests == [] && pool.phase == Phase.Cleared
    ensures pool.config == Config(maxVm, 600, false) && pool.isolated && pool.owed == multiset{} && pool.made == 0
  {
    hide PoolService.ListOk, PoolService.AllOk;
    pool := new PoolService();
    pool.SetConfigs(maxVm, 600, false);
    var sweep := pool.BeginLoop();
    pool.CheckHealth({});
    pool.RemoveDestroyed();
  }

  function OneEach(order: seq<string>): (r: seq<Attempt>)
    ensures |r| == |order|
  {
    seq(|order|, i requires 0 <= i < |order| => Always(order[i], i))
  }

  /** The first refill of such a pool, with one guest for each MAC of the table. */
  method Refilled(table: map<string, string>, order: seq<string>) returns (pool: PoolService)
    requires Network.Filled(table, order)
    ensures fresh(pool) && pool.Valid() && pool.phase == Phase.Filled && |pool.guests| == |order|
    ensures pool.config == Config(|order|, 600, false) && pool.isolated && pool.owed == multiset{}
    ensures forall k | 0 <= k < |order| ::
      var g := pool.guests[k];
      fresh(g) && g.state == Created && g.guestIp == Address(k + 2) && g.serial == k && g.id == k % ID_LIMIT
  {
    hide PoolService.Valid, Drawn, Always, NewGuest, OneEach, Network.Filled;
    pool := Cleared(|order|);
    EachDrawn(table, order);
    var ok := pool.CreateGuests(table, OneEach(order));
    EachSucceeds(pool, table, order, ok);
    forall k | 0 <= k < |order| ensures
      var g := pool.guests[k];
      fresh(g) && g.state == Created && g.guestIp == Address(k + 2) && g.serial == k && g.id == k % ID_LIMIT
    {
      EachAddress(table, order, pool.guests, k);
    }
  }

  lemma EachDrawn(table: map<string, string>, order: seq<string>)
    requires Network.Filled(table, order)
    ensures forall a | a in OneEach(order) :: Drawn(table, a)
  {
    forall a | a in OneEach(order) ensures Drawn(table, a) {
      var i :| 0 <= i < |order| && a == Always(order[i], i);
      assert order[i] in order;
      AlwaysDrawn(table, order[i], i);
    }
  }

  lemma EachAddress(table: map<string, string>, order: seq<string>, gs: seq<Guest>, k: nat)
    requires Network.Filled(table, order) && k < |gs| <= |order|
    requires Drawn(table, OneEach(order)[k]) && NewGuest(gs[k], table, OneEach(order)[k], k)
    ensures gs[k].guestIp == Address(k + 2) && gs[k].serial == k && gs[k].id == k % ID_LIMIT && gs[k].state == Created
  {
    assert OneEach(order)[k] == Always(order[k], k) && order[k] in order;
    AlwaysAddress(gs[k], table, order[k], k, k);
  }

  lemma EachSucceeds(pool: PoolService, table: map<string, string>, order: seq<string>, ok: bool)
    requires Network.Filled(table, order) && |pool.guests| <= |order|
    requires forall a | a in OneEach(order) :: Drawn(table, a)
    requires forall k | 0 <= k < |pool.guests| :: NewGuest(pool.guests[k], table, OneEach(order)[k], k)
    requires !ok ==> |pool.guests| < |order| && pool.Fails(table, OneEach(order)[|pool.guests|])
    ensures ok
  {
    hide NewGuest, Address;
    if !ok {
      var n := |pool.guests|;
      var a := OneEach(order)[n];
      assert a == Always(order[n], n) && a.picks[0] == order[n] && table[order[n]] == Address(n + 2);
      assert !pool.IpFree(Address(n + 2));
      var g :| g in pool.guests && g.guestIp == Address(n + 2);
      var k :| 0 <= k < n && pool.guests[k] == g;
      assert OneEach(order)[k] in OneEach(order);
      EachAddress(table, order, pool.guests, k);
      AddressInjective(n + 2, k + 2);
      assert false;
    }
  }

  /** A pool of one guest for each MAC, all of them available. */
  method Ready(table: map<string, string>, order: seq<string>) returns (pool: PoolService)
    requires Network.Filled(table, order)
    ensures fresh(pool) && pool.Valid() && pool.phase == Top && |pool.guests| == |order|
    ensures pool.config == Config(|order|, 600, false) && pool.isolated && pool.owed == multiset{}
    ensures forall k | 0 <= k < |order| :: fresh(pool.guests[k]) && Untouched(pool.guests[k], k)
  {
    hide PoolService.Valid, Address, Network.Filled;
    pool := Refilled(table, order);
    var up := set g | g in pool.guests :: g.guestIp;
    pool.MarkAvailable(up);
    pool.OkViews();
    forall k | 0 <= k < |order| ensures Untouched(pool.guests[k], k) {
      var g := pool.guests[k];
      assert g in pool.guests && g.guestIp in up;
      assert RowOk(pool.Views()[g], 0, PoolService.At(pool.lastFreed, g)) && Alone(pool.Views()[g]);
    }
  }

  /** The guest is available and has not served anybody. */
  predicate Untouched(g: Guest, k: nat)
    reads g
  {
    && g.state == Available && g.clientIps == {} && g.connected == 0
    && g.guestIp == Address(k + 2) && g.id == k % ID_LIMIT
  }

  /** A pool of one guest that is not shared, when the guest is available. */
  method OneGuest() returns (pool: PoolService, g: Guest)
    ensures fresh(pool) && fresh(g) && pool.Valid() && pool.guests == [g] && pool.phase == Top
    ensures !pool.config.share && pool.isolated && pool.owed == multiset{} && Untouched(g, 0)
  {
    hide PoolService.Valid;
    FilledNone();
    FilledMore(map[], [], "a");
    pool := Ready(map["a" := Address(2)], ["a"]);
    g := pool.guests[0];
  }

  /** Two of them. */
  method TwoGuests() returns (pool: PoolService, g: Guest, h: Guest)
    ensures fresh(pool) && fresh(g) && fresh(h) && g != h
    ensures pool.Valid() && pool.guests == [g, h] && pool.phase == Top
    ensures pool.config == Config(2, 600, false) && pool.owed == multiset{} && Untouched(g, 0) && Untouched(h, 1)
  {
    hide PoolService.Valid;
    FilledNone();
    FilledMore(map[], [], "a");
    FilledMore(map["a" := Address(2)], ["a"], "b");
    assert ["a"] + ["b"] == ["a", "b"];
    pool := Ready(map["a" := Address(2), "b" := Address(3)], ["a", "b"]);
    g, h := pool.guests[0], pool.guests[1];
  }

  /** A request and a release through `reuse_vm`. */
  method ServedOnce(ip: string) returns (pool: PoolService, g: Guest)
    ensures fresh(pool) && fresh(g) && pool.Valid() && pool.guests == [g] && !pool.config.share
    ensures g.state == Available && g.clientIps == {ip} && g.connected == 0
  {
    hide PoolService.Valid, PoolService.Preferred;
    pool, g := OneGuest();
    assert g in pool.guests && !pool.Nobody(ip);
    var r, stop := pool.RequestVm(ip);
    assert r == Some(g) && pool.guests[0] == g;
    assert FirstOf(pool.guests, g.id) == 0;
    pool.Release(g.id, false, 0, Some(g));
  }

  /** A request, a release through `reuse_vm`, and a request from elsewhere: although guests are not
      shared, the guest has served two clients. */
  method TwoClients() returns (pool: PoolService, g: Guest)
    ensures fresh(pool) && pool.Valid() && pool.guests == [g] && !pool.config.share
    ensures g.clientIps == {"1.1.1.1", "2.2.2.2"} && g.connected == 1 && !Alone(g.View())
  {
    hide PoolService.Valid, PoolService.Preferred;
    pool, g := ServedOnce("1.1.1.1");
    assert g in pool.guests && !pool.Nobody("2.2.2.2");
    var r, stop := pool.RequestVm("2.2.2.2");
    assert r == Some(g);
    assert |{"1.1.1.1", "2.2.2.2"}| == 2;
  }

  /** Two requests from one address. */
  method RequestedTwice(ip: string) returns (pool: PoolService, g: Guest)
    ensures fresh(pool) && fresh(g) && pool.Valid() && pool.guests == [g] && pool.owed == multiset{g, g}
    ensures g.state == Using && g.connected == 2 && g.prevState == Some(Using)
  {
    hide PoolService.Valid, PoolService.Preferred;
    pool, g := OneGuest();
    assert g in pool.guests && !pool.Nobody(ip);
    var r, stop := pool.RequestVm(ip);
    assert r == Some(g) && g.Serves(ip) && !pool.Nobody(ip);
    r, stop := pool.RequestVm(ip);
    assert r == Some(g);
  }

  /** Two requests from one address, and two releases through `reuse_vm`: the guest goes back to the
      state that the second request found it in, and is in use by nobody. */
  method InUseByNobody() returns (pool: PoolService, g: Guest)
    ensures fresh(pool) && pool.Valid() && pool.guests == [g]
    ensures g.state == Using && g.connected == 0 && pool.owed[g] == 0
  {
    hide PoolService.Valid;
    pool, g := RequestedTwice("1.1.1.1");
    assert pool.guests[0] == g;
    assert FirstOf(pool.guests, g.id) == 0;
    pool.Release(g.id, false, 0, Some(g));
    pool.Release(g.id, false, 0, Some(g));
  }

  /** The first of two guests is given to a client. */
  method Given(ip: string) returns (pool: PoolService, g: Guest, h: Guest)
    ensures fresh(pool) && fresh(g) && fresh(h) && g != h
    ensures pool.Valid() && pool.guests == [g, h] && pool.phase == Top
    ensures g.state == Using && g.connected == 1 && g.clientIps == {ip} && pool.owed == multiset{g}
    ensures h.state == Available && g.id == 0 && pool.config == Config(2, 600, false)
    ensures g.guestIp == Address(2) && h.guestIp == Address(3)
  {
    hide PoolService.Valid, PoolService.Least, Address;
    pool, g, h := TwoGuests();
    assert pool.guests[0] == g && pool.guests[1] == h && g in pool.guests && h in pool.guests;
    assert !pool.Nobody(ip);
    var r, stop := pool.RequestVm(ip);
    assert r == Some(g);
  }

  /** ...and does not answer the next check. */
  method Sick(ip: string) returns (pool: PoolService, g: Guest, h: Guest)
    ensures fresh(pool) && fresh(g) && fresh(h) && g != h
    ensures pool.Valid() && pool.guests == [g, h] && pool.phase == Checked
    ensures g.state == Unavailable && g.connected == 1 && g.clientIps == {ip} && pool.owed == multiset{g}
    ensures h.state == Available && g.id == 0 && pool.config == Config(2, 600, false)
  {
    hide PoolService.Valid, Address;
    pool, g, h := Given(ip);
    assert pool.guests[0] == g && pool.guests[1] == h;
    AddressInjective(2, 3);
    Several(pool, g, h);
    var sweep := pool.BeginLoop();
    pool.MarkTimedOut(600, 0);
    pool.DestroyTimedOut({});
    pool.CheckHealth({Address(3)});
  }

  lemma Several(pool: PoolService, g: Guest, h: Guest)
    requires pool.guests == [g, h] && g.state != Destroyed && h.state != Destroyed
    ensures LiveCount(pool.States()) == 2
  {
    assert pool.States() == [g.state, h.state];
    assert [g.state, h.state][1..] == [h.state] && [h.state][1..] == [];
  }

  /** The rest of that round. */
  method StillSick(ip: string) returns (pool: PoolService, g: Guest, h: Guest)
    ensures fresh(pool) && fresh(g) && fresh(h) && g != h
    ensures pool.Valid() && pool.guests == [g, h] && pool.phase == Top
    ensures g.state == Unavailable && g.connected == 1 && g.clientIps == {ip} && pool.owed == multiset{g}
    ensures h.state == Available && g.id == 0
  {
    hide PoolService.Valid, Drawn, Always;
    pool, g, h := Sick(ip);
    var table := map["a" := Address(2)];
    AlwaysDrawn(table, "a", 0);
    assert pool.guests[0] == g && pool.guests[1] == h;
    NobodyDestroyed(pool);
    pool.RemoveDestroyed();
    var ok := pool.CreateGuests(table, [Always("a", 0), Always("a", 0)]);
    pool.MarkAvailable({});
  }

  /** The next round destroys the guest, while the client is still there. */
  method Dead(ip: string) returns (pool: PoolService, g: Guest, h: Guest)
    ensures fresh(pool) && fresh(g) && fresh(h) && g != h
    ensures pool.Valid() && pool.guests == [g, h] && pool.phase == Swept
    ensures g.state == Destroyed && g.connected == 1 && g.clientIps == {ip} && pool.owed == multiset{g} && g.id == 0
  {
    hide PoolService.Valid;
    pool, g, h := StillSick(ip);
    assert pool.guests[0] == g && pool.guests[1] == h;
    Several(pool, g, h);
    var sweep := pool.BeginLoop();
    pool.MarkTimedOut(600, 0);
    pool.DestroyTimedOut({});
  }

  lemma NobodyDestroyed(pool: PoolService)
    requires forall g | g in pool.guests :: g.state != Destroyed
    ensures Left(pool.guests, DestroyedOf(pool.guests)) == pool.guests
  {
    LeftNone(pool.guests);
    assert DestroyedOf(pool.guests) == {};
  }

  /** The client leaves, and comes back to the guest that has been destroyed. */
  method GivenOutDead() returns (pool: PoolService, g: Guest, r: Option<Guest>)
    ensures fresh(pool) && pool.Valid() && pool.phase == Swept
    ensures r == Some(g) && g.state == Using && g.connected == 1
  {
    hide PoolService.Valid, PoolService.Least;
    var ip := "1.1.1.1";
    var h, stop;
    pool, g, h := Dead(ip);
    assert pool.guests[0] == g && pool.guests[1] == h && g in pool.guests && h in pool.guests;
    assert FirstOf(pool.guests, 0) == 0;
    pool.Release(0, true, 0, Some(g));
    assert g.Serves(ip) && !pool.Nobody(ip);
    r, stop := pool.RequestVm(ip);
  }

  /** The first refill of a pool of 253 guests, with any full table: the first and the last of them get
      the same id, so that every message about the last one is taken for one about the first. */
  method SharedIds(table: map<string, string>, order: seq<string>) returns (pool: PoolService)
    requires Network.Filled(table, order) && |order| == SIZE
    ensures fresh(pool) && pool.Valid() && |pool.guests| == 253
    ensures pool.guests[0] != pool.guests[252] && pool.guests[0].id == pool.guests[252].id
    ensures !pool.Right(pool.guests[252].id, Some(pool.guests[252]))
  {
    hide PoolService.Valid;
    pool := Refilled(table, order);
    assert pool.guests[0].id == 0 && pool.guests[252].serial == 252;
    assert FirstOf(pool.guests, pool.guests[252].id) == 0;
  }

  /** A client that leaves a guest dirty at 1000: it is kept until 600 seconds have passed. */
  method KeptForAWhile(later: nat) returns (pool: PoolService, g: Guest)
    ensures fresh(pool) && pool.Valid() && pool.guests == [g]
    ensures g.state == if later > 1600 then Unavailable else Used
  {
    hide PoolService.Valid, PoolService.Preferred;
    pool, g := OneGuest();
    assert g in pool.guests && !pool.Nobody("1.1.1.1");
    var r, stop := pool.RequestVm("1.1.1.1");
    assert r == Some(g) && pool.guests[0] == g;
    assert FirstOf(pool.guests, g.id) == 0;
    pool.Release(g.id, true, 1000, Some(g));
    pool.MarkTimedOut(600, later);
  }
}
