/** The VM pool of `backend_pool/pool_service.py`: guests are mutable objects in one list, a producer
    works on them phase by phase, and clients request, free and hand back guests in between. Each phase
    and each client call is one atomic step. */
module Pool {
  import opened Options

  /** The six states, and the None that `reuse_vm` could leave behind if there were no state to go back to. */
  datatype VmState = Created | Available | Using | Used | Unavailable | Destroyed | NoState

  class Guest {
    const id: nat
    const guestIp: string
    const start: int
    const domain: int
    const snapshot: string
    /** How many guests had been made before this one. */
    ghost const serial: nat
    var state: VmState
    var prevState: Option<VmState>
    var connected: int
    var clientIps: set<string>
    var freed: int

    constructor (id: nat, guestIp: string, start: int, domain: int, snapshot: string, ghost serial: nat)
      ensures this.id == id && this.guestIp == guestIp && this.start == start
      ensures this.domain == domain && this.snapshot == snapshot && this.serial == serial
      ensures state == Created && prevState == None && connected == 0 && clientIps == {} && freed == -1
    {
      this.id, this.guestIp, this.start, this.domain, this.snapshot := id, guestIp, start, domain, snapshot;
      this.serial := serial;
      state, prevState, connected, clientIps, freed := Created, None, 0, {}, -1;
    }

    /** A guest that a returning client is sent back to. */
    predicate Serves(ip: string)
      reads this
    {
      Taken() && ip in clientIps
    }

    predicate Taken()
      reads this
    {
      state == Used || state == Using
    }

    ghost function View(): Row
      reads this
    {
      Row(state, prevState, connected, clientIps, freed)
    }

    method Request(ip: string)
      modifies this
      ensures View() == Requested(old(View()), ip)
    {
      prevState := Some(state);
      state := Using;
      connected := connected + 1;
      clientIps := clientIps + {ip};
    }

    method Free(now: int)
      modifies this
      ensures View() == Freed(old(View()), now)
    {
      freed := now;
      connected := connected - 1;
      if connected == 0 {
        state := Used;
      }
    }

    method Reuse()
      modifies this
      ensures View() == Reused(old(View()))
    {
      connected := connected - 1;
      if connected == 0 {
        state := if prevState == None then NoState else prevState.value;
        prevState := None;
      }
    }

    /** Python's == on two guest dicts. */
    predicate Equals(other: Guest)
      reads this, other
    {
      && id == other.id && guestIp == other.guestIp && start == other.start
      && domain == other.domain && snapshot == other.snapshot
      && state == other.state && prevState == other.prevState && connected == other.connected
      && clientIps == other.clientIps && freed == other.freed
    }
  }

  /** What changes in a guest over time. */
  datatype Row = Row(state: VmState, prevState: Option<VmState>, connected: int, clientIps: set<string>, freed: int)

  /** The invariant of one guest, where `owed` requests for it are unanswered and `stamp` is the time at
      which it was last freed, if it was.  In particular a guest that a client is connected to is neither
      created nor available nor used. */
  ghost predicate RowOk(r: Row, owed: nat, stamp: Option<int>) {
    && r.connected == owed && r.state != NoState
    && (r.state == Created || r.state == Available || r.state == Used ==> r.connected == 0)
    && (r.connected > 0 ==> r.prevState.Some?)
    && (r.prevState.Some? ==> r.prevState.value == Available || r.prevState.value == Using || r.prevState.value == Used)
    && (stamp.Some? ==> r.freed == stamp.value && stamp.value >= 0)
    && (r.state == Used || r.prevState == Some(Used) ==> stamp.Some?)
  }

  /** The guest has served at most one client, and none before it was first requested. */
  ghost predicate Alone(r: Row) {
    |r.clientIps| <= 1 && (r.state == Created || r.state == Available ==> r.clientIps == {})
  }

  function Requested(r: Row, ip: string): Row {
    Row(Using, Some(r.state), r.connected + 1, r.clientIps + {ip}, r.freed)
  }

  function Freed(r: Row, now: int): Row {
    r.(state := if r.connected == 1 then Used else r.state, connected := r.connected - 1, freed := now)
  }

  function Reused(r: Row): Row {
    if r.connected != 1 then r.(connected := r.connected - 1)
    else r.(state := if r.prevState == None then NoState else r.prevState.value, prevState := None, connected := 0)
  }

  lemma RequestedOk(r: Row, owed: nat, stamp: Option<int>, ip: string)
    requires RowOk(r, owed, stamp) && (r.state == Using || r.state == Used || r.state == Available)
    ensures RowOk(Requested(r, ip), owed + 1, stamp) && Requested(r, ip).state == Using
    ensures Alone(r) && (ip in r.clientIps || r.state == Available) ==> Alone(Requested(r, ip))
  {
    assert ip in r.clientIps ==> r.clientIps + {ip} == r.clientIps;
    assert {} + {ip} == {ip};
  }

  lemma NewOk(r: Row)
    requires r == Row(Created, None, 0, {}, -1)
    ensures RowOk(r, 0, None) && Alone(r)
  {
  }

  lemma FreedOk(r: Row, owed: nat, stamp: Option<int>, now: int)
    requires RowOk(r, owed, stamp) && owed > 0 && now >= 0
    ensures RowOk(Freed(r, now), owed - 1, Some(now))
    ensures Freed(r, now).state == Destroyed ==> r.state == Destroyed
    ensures Alone(r) ==> Alone(Freed(r, now))
  {
  }

  lemma ReusedOk(r: Row, owed: nat, stamp: Option<int>)
    requires RowOk(r, owed, stamp) && owed > 0
    ensures r.prevState.Some? && RowOk(Reused(r), owed - 1, stamp)
    ensures Reused(r).state == Destroyed ==> r.state == Destroyed
  {
  }

  /** `reuse_vm` undoes a request, but for the client it remembers: the only client leaves the guest as it
      was found, and of several the state stays and one connection is given back. */
  lemma ReuseUndoes(r: Row, ip: string)
    ensures r.connected == 0 ==>
      Reused(Requested(r, ip)) == r.(clientIps := r.clientIps + {ip}, prevState := None)
    ensures r.connected != 0 ==>
      Reused(Requested(r, ip)) == Row(Using, Some(r.state), r.connected, r.clientIps + {ip}, r.freed)
  {
  }

  function ReleasedTo(r: Row, dirty: bool, now: int): Row {
    if dirty then Freed(r, now) else Reused(r)
  }

  lemma ReleasedRow(r: Row, owed: nat, stamp: Option<int>, dirty: bool, now: int)
    requires RowOk(r, owed, stamp) && owed > 0 && now >= 0
    ensures var r' := ReleasedTo(r, dirty, now);
      && RowOk(r', owed - 1, if dirty then Some(now) else stamp)
      && (r.state != Destroyed ==> r'.state != Destroyed)
      && (dirty && Alone(r) ==> Alone(r'))
  {
    hide RowOk, Alone, Freed, Reused;
    if dirty {
      FreedOk(r, owed, stamp, now);
    } else {
      ReusedOk(r, owed, stamp);
    }
  }

  lemma Miscounted(r: Row, owed: nat, stamp: Option<int>, dirty: bool, now: int)
    requires RowOk(r, owed, stamp)
    ensures forall later :: !RowOk(ReleasedTo(r, dirty, now), owed, later)
  {
  }

  /** A guest that was destroyed while a client was connected, and has not been removed from the list
      yet, comes back to life when its last client leaves: it counts as used again after `free_vm`, and
      as whatever it was before after `reuse_vm`, and is given out again. */
  lemma Revived(r: Row, owed: nat, stamp: Option<int>, now: int)
    requires RowOk(r, owed, stamp) && owed > 0 && r.state == Destroyed
    ensures Freed(r, now).state == (if owed == 1 then Used else Destroyed)
    ensures Reused(r).state == (if owed == 1 then r.prevState.value else Destroyed)
    ensures Reused(r).state == Destroyed <==> owed > 1
  {
  }

  /** `reuse_vm` leaves a guest in state using without a client exactly when it was handed out while
      another client used it and this was the last one.  Only used guests are ever marked timed out. */
  lemma LeftUsing(r: Row, owed: nat, stamp: Option<int>)
    requires RowOk(r, owed, stamp) && owed > 0
    ensures Reused(r).state == Using && Reused(r).connected == 0 <==> owed == 1 && r.prevState == Some(Using)
  {
  }

  /** `reuse_vm` does not forget the client: a guest that has served one is alone afterwards unless it
      goes back to being available, where the next client may be another one. */
  lemma ReuseIsolation(r: Row, owed: nat, stamp: Option<int>)
    requires RowOk(r, owed, stamp) && owed > 0 && Alone(r)
    ensures Alone(Reused(r)) <==> !(r.connected == 1 && r.prevState == Some(Available) && r.clientIps != {})
  {
  }

  /** `len([g for g in guests if g['state'] != 'destroyed'])`. */
  function LiveCount(states: seq<VmState>): (n: nat)
    ensures n <= |states|
  {
    if |states| == 0 then 0 else (if states[0] == Destroyed then 0 else 1) + LiveCount(states[1..])
  }

  /** ...as a number of places in the list. */
  lemma {:induction false} LiveCountIs(states: seq<VmState>)
    ensures LiveCount(states) == |set i | 0 <= i < |states| && states[i] != Destroyed|
  {
    var live := set i | 0 <= i < |states| && states[i] != Destroyed;
    if |states| > 0 {
      var n := |states| - 1;
      var front := states[..n];
      var before := set i | 0 <= i < n && front[i] != Destroyed;
      LiveCountIs(front);
      LiveCountAppend(front, states[n]);
      assert states == front + [states[n]];
      assert live == if states[n] == Destroyed then before else before + {n};
    } else {
      assert live == {};
    }
  }

  lemma {:induction false} LiveCountAppend(states: seq<VmState>, s: VmState)
    ensures LiveCount(states + [s]) == LiveCount(states) + (if s == Destroyed then 0 else 1)
  {
    if |states| > 0 {
      LiveCountAppend(states[1..], s);
      assert (states + [s])[1..] == states[1..] + [s];
    }
  }

  lemma {:induction false} AllLive(states: seq<VmState>)
    requires Destroyed !in states
    ensures LiveCount(states) == |states|
  {
    if |states| > 0 {
      AllLive(states[1..]);
    }
  }

  /** Two listed guests: an earlier and a later one, with different addresses. */
  ghost predicate Apart(g: Guest, h: Guest) {
    g != h && g.guestIp != h.guestIp && g.serial < h.serial
  }

  /** The listed guests, of the `made` ones so far, in the order in which they were made. */
  ghost predicate Serials(gs: seq<Guest>, made: nat) {
    && (forall i, j | 0 <= i < j < |gs| :: Apart(gs[i], gs[j]))
    && (forall g | g in gs :: g.serial < made && g.id == g.serial % ID_LIMIT)
  }

  lemma SerialsMore(gs: seq<Guest>, made: nat, g: Guest)
    requires Serials(gs, made) && g.serial == made && g.id == made % ID_LIMIT
    requires forall h | h in gs :: h.guestIp != g.guestIp
    ensures Serials(gs + [g], made + 1)
  {
    var more := gs + [g];
    forall i, j | 0 <= i < j < |more| ensures Apart(more[i], more[j]) {
      assert more[i] in gs;
    }
  }

  lemma Congruent(a: nat, b: nat)
    requires a < b
    ensures a % ID_LIMIT == b % ID_LIMIT <==> (b - a) % ID_LIMIT == 0
    ensures b - a < ID_LIMIT ==> a % ID_LIMIT != b % ID_LIMIT
  {
    assert a == 252 * (a / 252) + a % 252 && b == 252 * (b / 252) + b % 252;
  }

  predicate Distinct<T(==)>(s: seq<T>) {
    forall i, j | 0 <= i < j < |s| :: s[i] != s[j]
  }

  ghost function DestroyedOf(gs: seq<Guest>): set<Guest>
    reads gs
  {
    set g | g in gs && g.state == Destroyed
  }

  /** The guests that are not in `gone`, in order. */
  function Left(gs: seq<Guest>, gone: set<Guest>): seq<Guest> {
    if |gs| == 0 then []
    else (if gs[0] in gone then [] else [gs[0]]) + Left(gs[1..], gone)
  }

  lemma {:induction false} LeftMembers(gs: seq<Guest>, gone: set<Guest>)
    ensures forall g :: g in Left(gs, gone) <==> g in gs && g !in gone
    ensures var l := Left(gs, gone); |l| <= |gs| && forall i | 0 <= i < |l| :: l[i] in gs && l[i] !in gone
  {
    if |gs| > 0 {
      LeftMembers(gs[1..], gone);
      assert forall g :: g in gs <==> g == gs[0] || g in gs[1..];
    }
  }

  lemma LeftStep(gs: seq<Guest>, gone: set<Guest>)
    requires |gs| > 0
    ensures Left(gs, gone) == if gs[0] in gone then Left(gs[1..], gone) else [gs[0]] + Left(gs[1..], gone)
  {
  }

  /** Deleting the next guest at its one position. */
  lemma {:induction false} LeftOneMore(gs: seq<Guest>, gone: set<Guest>, g: Guest, k: nat)
    requires Distinct(gs) && g !in gone
    requires k < |Left(gs, gone)| && Left(gs, gone)[k] == g
    ensures var l := Left(gs, gone); Left(gs, gone + {g}) == l[..k] + l[k + 1..]
    decreases |gs|
  {
    hide Left;
    LeftMembers(gs, gone);
    LeftStep(gs, gone);
    LeftStep(gs, gone + {g});
    var t := Left(gs[1..], gone);
    if gs[0] == g {
      LeftSame(gs[1..], gone, g);
      LeftMembers(gs[1..], gone);
    } else if gs[0] in gone {
      LeftOneMore(gs[1..], gone, g, k);
    } else {
      LeftOneMore(gs[1..], gone, g, k - 1);
      CutBehind(gs[0], t, k);
    }
  }

  lemma CutBehind<T>(x: T, t: seq<T>, k: nat)
    requires 0 < k <= |t|
    ensures var l := [x] + t; l[..k] + l[k + 1..] == [x] + (t[..k - 1] + t[k..])
  {
  }

  lemma {:induction false} LeftNone(gs: seq<Guest>)
    ensures Left(gs, {}) == gs
  {
    if |gs| > 0 {
      LeftNone(gs[1..]);
    }
  }

  lemma {:induction false} LeftDistinct(gs: seq<Guest>, gone: set<Guest>)
    requires forall i, j | 0 <= i < j < |gs| :: Apart(gs[i], gs[j])
    ensures var l := Left(gs, gone);
      forall i, j | 0 <= i < j < |l| :: Apart(l[i], l[j])
  {
    if |gs| > 0 {
      LeftDistinct(gs[1..], gone);
      LeftMembers(gs[1..], gone);
      var l, t := Left(gs, gone), Left(gs[1..], gone);
      forall j | 0 <= j < |t| ensures Apart(gs[0], t[j]) {
        assert t[j] in gs[1..];
        var m :| 0 <= m < |gs[1..]| && gs[1..][m] == t[j];
        assert gs[m + 1] == t[j];
      }
    }
  }

  lemma {:induction false} LeftSame(gs: seq<Guest>, gone: set<Guest>, g: Guest)
    requires g !in gs
    ensures Left(gs, gone + {g}) == Left(gs, gone)
  {
    if |gs| > 0 {
      LeftSame(gs[1..], gone, g);
    }
  }

  /** Where the first guest with the id is listed; behind the list if there is none. */
  function FirstOf(gs: seq<Guest>, id: nat): (k: nat)
    ensures k <= |gs| && (k < |gs| ==> gs[k].id == id)
    ensures forall j | 0 <= j < k :: gs[j].id != id
  {
    if |gs| == 0 || gs[0].id == id then 0 else 1 + FirstOf(gs[1..], id)
  }

  /** Where the producer loop stands between two of its phases. */
  datatype Phase = Top | Marked | Swept | Checked | Cleared | Filled

  const ID_LIMIT := 252

  datatype Config = Config(maxVm: int, timeout: int, share: bool)

  /** What the host answers when one guest is to be created: the 500 random picks of `get_mac_ip`, and
      the domain with its snapshot, if the host gets one up. */
  datatype Attempt = Attempt(picks: seq<string>, domain: Option<int>, snapshot: string, start: int)

  const RETRIES := 500

  /** The random choices are keys of the table. */
  predicate Drawn(table: map<string, string>, a: Attempt) {
    |a.picks| >= RETRIES && forall mac | mac in a.picks :: mac in table
  }

  /** A guest as it is made by this attempt, after `serial` others. */
  ghost predicate NewGuest(g: Guest, table: map<string, string>, a: Attempt, serial: nat)
    requires Drawn(table, a)
    reads g
  {
    && g.state == Created && g.serial == serial && g.id == serial % ID_LIMIT && a.domain == Some(g.domain)
    && exists j :: 0 <= j < RETRIES && g.guestIp == table[a.picks[j]]
  }

  class PoolService {
    var guests: seq<Guest>
    var guestId: nat
    var config: Config
    var anyVmUp: bool

    /** History: requests not yet answered by a free or a reuse, guest by guest. */
    ghost var owed: multiset<Guest>
    /** History: no guest was shared with, or handed back for, another client so far. */
    ghost var isolated: bool
    /** History: the largest `max_vm` since the list was last empty, and the number of guests made so far. */
    ghost var bound: int
    ghost var made: nat
    ghost var phase: Phase
    /** History: when each guest was last freed, by the clock of the call. */
    ghost var lastFreed: map<Guest, int>

    ghost predicate GuestOk(g: Guest)
      reads `owed, `isolated, `lastFreed, g
    {
      RowOk(g.View(), owed[g], At(lastFreed, g)) && (isolated ==> Alone(g.View()))
    }

    static ghost function At(stamps: map<Guest, int>, g: Guest): Option<int> {
      if g in stamps then Some(stamps[g]) else None
    }

    ghost predicate AllOk()
      reads `guests, `owed, `isolated, `lastFreed, guests
    {
      forall g | g in guests :: GuestOk(g)
    }

    /** No guest is destroyed between the removal and the refill. */
    ghost predicate PhaseOk()
      reads `phase, `guests, guests
    {
      phase == Cleared ==> forall g | g in guests :: g.state != Destroyed
    }

    /** Only `g` has changed, or been added. */
    lemma OthersOk(was: map<Guest, Row>, before: multiset<Guest>, alone: bool, g: Guest)
      requires GuestOk(g) && (phase == Cleared ==> g.state != Destroyed)
      requires forall h | h in guests && h != g :: h in was && h.View() == was[h] && owed[h] == before[h]
      requires forall h | h in guests && h != g :: WasOk(was[h], before[h], At(lastFreed, h), alone, phase)
      requires isolated ==> alone
      ensures AllOk() && PhaseOk()
    {
      hide RowOk, Alone, At;
      forall h | h in guests ensures GuestOk(h) && (phase == Cleared ==> h.state != Destroyed) {
        assert h != g ==> WasOk(was[h], before[h], At(lastFreed, h), alone, phase) && h.View().state == h.state;
      }
    }

    ghost predicate ListOk()
      reads `guests, `bound, `config, `guestId, `made
    {
      && Serials(guests, made)
      && |guests| <= bound && config.maxVm <= bound && 0 <= bound
      && guestId == made % ID_LIMIT
    }

    ghost predicate Valid()
      reads this, guests
    {
      ListOk() && AllOk() && PhaseOk()
    }

    constructor ()
      ensures Valid() && guests == [] && config == Config(2, 600, true) && bound == 2 && phase == Top
      ensures isolated && owed == multiset{} && made == 0 && guestId == 0 && lastFreed == map[]
    {
      guests, guestId, config, anyVmUp := [], 0, Config(2, 600, true), false;
      owed, isolated, bound, made, phase, lastFreed := multiset{}, true, 2, 0, Top, map[];
    }

    method SetConfigs(maxVm: nat, timeout: nat, share: bool)
      requires Valid()
      modifies this`config, this`bound
      ensures Valid() && config == Config(maxVm, timeout, share)
      ensures bound == if guests == [] || maxVm > old(bound) then maxVm else old(bound)
    {
      config := Config(maxVm, timeout, share);
      bound := if guests == [] || maxVm > bound then maxVm else bound;
    }

    // Consumers -----------------------------------------------------------------------------------

    method GuestForIp(ip: string) returns (r: Option<Guest>)
      ensures r == None ==> forall g | g in guests :: !g.Serves(ip)
      ensures r.Some? ==> exists i :: 0 <= i < |guests| && guests[i] == r.value && guests[i].Serves(ip)
                                      && forall j | 0 <= j < i :: !guests[j].Serves(ip)
    {
      for i := 0 to |guests|
        invariant forall j | 0 <= j < i :: !guests[j].Serves(ip)
      {
        if guests[i].Taken() && ip in guests[i].clientIps {
          return Some(guests[i]);
        }
      }
      return None;
    }

    method AvailableGuest() returns (r: Option<Guest>)
      ensures r == None ==> forall g | g in guests :: g.state != Available
      ensures r.Some? ==> exists i :: 0 <= i < |guests| && guests[i] == r.value && guests[i].state == Available
                                      && forall j | 0 <= j < i :: guests[j].state != Available
    {
      for i := 0 to |guests|
        invariant forall j | 0 <= j < i :: guests[j].state != Available
      {
        if guests[i].state == Available {
          return Some(guests[i]);
        }
      }
      return None;
    }

    /** The taken guest with the fewest clients, the first of them if there are several. */
    ghost predicate Least(i: int)
      reads this, guests
    {
      && 0 <= i < |guests| && guests[i].Taken()
      && forall j | 0 <= j < |guests| && guests[j].Taken() ::
           guests[i].connected <= guests[j].connected && (j < i ==> guests[i].connected < guests[j].connected)
    }

    method AnyGuest() returns (r: Option<Guest>)
      ensures r == None ==> forall g | g in guests :: !g.Taken()
      ensures r.Some? ==> exists i :: Least(i) && guests[i] == r.value
    {
      r := None;
      ghost var k := -1;
      for i := 0 to |guests|
        invariant r == None ==> forall j | 0 <= j < i :: !guests[j].Taken()
        invariant r.Some? ==> 0 <= k < i && guests[k] == r.value && r.value.Taken()
        invariant r.Some? ==> forall j | 0 <= j < i && guests[j].Taken() ::
            r.value.connected <= guests[j].connected && (j < k ==> r.value.connected < guests[j].connected)
      {
        if guests[i].Taken() && (r == None || guests[i].connected < r.value.connected) {
          r := Some(guests[i]);
          k := i;
        }
      }
      assert r.Some? ==> Least(k);
    }

    /** The guest a client is given: one that already served it; else the first available one; else,
        if guests are shared, the least busy one. */
    ghost predicate Preferred(ip: string, i: int)
      reads this, guests
    {
      && 0 <= i < |guests|
      && (|| (guests[i].Serves(ip) && forall j | 0 <= j < i :: !guests[j].Serves(ip))
          || ((forall g | g in guests :: !g.Serves(ip))
              && guests[i].state == Available && forall j | 0 <= j < i :: guests[j].state != Available)
          || ((forall g | g in guests :: !g.Serves(ip) && g.state != Available) && config.share && Least(i)))
    }

    ghost predicate Nobody(ip: string)
      reads this, guests
    {
      forall g | g in guests :: !g.Serves(ip) && g.state != Available && (config.share ==> !g.Taken())
    }

    /** The selection part of `request_vm`. */
    method Pick(ip: string) returns (r: Option<Guest>)
      ensures r == None <==> Nobody(ip)
      ensures r.Some? ==> exists i :: Preferred(ip, i) && guests[i] == r.value
    {
      r := GuestForIp(ip);
      if r == None {
        r := AvailableGuest();
        if r == None && config.share {
          r := AnyGuest();
        }
      }
    }

    /** The order of preference, one by one: whoever has been served by a guest that is taken goes back to
        one; everybody else gets a fresh one as long as there is one; and only then, if guests are shared,
        one with as few clients as any. */
    lemma PreferredOrder(ip: string, i: int)
      requires Preferred(ip, i)
      ensures var g := guests[i];
        if exists h :: h in guests && h.Taken() && ip in h.clientIps then g.Taken() && ip in g.clientIps
        else if exists h :: h in guests && h.state == Available then g.state == Available
        else config.share && g.Taken() && forall h | h in guests && h.Taken() :: g.connected <= h.connected
      ensures forall j | 0 <= j < i && guests[j].state == guests[i].state == Available :: guests[i].Serves(ip)
    {
      assert guests[i] in guests;
      if h :| h in guests && h.Serves(ip) {
        var j :| 0 <= j < |guests| && guests[j] == h;
      }
      if h :| h in guests && h.state == Available {
        var j :| 0 <= j < |guests| && guests[j] == h;
      }
    }

    /** The dict updates of `request_vm`. */
    method Assign(guest: Guest, ip: string)
      requires Valid() && guest in guests && (guest.Taken() || guest.state == Available)
      modifies this`owed, this`isolated, guest
      ensures Valid()
      ensures owed == old(owed) + multiset{guest}
      ensures guest.View() == Requested(old(guest.View()), ip)
      ensures isolated == (old(isolated) && (old(guest.Serves(ip)) || old(guest.state) == Available))
    {
      hide ListOk, AllOk, PhaseOk, RowOk, Alone, Requested, Views;
      ghost var serves, was, before, alone := guest.Serves(ip) || guest.state == Available, Views(), owed, isolated;
      OkViews();
      OneView();
      RequestedOk(guest.View(), owed[guest], At(lastFreed, guest), ip);
      guest.Request(ip);
      owed := owed + multiset{guest};
      isolated := isolated && serves;
      OthersOk(was, before, alone, guest);
    }

    /** None is NoAvailableVMs; `stop` says that the pool is stopped because of it. */
    method RequestVm(ip: string) returns (r: Option<Guest>, stop: bool)
      requires Valid()
      modifies this`owed, this`isolated, guests
      ensures Valid()
      ensures (r == None <==> old(Nobody(ip))) && (stop <==> r == None && anyVmUp)
      ensures r == None ==> owed == old(owed) && isolated == old(isolated) && forall g | g in guests :: unchanged(g)
      ensures r.Some? ==>
        && (exists i :: old(Preferred(ip, i)) && guests[i] == r.value) && r.value in guests
        && owed == old(owed) + multiset{r.value}
        && r.value.View() == Requested(old(r.value.View()), ip)
        && (forall g | g in guests && g != r.value :: unchanged(g))
        && (old(isolated) && !config.share ==> isolated)
    {
      r := Pick(ip);
      if r.Some? {
        hide Valid;
        ghost var i :| Preferred(ip, i) && guests[i] == r.value;
        Assign(r.value, ip);
      }
      stop := r == None && anyVmUp;
    }

    /** `free_vm` changes the first listed guest with the id, and none if nobody has it. */
    method FreeVm(id: nat, now: int)
      modifies this`lastFreed, guests
      ensures lastFreed == Restamped(old(lastFreed), id, true, now)
      ensures var k := FirstOf(guests, id);
        && (k < |guests| ==> guests[k].View() == Freed(old(guests[k].View()), now))
        && forall h | h in guests && (k < |guests| ==> h != guests[k]) :: unchanged(h)
    {
      var k := FindId(id);
      if k < |guests| {
        guests[k].Free(now);
        lastFreed := lastFreed[guests[k] := now];
      }
    }

    /** The history after a release. */
    ghost function Restamped(stamps: map<Guest, int>, id: nat, dirty: bool, now: int): map<Guest, int>
      reads `guests
    {
      var k := FirstOf(guests, id);
      if dirty && k < |guests| then stamps[guests[k] := now] else stamps
    }

    /** `reuse_vm` likewise. */
    method ReuseVm(id: nat)
      modifies guests
      ensures var k := FirstOf(guests, id);
        && (k < |guests| ==> guests[k].View() == Reused(old(guests[k].View())))
        && forall h | h in guests && (k < |guests| ==> h != guests[k]) :: unchanged(h)
    {
      var k := FindId(id);
      if k < |guests| {
        guests[k].Reuse();
      }
    }

    ghost function Views(): (r: map<Guest, Row>)
      reads `guests, guests
    {
      map h | h in guests :: h.View()
    }

    /** The release with this id names the guest meant, or nobody if that one has left the list; None
        stands for a message that no client had a reason to send. */
    ghost predicate Right(id: nat, meant: Option<Guest>)
      reads `guests
    {
      var k := FirstOf(guests, id);
      k == |guests| || meant == Some(guests[k])
    }

    /** What was known of a guest. */
    static ghost predicate WasOk(r: Row, owed: nat, stamp: Option<int>, alone: bool, phase: Phase) {
      RowOk(r, owed, stamp) && (alone ==> Alone(r)) && (phase == Cleared ==> r.state != Destroyed)
    }

    /** The server's dispatch of a release, with the account of who is connected.  The pool stays in
        order exactly for a right release: any other one miscounts another guest. */
    method Release(id: nat, dirty: bool, now: int, ghost meant: Option<Guest>)
      requires Valid() && now >= 0
      requires meant.Some? ==> owed[meant.value] > 0 && meant.value.id == id
      modifies this`owed, this`isolated, this`lastFreed, guests
      ensures Valid() <==> old(Right(id, meant))
      ensures lastFreed == Restamped(old(lastFreed), id, dirty, now)
      ensures var k := FirstOf(guests, id);
        && (k < |guests| ==> guests[k].View() == ReleasedTo(old(guests[k].View()), dirty, now))
        && forall h | h in guests && (k < |guests| ==> h != guests[k]) :: unchanged(h)
      ensures owed == if meant.Some? then old(owed) - multiset{meant.value} else old(owed)
      ensures isolated == (old(isolated) && dirty)
    {
      hide ListOk, AllOk, PhaseOk, GuestOk, RowOk, Alone, ReleasedTo, FirstOf, Right, Views, Changed, WasOk;
      hide At, Restamped;
      ghost var was, before, stamps, alone := Views(), owed, lastFreed, isolated;
      OkViews();
      Dispatch(id, dirty, now);
      owed := if meant.Some? then owed - multiset{meant.value} else owed;
      isolated := isolated && dirty;
      ReleasedOk(was, before, stamps, alone, id, dirty, now, meant);
    }

    /** The rows after a release. */
    ghost function Changed(was: map<Guest, Row>, id: nat, dirty: bool, now: int): map<Guest, Row>
      requires forall h | h in guests :: h in was
      reads `guests
    {
      var k := FirstOf(guests, id);
      if k < |guests| then was[guests[k] := ReleasedTo(was[guests[k]], dirty, now)] else was
    }

    /** The two operations of a release, by the op code of the message. */
    method Dispatch(id: nat, dirty: bool, now: int)
      modifies this`lastFreed, guests
      ensures lastFreed == Restamped(old(lastFreed), id, dirty, now)
      ensures Views() == Changed(old(Views()), id, dirty, now)
      ensures var k := FirstOf(guests, id);
        && (k < |guests| ==> guests[k].View() == ReleasedTo(old(guests[k].View()), dirty, now))
        && forall h | h in guests && (k < |guests| ==> h != guests[k]) :: unchanged(h)
    {
      hide Freed, Reused, FirstOf;
      if dirty {
        FreeVm(id, now);
      } else {
        ReuseVm(id);
      }
    }

    lemma OneView()
      ensures forall h | h in guests :: h in Views() && Views()[h] == h.View()
    {
    }

    lemma OkViews()
      requires Valid()
      ensures forall h | h in guests :: h in Views() && WasOk(Views()[h], owed[h], At(lastFreed, h), isolated, phase)
    {
      hide RowOk, Alone;
      forall h | h in guests ensures WasOk(h.View(), owed[h], At(lastFreed, h), isolated, phase) {
        assert GuestOk(h);
      }
    }

    /** The account after a release, from the rows and the unanswered requests before it. */
    lemma ReleasedOk(was: map<Guest, Row>, before: multiset<Guest>, stamps: map<Guest, int>, alone: bool,
                     id: nat, dirty: bool, now: int, meant: Option<Guest>)
      requires forall h | h in guests :: h in was && WasOk(was[h], before[h], At(stamps, h), alone, phase)
      requires lastFreed == Restamped(stamps, id, dirty, now)
      requires Views() == Changed(was, id, dirty, now)
      requires meant.Some? ==> before[meant.value] > 0 && meant.value.id == id
      requires owed == if meant.Some? then before - multiset{meant.value} else before
      requires isolated == (alone && dirty) && now >= 0
      ensures AllOk() && PhaseOk() <==> Right(id, meant)
    {
      hide RowOk, Alone, ReleasedTo, Guest.View;
      var k := FirstOf(guests, id);
      assert forall h | h in guests :: h.View() == Views()[h];
      if Right(id, meant) {
        forall h | h in guests ensures GuestOk(h) && (phase == Cleared ==> h.state != Destroyed) {
          assert WasOk(was[h], before[h], At(stamps, h), alone, phase);
          if k < |guests| && h == guests[k] {
            ReleasedRow(was[h], before[h], At(stamps, h), dirty, now);
          } else {
            NotMeant(id, meant, h);
          }
          ViewState(h);
        }
      } else {
        var h := guests[k];
        assert h in guests && WasOk(was[h], before[h], At(stamps, h), alone, phase);
        Miscounted(was[h], before[h], At(stamps, h), dirty, now);
        assert owed[h] == before[h];
        assert !GuestOk(h);
      }
    }

    lemma ViewState(h: Guest)
      ensures h.View().state == h.state
    {
    }

    lemma NotMeant(id: nat, meant: Option<Guest>, h: Guest)
      requires Right(id, meant) && h in guests && (meant.Some? ==> meant.value.id == id)
      requires var k := FirstOf(guests, id); k < |guests| ==> h != guests[k]
      ensures meant != Some(h)
    {
    }

    method FindId(id: nat) returns (k: nat)
      ensures k == FirstOf(guests, id)
    {
      k := 0;
      while k < |guests| && guests[k].id != id
        invariant k <= |guests| && forall j | 0 <= j < k :: guests[j].id != id
      {
        k := k + 1;
      }
    }

    /** Ids are reused after 252 guests: two listed guests share an id exactly when the numbers of
        guests made before them differ by a multiple of 252. */
    lemma SharedId(i: nat, j: nat)
      requires Valid() && i < j < |guests|
      ensures guests[i].id == guests[j].id <==> (guests[j].serial - guests[i].serial) % ID_LIMIT == 0
      ensures made - guests[i].serial <= ID_LIMIT ==> guests[i].id != guests[j].id
    {
      assert guests[i] in guests && guests[j] in guests;
      assert Apart(guests[i], guests[j]);
      Congruent(guests[i].serial, guests[j].serial);
    }

    // Producer ------------------------------------------------------------------------------------

    /** `get_guest_states`. */
    method GuestStates(states: set<VmState>) returns (r: seq<Guest>)
      ensures forall g :: g in r <==> g in guests && g.state in states
      ensures Distinct(guests) ==> Distinct(r)
    {
      r := [];
      for i := 0 to |guests|
        invariant forall g :: g in r <==> g in guests[..i] && g.state in states
        invariant Distinct(guests) ==> Distinct(r)
      {
        if guests[i].state in states {
          r := r + [guests[i]];
        }
      }
      assert guests[..|guests|] == guests;
    }

    ghost function States(): (r: seq<VmState>)
      reads this, guests
      ensures |r| == |guests|
    {
      seq(|guests|, i requires 0 <= i < |guests| reads this, guests => guests[i].state)
    }

    method ExistingPoolSize() returns (n: nat)
      ensures n == LiveCount(States())
    {
      n := 0;
      for i := 0 to |guests|
        invariant n == LiveCount(States()[..i])
      {
        assert States()[..i + 1] == States()[..i] + [guests[i].state];
        LiveCountAppend(States()[..i], guests[i].state);
        if guests[i].state != Destroyed {
          n := n + 1;
        }
      }
      assert States()[..|guests|] == States();
    }

    /** The branch at the head of `producer_loop`. */
    method BeginLoop() returns (sweep: bool)
      requires Valid() && phase == Top
      modifies this`phase
      ensures Valid() && sweep == old(LiveCount(States()) > 1) && phase == if sweep then Top else Swept
    {
      var n := ExistingPoolSize();
      sweep := n > 1;
      phase := if sweep then Top else Swept;
    }

    /** What a phase may do to one guest: nothing, or one change of state. */
    ghost predicate Marks(r: Row, r': Row, goes: bool, to: VmState) {
      r' == if goes then r.(state := to) else r
    }

    /** Every guest of `r` is moved to state `to`; all others stay. */
    method SetStates(r: seq<Guest>, to: VmState)
      requires Valid() && (forall g | g in r :: g in guests) && (to == Destroyed ==> phase != Cleared)
      requires to == Unavailable || to == Destroyed || (to == Available && forall g | g in r :: g.state == Created)
      modifies guests
      ensures Valid()
      ensures forall g | g in guests :: Marks(old(g.View()), g.View(), g in r, to)
    {
      for i := 0 to |r|
        invariant Valid()
        invariant forall g | g in guests :: Marks(old(g.View()), g.View(), g in r[..i], to)
      {
        assert r[i] in r;
        assert forall g :: g in r[..i + 1] <==> g in r[..i] || g == r[i];
        SetState(r[i], to);
      }
      assert r[..|r|] == r;
    }

    method SetState(g: Guest, to: VmState)
      requires Valid() && g in guests && (to == Destroyed ==> phase != Cleared)
      requires to == Unavailable || to == Destroyed || (to == Available && (g.state == Created || g.state == Available))
      modifies g`state
      ensures Valid() && g.state == to
    {
      hide ListOk;
      g.state := to;
      forall h | h in guests ensures GuestOk(h) {
        assert old(GuestOk(h));
      }
    }

    /** `__producer_mark_timed_out`: the guests marked are exactly the used ones freed too long ago;
        none of them has a client or an unanswered request. */
    method MarkTimedOut(timeout: int, now: int)
      requires Valid() && phase == Top
      modifies this`phase, guests
      ensures Valid() && phase == Marked
      ensures forall g | g in guests ::
        Marks(old(g.View()), g.View(), old(g.state) == Used && old(g.freed) + timeout < now, Unavailable)
      ensures forall g | g in guests && g.state != old(g.state) ::
        g.connected == 0 && owed[g] == 0 && g in lastFreed && now - lastFreed[g] > timeout
      ensures forall g | g in guests && old(g.state) == Used ::
        g in lastFreed && (g.state == Unavailable <==> now - lastFreed[g] > timeout)
    {
      hide ListOk;
      var used := GuestStates({Used});
      var late := [];
      for i := 0 to |used|
        invariant forall g :: g in late <==> g in used[..i] && g.freed + timeout < now
      {
        if used[i].freed + timeout < now {
          late := late + [used[i]];
        }
      }
      assert used[..|used|] == used;
      SetStates(late, Unavailable);
      phase := Marked;
    }

    /** `__producer_destroy_timed_out`; `stuck` are the domains whose destruction raises. */
    method DestroyTimedOut(stuck: set<int>)
      requires Valid() && phase == Marked
      modifies this`phase, guests
      ensures Valid() && phase == Swept
      ensures forall g | g in guests ::
        Marks(old(g.View()), g.View(), old(g.state) == Unavailable && g.domain !in stuck, Destroyed)
    {
      hide ListOk, GuestOk;
      var unavailable := GuestStates({Unavailable});
      var dead := [];
      for i := 0 to |unavailable|
        invariant forall g :: g in dead <==> g in unavailable[..i] && g.domain !in stuck
      {
        if unavailable[i].domain !in stuck {
          dead := dead + [unavailable[i]];
        }
      }
      assert unavailable[..|unavailable|] == unavailable;
      SetStates(dead, Destroyed);
      phase := Swept;
    }

    /** The guests of a list that do, or do not, answer. */
    static method Answering(gs: seq<Guest>, up: set<string>, answers: bool) returns (r: seq<Guest>)
      ensures forall g :: g in r <==> g in gs && (g.guestIp in up) == answers
    {
      r := [];
      for i := 0 to |gs|
        invariant forall g :: g in r <==> g in gs[..i] && (g.guestIp in up) == answers
      {
        if (gs[i].guestIp in up) == answers {
          r := r + [gs[i]];
        }
      }
      assert gs[..|gs|] == gs;
    }

    /** `__producer_check_health`; `up` are the addresses that answer. */
    method CheckHealth(up: set<string>)
      requires Valid() && phase == Swept
      modifies this`phase, guests
      ensures Valid() && phase == Checked
      ensures forall g | g in guests ::
        Marks(old(g.View()), g.View(), (old(g.Taken()) || old(g.state) == Available) && g.guestIp !in up, Unavailable)
    {
      hide ListOk, GuestOk;
      var usable := GuestStates({Available, Using, Used});
      var sick := Answering(usable, up, false);
      SetStates(sick, Unavailable);
      phase := Checked;
    }

    /** `__producer_remove_destroyed`: every `guests.remove(guest)`, which deletes the first equal dict,
        deletes the guest meant, because no two listed guests have the same address. */
    method RemoveDestroyed()
      requires Valid() && phase == Checked
      modifies this`phase, this`guests
      ensures Valid() && phase == Cleared
      ensures guests == Left(old(guests), DestroyedOf(old(guests)))
    {
      hide Left;
      var destroyed := GuestStates({Destroyed});
      ghost var before := guests;
      ghost var gone := DestroyedOf(before);
      RemoveEach(destroyed, gone);
      LeftMembers(before, gone);
      LeftDistinct(before, gone);
      phase := Cleared;
    }

    method RemoveEach(destroyed: seq<Guest>, ghost gone: set<Guest>)
      requires Distinct(destroyed) && Distinct(guests)
      requires forall i, j | 0 <= i < j < |guests| :: guests[i].guestIp != guests[j].guestIp
      requires forall g :: g in destroyed <==> g in gone
      requires gone <= set g | g in guests
      modifies this`guests
      ensures guests == Left(old(guests), gone)
    {
      hide Left;
      ghost var before := guests;
      ghost var done: set<Guest> := {};
      LeftNone(before);
      for i := 0 to |destroyed|
        invariant guests == Left(before, done)
        invariant forall g :: g in done <==> g in destroyed[..i]
      {
        var g := destroyed[i];
        assert g in gone;
        LeftMembers(before, done);
        var k := FirstEqual(g);
        LeftOneMore(before, done, g, k);
        guests := guests[..k] + guests[k + 1..];
        done := done + {g};
      }
      assert destroyed[..|destroyed|] == destroyed;
      assert done == gone;
    }

    method FirstEqual(g: Guest) returns (k: nat)
      requires g in guests && forall h | h in guests && h != g :: h.guestIp != g.guestIp
      ensures k < |guests| && guests[k] == g
    {
      k := 0;
      while !guests[k].Equals(g)
        invariant k < |guests| && g !in guests[..k]
        decreases |guests| - k
      {
        assert guests[k] != g;
        assert g in guests[k + 1..];
        k := k + 1;
      }
    }

    ghost predicate IpFree(ip: string)
      reads this, guests
    {
      forall g | g in guests :: g.guestIp != ip
    }

    method IsIpFree(ip: string) returns (r: bool)
      ensures r <==> IpFree(ip)
    {
      for i := 0 to |guests|
        invariant forall j | 0 <= j < i :: guests[j].guestIp != ip
      {
        if guests[i].guestIp == ip {
          return false;
        }
      }
      return true;
    }

    ghost predicate FirstFree(table: map<string, string>, picks: seq<string>, k: nat)
      requires forall mac | mac in picks :: mac in table
      reads this, guests
    {
      k < |picks| && IpFree(table[picks[k]]) && forall j | 0 <= j < k :: !IpFree(table[picks[j]])
    }

    /** `get_mac_ip`: the first of 500 picks whose address no listed guest has; None is LibvirtError. */
    method GetMacIp(table: map<string, string>, picks: seq<string>) returns (r: Option<(string, string)>)
      requires |picks| >= RETRIES && forall mac | mac in picks :: mac in table
      ensures r.Some? ==>
        exists k: nat :: k < 500 && FirstFree(table, picks, k) && r.value == (picks[k], table[picks[k]])
      ensures r == None ==> forall j | 0 <= j < 500 :: !IpFree(table[picks[j]])
    {
      var retries := 0;
      while retries < RETRIES
        invariant retries <= RETRIES
        invariant forall j | 0 <= j < retries :: !IpFree(table[picks[j]])
      {
        var mac := picks[retries];
        var ip := table[mac];
        var free := IsIpFree(ip);
        if free {
          assert FirstFree(table, picks, retries);
          return Some((mac, ip));
        }
        retries := retries + 1;
      }
      return None;
    }

    /** The host gets no guest up, or 500 picks in a row were taken. */
    ghost predicate Fails(table: map<string, string>, a: Attempt)
      requires Drawn(table, a)
      reads this, guests
    {
      a.domain == None || forall j | 0 <= j < RETRIES :: !IpFree(table[a.picks[j]])
    }

    /** One turn of `__producer_create_guests`; false when the host fails, which ends the producer. */
    method CreateGuest(table: map<string, string>, attempt: Attempt) returns (ok: bool)
      requires Valid() && phase == Cleared && |guests| < bound && Drawn(table, attempt)
      modifies this`guests, this`guestId, this`made
      ensures Valid() && (ok <==> !old(Fails(table, attempt)))
      ensures !ok ==> guests == old(guests) && guestId == old(guestId) && made == old(made)
      ensures ok ==>
        && |guests| == |old(guests)| + 1 && guests[..|old(guests)|] == old(guests) && made == old(made) + 1
        && fresh(guests[|old(guests)|]) && NewGuest(guests[|old(guests)|], table, attempt, old(made))
    {
      hide ListOk, GuestOk;
      var found := GetMacIp(table, attempt.picks);
      if found == None || attempt.domain == None {
        return false;
      }
      AddGuest(found.value.1, attempt.start, attempt.domain.value, attempt.snapshot);
      ok := true;
    }

    method AddGuest(ip: string, start: int, domain: int, snapshot: string)
      requires Valid() && phase == Cleared && |guests| < bound && IpFree(ip)
      modifies this`guests, this`guestId, this`made
      ensures Valid() && made == old(made) + 1
      ensures |guests| == |old(guests)| + 1 && guests[..|old(guests)|] == old(guests)
      ensures var g := guests[|old(guests)|];
        && fresh(g) && g.state == Created && g.guestIp == ip && g.domain == domain
        && g.serial == old(made) && g.id == old(made) % ID_LIMIT
    {
      hide RowOk, Alone, Serials, AllOk, PhaseOk, ListOk;
      var g := new Guest(guestId, ip, start, domain, snapshot, made);
      NewOk(g.View());
      ghost var before, rows := guests, Views();
      OkViews();
      NoneDead();
      ListParts();
      SerialsMore(guests, made, g);
      guests := guests + [g];
      made := made + 1;
      guestId := guestId + 1;
      if guestId == ID_LIMIT {
        guestId := 0;
      }
      OthersOk(rows, owed, isolated, g);
      ListGrown();
      assert forall h | h in guests && h != g :: h in before && h.View() == rows[h];
    }

    lemma ListParts()
      requires Valid()
      ensures Serials(guests, made) && guestId == made % ID_LIMIT && config.maxVm <= bound && 0 <= bound
    {
    }

    lemma ListGrown()
      requires Serials(guests, made) && guestId == made % ID_LIMIT && config.maxVm <= bound && |guests| <= bound
      ensures ListOk()
    {
    }

    /** `__producer_create_guests`: fills the pool up to its limit, one attempt per missing guest. */
    method CreateGuests(table: map<string, string>, attempts: seq<Attempt>) returns (ok: bool)
      requires Valid() && phase == Cleared && |attempts| >= config.maxVm
      requires forall a | a in attempts :: Drawn(table, a)
      modifies this`phase, this`guests, this`guestId, this`made
      ensures Valid()
      ensures |old(guests)| <= |guests| <= |old(guests)| + |attempts| && guests[..|old(guests)|] == old(guests)
      ensures made == old(made) + |guests| - |old(guests)|
      ensures forall k | |old(guests)| <= k < |guests| ::
        fresh(guests[k]) && NewGuest(guests[k], table, attempts[k - |old(guests)|], old(made) + k - |old(guests)|)
      ensures !ok ==>
        && phase == Cleared && |guests| < config.maxVm
        && Fails(table, attempts[|guests| - |old(guests)|])
      ensures ok ==>
        && phase == Filled && LiveCount(States()) == |guests|
        && |guests| == if config.maxVm > |old(guests)| then config.maxVm else |old(guests)|
    {
      hide ListOk, GuestOk, NewGuest;
      NoneDestroyed();
      var n := ExistingPoolSize();
      if config.maxVm > n {
        Room();
        ok := Refill(table, attempts, config.maxVm - n);
        if !ok {
          return;
        }
      }
      NoneDead();
      phase := Filled;
      NoneDestroyed();
      ok := true;
    }

    method Refill(table: map<string, string>, attempts: seq<Attempt>, count: nat) returns (ok: bool)
      requires Valid() && phase == Cleared && |attempts| >= count && |guests| + count <= bound
      requires forall a | a in attempts :: Drawn(table, a)
      modifies this`guests, this`guestId, this`made
      ensures Valid() && (ok ==> |guests| == |old(guests)| + count)
      ensures |old(guests)| <= |guests| <= |old(guests)| + count && guests[..|old(guests)|] == old(guests)
      ensures made == old(made) + |guests| - |old(guests)|
      ensures !ok ==> |guests| < |old(guests)| + count && Fails(table, attempts[|guests| - |old(guests)|])
      ensures forall k | |old(guests)| <= k < |guests| ::
        fresh(guests[k]) && NewGuest(guests[k], table, attempts[k - |old(guests)|], old(made) + k - |old(guests)|)
    {
      hide ListOk, GuestOk, NewGuest;
      ghost var before := guests;
      for i := 0 to count
        invariant Valid() && |guests| == |before| + i && guests[..|before|] == before && made == old(made) + i
        invariant forall k | |before| <= k < |guests| ::
            fresh(guests[k]) && NewGuest(guests[k], table, attempts[k - |before|], old(made) + k - |before|)
      {
        assert attempts[i] in attempts;
        ghost var prior := guests;
        ok := CreateGuest(table, attempts[i]);
        if !ok {
          return;
        }
        assert forall k | 0 <= k < |prior| :: guests[k] == prior[k] by {
          assert guests[..|prior|] == prior;
        }
        assert guests[..|before|] == prior[..|before|];
      }
      ok := true;
    }

    lemma NoneDead()
      requires Valid() && phase == Cleared
      ensures forall g | g in guests :: g.state != Destroyed
    {
    }

    lemma Room()
      requires Valid()
      ensures config.maxVm <= bound
    {
    }

    /** Between removal and refill every listed guest is alive. */
    lemma NoneDestroyed()
      requires forall g | g in guests :: g.state != Destroyed
      ensures LiveCount(States()) == |guests|
    {
      forall i | 0 <= i < |guests| ensures States()[i] != Destroyed {
        assert guests[i] in guests;
      }
      AllLive(States());
    }

    ghost predicate AnyBooted(up: set<string>)
      reads this, guests
    {
      exists g :: g in guests && g.state == Created && g.guestIp in up
    }

    /** `__producer_mark_available`. */
    method MarkAvailable(up: set<string>)
      requires Valid() && phase == Filled
      modifies this`phase, this`anyVmUp, guests
      ensures Valid() && phase == Top
      ensures forall g | g in guests ::
        Marks(old(g.View()), g.View(), old(g.state) == Created && g.guestIp in up, Available)
      ensures anyVmUp == (old(anyVmUp) || old(AnyBooted(up)))
    {
      hide ListOk, GuestOk;
      var created := GuestStates({Created});
      var booted := Answering(created, up, true);
      ghost var any := AnyBooted(up);
      if |booted| > 0 {
        assert booted[0] in booted;
      }
      assert any <==> |booted| > 0;
      SetStates(booted, Available);
      anyVmUp := anyVmUp || |booted| > 0;
      phase := Top;
    }
  }
}
