/** Whole runs of the VM pool: the producer goes on phase by phase, and between any two phases clients
    request guests and hand them back, and the configuration may change. */
module PoolRuns {
  import opened Options
  import opened Pool

  datatype Step =
    | Configure(maxVm: nat, timeout: nat, share: bool)
    | Request(ip: string)
      /** The client of the `k`-th open connection disconnects, through `free_vm` if it left the guest
          dirty and through `reuse_vm` if not. */
    | Release(k: nat, dirty: bool, now: nat)
      /** The next phase of the producer, with what the host answers in it. */
    | Produce(now: nat, up: set<string>, stuck: set<int>, attempts: seq<Attempt>)

  /** The random choice of `get_mac_ip` picks MACs of the table. */
  predicate FromTable(s: Step, table: map<string, string>) {
    s.Produce? ==> forall a | a in s.attempts :: Drawn(table, a)
  }

  /** No sharing and no release other than through `free_vm`. */
  predicate Private(s: Step) {
    (s.Configure? ==> !s.share) && (s.Release? ==> s.dirty)
  }

  predicate Limited(s: Step, limit: int) {
    s.Configure? ==> s.maxVm <= limit
  }

  function WithoutAt<T>(s: seq<T>, k: nat): seq<T>
    requires k < |s|
  {
    s[..k] + s[k + 1..]
  }

  lemma OneLess<T>(s: seq<T>, k: nat)
    requires k < |s|
    ensures multiset(s)[s[k]] > 0
    ensures multiset(WithoutAt(s, k)) == multiset(s) - multiset{s[k]}
  {
    assert s == s[..k] + ([s[k]] + s[k + 1..]);
  }

  lemma OneMore<T>(s: seq<T>, x: T)
    ensures multiset(s + [x]) == multiset(s) + multiset{x}
  {
  }

  /** All listed addresses are addresses of the table. */
  predicate Addressed(gs: seq<Guest>, table: map<string, string>) {
    forall g | g in gs :: g.guestIp in table.Values
  }

  /** The release of a guest; it is not sent when it would be a wrong one, which `wrong` says: the first
      listed guest with the id is another. */
  method Disconnect(pool: PoolService, guest: Guest, dirty: bool, now: nat) returns (wrong: bool)
    requires pool.Valid() && pool.owed[guest] > 0
    modifies pool`owed, pool`isolated, pool`lastFreed, pool.guests
    ensures pool.Valid()
    ensures wrong <==> !pool.Right(guest.id, Some(guest))
    ensures pool.owed == if wrong then old(pool.owed) else old(pool.owed) - multiset{guest}
    ensures dirty ==> pool.isolated == old(pool.isolated)
    ensures pool.lastFreed ==
      if !wrong && dirty && guest in pool.guests then old(pool.lastFreed)[guest := now] else old(pool.lastFreed)
  {
    hide PoolService.ListOk, PoolService.AllOk;
    var k := pool.FindId(guest.id);
    wrong := k < |pool.guests| && pool.guests[k] != guest;
    if !wrong {
      pool.Release(guest.id, dirty, now, Some(guest));
    }
  }

  /** The order of the phases; the sweep for timed-out guests only happens in a pool of several. */
  function After(phase: Phase, several: bool): Phase {
    match phase
    case Top => if several then Marked else Swept
    case Marked => Swept
    case Swept => Checked
    case Checked => Cleared
    case Cleared => Filled
    case Filled => Top
  }

  /** One phase; false when the host fails and the producer ends. */
  method Advance(pool: PoolService, table: map<string, string>, s: Step, phase: Phase) returns (ok: bool, next: Phase)
    requires pool.Valid() && pool.phase == phase && s.Produce? && FromTable(s, table)
    requires phase == Cleared ==> |s.attempts| >= pool.config.maxVm
    modifies pool`phase, pool`guests, pool`guestId, pool`made, pool`anyVmUp, pool.guests
    ensures old(Addressed(pool.guests, table)) ==> Addressed(pool.guests, table)
    ensures pool.Valid() && (forall g | g in pool.guests :: g in old(pool.guests) || fresh(g))
    ensures pool.phase == next && (ok || phase == Cleared)
    ensures next == if ok then After(phase, old(LiveCount(pool.States()) > 1)) else phase
  {
    hide PoolService.ListOk, PoolService.AllOk;
    ok, next := true, phase;
    match phase
    case Top =>
      var sweep := pool.BeginLoop();
      if sweep {
        pool.MarkTimedOut(pool.config.timeout, s.now);
        next := Marked;
      } else {
        next := Swept;
      }
    case Marked =>
      pool.DestroyTimedOut(s.stuck);
      next := Swept;
    case Swept =>
      pool.CheckHealth(s.up);
      next := Checked;
    case Checked =>
      LeftMembers(pool.guests, DestroyedOf(pool.guests));
      pool.RemoveDestroyed();
      next := Cleared;
    case Cleared =>
      ghost var before, made := pool.guests, pool.made;
      ok := pool.CreateGuests(table, s.attempts);
      if Addressed(before, table) {
        StillAddressed(before, pool.guests, made, table, s);
      }
      next := if ok then Filled else Cleared;
    case Filled =>
      pool.MarkAvailable(s.up);
      next := Top;
  }

  lemma StillAddressed(before: seq<Guest>, after: seq<Guest>, made: nat, table: map<string, string>, s: Step)
    requires Addressed(before, table) && |before| <= |after| && after[..|before|] == before
    requires s.Produce? && FromTable(s, table) && |after| - |before| <= |s.attempts|
    requires forall k | |before| <= k < |after| ::
        NewGuest(after[k], table, s.attempts[k - |before|], made + k - |before|)
    ensures Addressed(after, table)
  {
    forall g | g in after ensures g.guestIp in table.Values {
      var k :| 0 <= k < |after| && after[k] == g;
      if k < |before| {
        assert after[..|before|][k] == g && g in before;
      } else {
        var a := s.attempts[k - |before|];
        assert a in s.attempts && Drawn(table, a) && NewGuest(g, table, a, made + k - |before|);
        var j :| 0 <= j < RETRIES && g.guestIp == table[a.picks[j]];
        assert a.picks[j] in a.picks;
      }
    }
  }

  /** The history after a step: only a release through `free_vm` writes it, with its own time. */
  ghost function Stamps(stamps: map<Guest, int>, gs: seq<Guest>, s: Step, open: seq<Guest>, halt: bool)
    : map<Guest, int>
  {
    if s.Release? && s.dirty && s.k < |open| && !halt && open[s.k] in gs then stamps[open[s.k] := s.now] else stamps
  }

  /** A client comes or goes; `halt` says that a release would be a wrong one, `stop` that a request
      stopped the pool. */
  method Client(pool: PoolService, s: Step, open: seq<Guest>) returns (still: seq<Guest>, stop: bool, halt: bool)
    requires pool.Valid() && pool.owed == multiset(open) && (s.Request? || s.Release?)
    modifies pool`owed, pool`isolated, pool`lastFreed, pool.guests
    ensures pool.Valid() && pool.owed == multiset(still)
    ensures old(pool.isolated) && !pool.config.share && Private(s) ==> pool.isolated
    ensures pool.lastFreed == Stamps(old(pool.lastFreed), pool.guests, s, open, halt)
  {
    hide PoolService.Valid;
    still, stop, halt := open, false, false;
    if s.Request? {
      var r;
      r, stop := pool.RequestVm(s.ip);
      if r.Some? {
        OneMore(open, r.value);
        still := open + [r.value];
      }
    } else if s.k < |open| {
      OneLess(open, s.k);
      halt := Disconnect(pool, open[s.k], s.dirty, s.now);
      still := if halt then open else WithoutAt(open, s.k);
    }
  }

  /** One step, with the open connections and the place of the producer, which is None once it has died,
      going in and out; `halt` says that a release would be a wrong one.  A pool that is stopped between
      two rounds of its producer loses it.  A refill needs an answer of the
      host for every guest that may be missing. */
  method Take(pool: PoolService, table: map<string, string>, s: Step, open: seq<Guest>, phase: Option<Phase>,
              ghost limit: int)
      returns (still: seq<Guest>, next: Option<Phase>, halt: bool)
    requires pool.Valid() && (phase.Some? ==> phase.value == pool.phase) && pool.owed == multiset(open)
    requires FromTable(s, table)
    requires pool.bound <= limit && Limited(s, limit) && Addressed(pool.guests, table)
    modifies pool, pool.guests
    ensures pool.Valid() && (next.Some? ==> next.value == pool.phase) && pool.owed == multiset(still)
    ensures forall g | g in pool.guests :: g in old(pool.guests) || fresh(g)
    ensures old(pool.isolated) && !old(pool.config).share && Private(s) ==> pool.isolated && !pool.config.share
    ensures pool.bound <= limit && Addressed(pool.guests, table)
    ensures pool.lastFreed == Stamps(old(pool.lastFreed), old(pool.guests), s, open, halt)
  {
    hide PoolService.Valid;
    still, next, halt := open, phase, false;
    if s.Configure? {
      pool.SetConfigs(s.maxVm, s.timeout, s.share);
    } else if !s.Produce? {
      var stop;
      still, stop, halt := Client(pool, s, open);
      next := if stop && phase == Some(Top) then None else phase;
    } else if phase.Some? && (phase.value == Cleared ==> |s.attempts| >= pool.config.maxVm) {
      var ok, after := Advance(pool, table, s, phase.value);
      next := if ok then Some(after) else None;
    }
  }

  /** Whatever happens and in whatever order, from an idle pool that nobody is connected to: every guest
      counts exactly its open connections; a guest that may be marked timed out, given away or found
      booted has none; a used guest shows the time of its last release; the list stays within the largest
      limit ever set; all addresses differ and are of the table; and without sharing and with dirty
      releases only, no guest serves two clients. */
  method Run(pool: PoolService, table: map<string, string>, steps: seq<Step>, ghost limit: int)
      returns (open: seq<Guest>)
    requires pool.Valid() && pool.phase == Top && pool.owed == multiset{}
    requires forall s | s in steps :: FromTable(s, table)
    requires pool.bound <= limit && (forall s | s in steps :: Limited(s, limit)) && Addressed(pool.guests, table)
    modifies pool, pool.guests
    ensures pool.Valid() && pool.owed == multiset(open)
    ensures forall g | g in pool.guests :: g.connected == multiset(open)[g]
    ensures forall g | g in pool.guests && g.state in {Created, Available, Used} :: g !in open && g.connected == 0
    ensures forall g | g in pool.guests && g in open :: g.connected > 0 && g.prevState.Some?
    ensures forall g | g in pool.guests && g.state == Used :: g in pool.lastFreed && g.freed == pool.lastFreed[g]
    ensures |pool.guests| <= limit && Addressed(pool.guests, table)
    ensures forall i, j | 0 <= i < j < |pool.guests| :: pool.guests[i].guestIp != pool.guests[j].guestIp
    ensures old(pool.isolated) && !old(pool.config).share && (forall s | s in steps :: Private(s)) ==>
        forall g | g in pool.guests :: Alone(g.View())
  {
    hide PoolService.Valid;
    open := [];
    var phase := Some(Top);
    for i := 0 to |steps|
      invariant pool.Valid() && (phase.Some? ==> phase.value == pool.phase) && pool.owed == multiset(open)
      invariant forall g | g in pool.guests :: g in old(pool.guests) || fresh(g)
      invariant old(pool.isolated) && !old(pool.config).share && (forall s | s in steps :: Private(s)) ==>
          pool.isolated && !pool.config.share
      invariant pool.bound <= limit && Addressed(pool.guests, table)
    {
      assert steps[i] in steps;
      var halt;
      assert forall j | 0 <= j < |pool.guests| :: pool.guests[j] in old(pool.guests) || fresh(pool.guests[j]);
      open, phase, halt := Take(pool, table, steps[i], open, phase, limit);
      if halt {
        break;
      }
    }
    Meaning(pool, open);
  }

  /** What the invariant of the pool says about each guest. */
  lemma Meaning(pool: PoolService, open: seq<Guest>)
    requires pool.Valid() && pool.owed == multiset(open)
    ensures forall g | g in pool.guests :: g.connected == multiset(open)[g]
    ensures forall g | g in pool.guests && g.state in {Created, Available, Used} :: g !in open && g.connected == 0
    ensures forall g | g in pool.guests && g in open :: g.connected > 0 && g.prevState.Some?
    ensures forall i, j | 0 <= i < j < |pool.guests| :: pool.guests[i].guestIp != pool.guests[j].guestIp
    ensures |pool.guests| <= pool.bound
    ensures forall g | g in pool.guests && g.state == Used :: g in pool.lastFreed && g.freed == pool.lastFreed[g]
    ensures pool.isolated ==> forall g | g in pool.guests :: Alone(g.View())
  {
    forall g | g in pool.guests
      ensures g.connected == multiset(open)[g]
      ensures g.connected > 0 ==> g.prevState.Some?
      ensures g.state in {Created, Available, Used} ==> g.connected == 0
      ensures g.state == Used ==> g in pool.lastFreed && g.freed == pool.lastFreed[g]
    {
      assert pool.GuestOk(g);
    }
    forall i, j | 0 <= i < j < |pool.guests| ensures pool.guests[i].guestIp != pool.guests[j].guestIp {
      assert Apart(pool.guests[i], pool.guests[j]);
    }
  }
}
