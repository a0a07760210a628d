/** The MAC and IP table of `backend_pool/util.py`. */
module Network {
  import opened Options
  import opened Numerals

  const HEX := "0123456789abcdef"

  /** `hex(n)[2:].zfill(2)`. */
  function ToByte(n: nat): string
    requires n < 256
  {
    [HEX[n / 16], HEX[n % 16]]
  }

  const PREFIX := "48:d2:24:bf:"

  function Mac(pair: (nat, nat)): string
    requires pair.0 < 256 && pair.1 < 256
  {
    PREFIX + ToByte(pair.0) + ":" + ToByte(pair.1)
  }

  function Address(counter: nat): string {
    "192.168.150." + Decimal(counter)
  }

  lemma AddressInjective(m: nat, n: nat)
    ensures Address(m) == Address(n) ==> m == n
  {
    assert Address(m)[|"192.168.150."|..] == Decimal(m);
    assert Address(n)[|"192.168.150."|..] == Decimal(n);
    DecimalInjective(m, n);
  }

  const SIZE := 253

  /** The MACs in the order in which the table was filled, which got the addresses from 2 on. */
  ghost predicate Filled(table: map<string, string>, order: seq<string>) {
    && (forall i, j | 0 <= i < j < |order| :: order[i] != order[j])
    && (forall mac :: mac in table <==> mac in order)
    && (forall i | 0 <= i < |order| :: order[i] in table && table[order[i]] == Address(i + 2))
  }

  ghost predicate Given(table: map<string, string>, n: nat) {
    exists mac :: mac in table && table[mac] == Address(n)
  }

  lemma FilledNone()
    ensures Filled(map[], [])
  {
  }

  lemma FilledMore(table: map<string, string>, order: seq<string>, mac: string)
    requires Filled(table, order) && mac !in order
    ensures Filled(table[mac := Address(|order| + 2)], order + [mac])
  {
    var more, longer := table[mac := Address(|order| + 2)], order + [mac];
    forall i | 0 <= i < |longer| ensures longer[i] in more && more[longer[i]] == Address(i + 2) {
      if i < |order| {
        assert order[i] in order && longer[i] == order[i];
      }
    }
  }

  /** 253 MACs, the addresses 2 to 254, each given to exactly one MAC. */
  lemma TableIsBijection(table: map<string, string>, order: seq<string>)
    requires Filled(table, order) && |order| == SIZE
    ensures forall m, n | m in table && n in table && table[m] == table[n] :: m == n
    ensures forall mac | mac in table :: exists n: nat :: 2 <= n < 255 && table[mac] == Address(n)
    ensures forall n: nat | 2 <= n < 255 :: Given(table, n)
  {
    forall m, n | m in table && n in table && table[m] == table[n] ensures m == n {
      var i :| 0 <= i < |order| && order[i] == m;
      var j :| 0 <= j < |order| && order[j] == n;
      AddressInjective(i + 2, j + 2);
    }
    forall mac | mac in table ensures exists n: nat :: 2 <= n < 255 && table[mac] == Address(n) {
      var i :| 0 <= i < |order| && order[i] == mac;
      assert table[mac] == Address(i + 2);
    }
    forall n: nat | 2 <= n < 255 ensures Given(table, n) {
      assert order[n - 2] in table && table[order[n - 2]] == Address(n);
    }
  }

  /** The MACs drawn until there are 253 different ones; None when the draws run out before. */
  method DrawMacs(draws: seq<(nat, nat)>) returns (r: Option<set<string>>)
    requires forall d | d in draws :: d.0 < 256 && d.1 < 256
    ensures r.Some? ==> |r.value| == SIZE && forall mac | mac in r.value :: exists d :: d in draws && mac == Mac(d)
    ensures r == None ==> |set d | d in draws :: Mac(d)| < SIZE
  {
    var macs: set<string> := {};
    var next := 0;
    while |macs| < SIZE
      invariant next <= |draws| && macs == (set d | d in draws[..next] :: Mac(d)) && |macs| <= SIZE
      decreases |draws| - next
    {
      if next == |draws| {
        assert draws[..next] == draws;
        return None;
      }
      assert forall d :: d in draws[..next + 1] <==> d in draws[..next] || d == draws[next];
      macs := macs + {Mac(draws[next])};
      next := next + 1;
    }
    return Some(macs);
  }

  /** `generate_network_table`, given the random pairs it draws. */
  method GenerateNetworkTable(draws: seq<(nat, nat)>)
    returns (r: Option<map<string, string>>, ghost order: seq<string>)
    requires forall d | d in draws :: d.0 < 256 && d.1 < 256
    ensures r.Some? ==>
      && |order| == SIZE && Filled(r.value, order)
      && forall mac | mac in r.value :: exists d :: d in draws && mac == Mac(d)
    ensures r == None ==> |set d | d in draws :: Mac(d)| < SIZE
  {
    hide Filled, Address, Mac;
    order := [];
    FilledNone();
    var macs := DrawMacs(draws);
    if macs == None {
      return None, order;
    }
    var table := map[];
    var counter := 2;
    var left := macs.value;
    while left != {}
      invariant left <= macs.value && Filled(table, order) && counter == 2 + |order|
      invariant |order| + |left| == SIZE
      invariant forall mac | mac in macs.value :: mac in left <==> mac !in order
      invariant forall mac | mac in order :: mac in macs.value
      decreases left
    {
      var mac :| mac in left;
      FilledMore(table, order, mac);
      table := table[mac := Address(counter)];
      order := order + [mac];
      left := left - {mac};
      counter := counter + 1;
    }
    FilledKeys(table, order);
    r := Some(table);
  }

  lemma FilledKeys(table: map<string, string>, order: seq<string>)
    requires Filled(table, order)
    ensures forall mac :: mac in table <==> mac in order
  {
  }

  /** Different pairs of random bytes give different MACs. */
  lemma MacInjective(p: (nat, nat), q: (nat, nat))
    requires p.0 < 256 && p.1 < 256 && q.0 < 256 && q.1 < 256
    ensures Mac(p) == Mac(q) ==> p == q
  {
    if Mac(p) == Mac(q) {
      assert Mac(p)[12..14] == ToByte(p.0) && Mac(q)[12..14] == ToByte(q.0);
      assert Mac(p)[15..] == ToByte(p.1) && Mac(q)[15..] == ToByte(q.1);
      ByteInjective(p.0, q.0);
      ByteInjective(p.1, q.1);
    }
  }

  lemma ByteInjective(m: nat, n: nat)
    requires m < 256 && n < 256
    ensures ToByte(m) == ToByte(n) ==> m == n
  {
    if ToByte(m) == ToByte(n) {
      assert ToByte(m)[0] == HEX[m / 16] && ToByte(m)[1] == HEX[m % 16];
      assert ToByte(n)[0] == HEX[n / 16] && ToByte(n)[1] == HEX[n % 16];
      HexInjective(m / 16, n / 16);
      HexInjective(m % 16, n % 16);
    }
  }

  lemma HexInjective(i: nat, j: nat)
    requires i < 16 && j < 16 && HEX[i] == HEX[j]
    ensures i == j
  {
  }

  lemma TableExample()
    ensures Mac((0, 255)) == "48:d2:24:bf:00:ff" && Mac((171, 9)) == "48:d2:24:bf:ab:09"
    ensures Address(2) == "192.168.150.2"
  {
    assert ToByte(0) == "00" && ToByte(255) == "ff" && ToByte(171) == "ab" && ToByte(9) == "09";
    assert Decimal(2) == "2";
  }
}
