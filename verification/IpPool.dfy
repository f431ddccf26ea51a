/**
 The IPv4 address pool (api/ippool/ippool.go, api/ippool/set.go), run by one caller
 at a time. Module PoolProtocol covers interleaved callers.
 */
module IpPool {
  import opened Text
  import opened IpGenerator

  class IPSet {
    var ipaddress: set<string>

    constructor ()
      ensures ipaddress == {}
    {
      ipaddress := {};
    }

    method Add(value: string)
      modifies this
      ensures ipaddress == old(ipaddress) + {value}
    {
      ipaddress := ipaddress + {value};
    }

    method Remove(value: string)
      modifies this
      ensures ipaddress == old(ipaddress) - {value}
    {
      ipaddress := ipaddress - {value};
    }

    predicate Contains(value: string)
      reads this
    {
      value in ipaddress
    }
  }

  /** Every address of the subnet is in the pool. */
  ghost predicate AllTaken(s: Subnet, pool: set<string>)
    requires s.Valid()
  {
    forall ip: IPv4 :: s.Contains(ip) ==> Dotted(ip) in pool
  }

  /** The first `k` draws from counter value `c` are taken. */
  predicate TakenFor(s: Subnet, pool: set<string>, c: nat, k: nat) {
    forall j :: 0 <= j < k ==> KeyAfter(s, c, j) in pool
  }

  lemma TakenNone(s: Subnet, pool: set<string>, c: nat)
    ensures TakenFor(s, pool, c, 0)
  {
  }

  /** The key of the `j`-th draw from counter value `c`. */
  function KeyAfter(s: Subnet, c: nat, j: nat): string {
    Dotted(AddressAt(s, c + j))
  }

  /** A full cycle of taken draws means that the subnet is exhausted, and conversely. */
  lemma FullCycleTaken(s: Subnet, pool: set<string>, c: nat)
    requires s.Valid()
    ensures TakenFor(s, pool, c, s.Size()) <==> AllTaken(s, pool)
  {
    hide AddressAt, Dotted;
    if TakenFor(s, pool, c, s.Size()) {
      forall ip: IPv4 | s.Contains(ip) ensures Dotted(ip) in pool {
        var k := Distance(s, c, ip);
        WrapInvisible(s, c + k);
        DrawsCoverSubnet(s, c, ip, k);
        assert KeyAfter(s, c, k) in pool;
      }
    }
    if AllTaken(s, pool) {
      forall j: nat | j < s.Size() ensures KeyAfter(s, c, j) in pool {
        DrawnInSubnet(s, c + j);
      }
    }
  }

  /**
   What one assignment gives from counter value `c` after `draws` draws: the first
   free address in cyclic order, or nothing exactly when the subnet is exhausted.
   */
  ghost predicate Assigned(s: Subnet, pool: set<string>, c: nat, r: Option<IPv4>, draws: nat)
    requires s.Valid()
  {
    && 1 <= draws <= s.Size() + 1
    && (r.None? <==> AllTaken(s, pool))
    && (r.None? ==> draws == s.Size() + 1)
    && (r.Some? ==>
          && TakenFor(s, pool, c, draws - 1)
          && r.value == AddressAt(s, c + draws - 1)
          && s.Contains(r.value)
          && Dotted(r.value) !in pool)
  }

  /** A free draw after `k` taken ones ends the search. */
  lemma FreeDrawEnds(s: Subnet, pool: set<string>, c: nat, k: nat)
    requires s.Valid() && k <= s.Size()
    requires TakenFor(s, pool, c, k) && KeyAfter(s, c, k) !in pool
    ensures Assigned(s, pool, c, Some(AddressAt(s, c + k)), k + 1)
  {
    hide AddressAt, Dotted;
    DrawnInSubnet(s, c + k);
    assert c + (k + 1) - 1 == c + k;
  }

  /** A taken draw ends it only when the cycle is closed, and extends it otherwise. */
  lemma TakenDraw(s: Subnet, pool: set<string>, c: nat, k: nat)
    requires s.Valid() && k <= s.Size()
    requires TakenFor(s, pool, c, k) && KeyAfter(s, c, k) in pool
    ensures TakenFor(s, pool, c, k + 1)
    ensures k > 0 && AddressAt(s, c + k) == AddressAt(s, c) ==> Assigned(s, pool, c, None, k + 1)
    ensures k > 0 && AddressAt(s, c + k) != AddressAt(s, c) ==> k < s.Size()
  {
    hide AddressAt, Dotted, AllTaken;
    FullCycleTaken(s, pool, c);
    DrawsDistinct(s, c, k);
  }

  class IPPool {
    const generator: IPGenerater
    const pool: IPSet

    ghost predicate Valid()
      reads this, generator
    {
      generator.Valid()
    }

    constructor (subnet: Subnet)
      requires subnet.Valid()
      ensures Valid() && fresh(generator) && fresh(pool)
      ensures generator.subnet == subnet && generator.counter == 0
      ensures pool.ipaddress == {Dotted(subnet.net), Dotted(BroadcastIP(subnet))}
      ensures ToWord(BroadcastIP(subnet)) == ToWord(subnet.net) + subnet.Size() - 1
    {
      var g := new IPGenerater(subnet);
      var p := new IPSet();
      p.Add(Dotted(g.subnet.net));
      p.Add(Dotted(BroadcastIP(g.subnet)));
      BroadcastAddress(subnet);
      generator, pool := g, p;
    }

    /**
     Assigns the first free address in cyclic order from the counter and adds
     exactly that one; gives nothing, and leaves the pool alone, exactly when every
     address of the subnet is taken. `draws` counts the draws from the counter.
     */
    method AssignNewIPv4() returns (r: Option<IPv4>, ghost draws: nat)
      requires Valid()
      modifies generator`counter, pool
      ensures Valid() && generator.counter == Wrapped(old(generator.counter) + draws)
      ensures Assigned(generator.subnet, old(pool.ipaddress), old(generator.counter), r, draws)
      ensures pool.ipaddress == old(pool.ipaddress) + if r.Some? then {Dotted(r.value)} else {}
    {
      hide AddressAt, Dotted, Assigned, AllTaken, Wrapped, TakenFor;
      ghost var c, s, before := generator.counter, generator.subnet, pool.ipaddress;
      TakenNone(s, before, c);
      var startNewIP, _ := generator.NextIP([]);
      draws := 1;
      assert KeyAfter(s, c, 0) == Dotted(startNewIP);
      if !pool.Contains(Dotted(startNewIP)) {
        FreeDrawEnds(s, before, c, 0);
        pool.Add(Dotted(startNewIP));
        return Some(startNewIP), draws;
      }
      TakenDraw(s, before, c, 0);
      while true
        invariant Valid() && 1 <= draws <= s.Size()
        invariant generator.counter == Wrapped(c + draws)
        invariant pool.ipaddress == before
        invariant TakenFor(s, before, c, draws)
        decreases s.Size() - draws
      {
        WrapInvisible(s, c + draws);
        WrappedTwice(c + draws, 1);
        var newIP, _ := generator.NextIP([]);
        assert KeyAfter(s, c, draws) == Dotted(newIP);
        draws := draws + 1;
        if !pool.Contains(Dotted(newIP)) {
          FreeDrawEnds(s, before, c, draws - 1);
          pool.Add(Dotted(newIP));
          return Some(newIP), draws;
        }
        TakenDraw(s, before, c, draws - 1);
        if startNewIP == newIP {
          return None, draws;
        }
      }
    }

    /** Gives an address back; every other key stays. */
    method RetrieveIPv4(retrieveIP: string)
      requires Valid()
      modifies pool
      ensures pool.ipaddress == old(pool.ipaddress) - {retrieveIP}
    {
      if pool.Contains(retrieveIP) {
        pool.Remove(retrieveIP);
      }
    }

    method UpdateAllocateddIPv4(allocatedIP: string)
      requires Valid()
      modifies pool
      ensures pool.ipaddress == old(pool.ipaddress) + {allocatedIP}
    {
      if !pool.Contains(allocatedIP) {
        pool.Add(allocatedIP);
      }
    }

    /** Marks an address of the subnet as taken; refuses any other text. */
    method CheckSubnetAndUpdateIPPool(ip: string) returns (inSubnet: bool)
      requires Valid()
      modifies pool
      ensures inSubnet <==> exists a: IPv4 :: generator.subnet.Contains(a) && ip == Dotted(a)
      ensures pool.ipaddress == if inSubnet then old(pool.ipaddress) + {ip} else old(pool.ipaddress)
    {
      var parsed := ParseDotted(ip);
      forall a: IPv4 ensures parsed == Some(a) <==> ip == Dotted(a) { DottedRoundTrip(ip, a); }
      inSubnet := parsed.Some? && generator.subnet.Contains(parsed.value);
      if inSubnet {
        UpdateAllocateddIPv4(ip);
      }
    }
  }
}
