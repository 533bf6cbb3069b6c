/** The ARP cache: two parallel arrays that behave as a map of at most 256 entries. */
module Arp {
  import opened Bits
  import opened TcpSpec

  const ETH_ALEN := 6
  const CACHE_SIZE := 256

  type Mac = m: seq<Byte> | |m| == ETH_ALEN witness [0, 0, 0, 0, 0, 0]

  datatype Entry = Entry(ip: Seq32, mac: Mac)

  // ---- the cache as a list of entries ----

  /** The first entry at or after `from` for this address, or the length of the list. */
  function FindFrom(cache: seq<Entry>, ip: Seq32, from: nat): (r: nat)
    requires from <= |cache|
    ensures from <= r <= |cache|
    ensures r < |cache| ==> cache[r].ip == ip
    ensures forall i :: from <= i < r ==> cache[i].ip != ip
    decreases |cache| - from
  {
    if from == |cache| || cache[from].ip == ip then from else FindFrom(cache, ip, from + 1)
  }

  function Lookup(cache: seq<Entry>, ip: Seq32): Option<Mac> {
    var i := FindFrom(cache, ip, 0);
    if i < |cache| then Some(cache[i].mac) else None
  }

  function Add(cache: seq<Entry>, e: Entry): seq<Entry> {
    var i := FindFrom(cache, e.ip, 0);
    if i < |cache| then cache[i := e]
    else if |cache| < CACHE_SIZE then cache + [e]
    else cache
  }

  // ---- runs ----

  function AddAll(adds: seq<Entry>): seq<Entry> {
    if adds == [] then [] else Add(AddAll(adds[..|adds| - 1]), adds[|adds| - 1])
  }

  /** The distinct addresses of a run, in the order in which they first occur. */
  function FirstSeen(adds: seq<Entry>): (r: seq<Seq32>)
    ensures forall i, j :: 0 <= i < j < |r| ==> r[i] != r[j]
    ensures forall ip :: ip in r <==> exists k :: 0 <= k < |adds| && adds[k].ip == ip
  {
    if adds == [] then [] else
      var before := FirstSeen(adds[..|adds| - 1]);
      var e := adds[|adds| - 1];
      assert forall k :: 0 <= k < |adds| - 1 ==> adds[..|adds| - 1][k] == adds[k];
      if e.ip in before then before else before + [e.ip]
  }

  /** The hardware address most recently announced for `ip`. */
  function Latest(adds: seq<Entry>, ip: Seq32): Option<Mac> {
    if adds == [] then None
    else if adds[|adds| - 1].ip == ip then Some(adds[|adds| - 1].mac)
    else Latest(adds[..|adds| - 1], ip)
  }

  /** The addresses that found room: the first 256 distinct ones. */
  function Admitted(adds: seq<Entry>): seq<Seq32> {
    var seen := FirstSeen(adds);
    if |seen| <= 256 then seen else seen[..256]
  }

  /** The cache holds exactly the admitted addresses, in order, each with its latest hardware address. */
  ghost predicate Refines(cache: seq<Entry>, adds: seq<Entry>) {
    && |cache| == |Admitted(adds)|
    && forall i :: 0 <= i < |cache| ==> cache[i].ip == Admitted(adds)[i] && Latest(adds, cache[i].ip) == Some(cache[i].mac)
  }

  lemma AddRefines(cache: seq<Entry>, adds: seq<Entry>, e: Entry)
    requires Refines(cache, adds)
    ensures Refines(Add(cache, e), adds + [e])
  {
    var seen, all := FirstSeen(adds), adds + [e];
    assert all[..|all| - 1] == adds;
    var at := FindFrom(cache, e.ip, 0);
    if e.ip in seen && at == |cache| {
      assert e.ip !in Admitted(adds);
    }
    if at < |cache| {
      assert Admitted(adds)[at] in seen;
    }
    forall i | 0 <= i < |Add(cache, e)|
      ensures Latest(all, Add(cache, e)[i].ip) == Some(Add(cache, e)[i].mac)
    {
      if i < |cache| && i != at {
        assert Admitted(adds)[i] != e.ip;
      }
    }
  }

  lemma {:induction false} RunRefines(adds: seq<Entry>)
    ensures Refines(AddAll(adds), adds)
  {
    if adds != [] {
      var n := |adds| - 1;
      RunRefines(adds[..n]);
      AddRefines(AddAll(adds[..n]), adds[..n], adds[n]);
      assert adds[..n] + [adds[n]] == adds;
    }
  }

  /**
   * After any run of announcements a lookup returns the latest hardware address of every one of the
   * first 256 distinct addresses, and nothing for any other; no address is stored twice.
   */
  lemma RunIsBoundedMap(adds: seq<Entry>, ip: Seq32)
    ensures Lookup(AddAll(adds), ip) == if ip in Admitted(adds) then Latest(adds, ip) else None
    ensures forall i, j :: 0 <= i < j < |AddAll(adds)| ==> AddAll(adds)[i].ip != AddAll(adds)[j].ip
    ensures |AddAll(adds)| <= 256
  {
    RunRefines(adds);
    var cache := AddAll(adds);
    var at := FindFrom(cache, ip, 0);
    if at < |cache| {
      assert Admitted(adds)[at] == ip;
    }
    if ip in Admitted(adds) {
      var k :| 0 <= k < |Admitted(adds)| && Admitted(adds)[k] == ip;
      assert cache[k].ip == ip;
    }
  }

  // ---- the arrays ----

  class ArpCache {
    const ips: array<Seq32>
    const macs: array<Mac>
    var count: nat

    ghost predicate Valid()
      reads this
    {
      ips.Length == CACHE_SIZE && macs.Length == CACHE_SIZE && count <= CACHE_SIZE
    }

    function Entries(): (r: seq<Entry>)
      requires Valid()
      reads this, ips, macs
      ensures |r| == count
    {
      seq(count, i requires 0 <= i < count && Valid() reads this, ips, macs => Entry(ips[i], macs[i]))
    }

    /** arp_init */
    constructor ()
      ensures Valid() && Entries() == [] && fresh(ips) && fresh(macs)
    {
      ips := new Seq32[CACHE_SIZE](_ => 0);
      macs := new Mac[CACHE_SIZE](_ => [0, 0, 0, 0, 0, 0]);
      count := 0;
    }

    /** arp_lookup */
    method Find(ip: Seq32) returns (mac: Option<Mac>)
      requires Valid()
      ensures mac == Lookup(Entries(), ip)
    {
      var i := 0;
      while i < count
        invariant i <= count
        invariant FindFrom(Entries(), ip, 0) == FindFrom(Entries(), ip, i)
      {
        if ips[i] == ip {
          return Some(macs[i]);
        }
        i := i + 1;
      }
      return None;
    }

    /** arp_add */
    method Insert(ip: Seq32, mac: Mac)
      requires Valid()
      modifies this`count, ips, macs
      ensures Valid() && Entries() == Add(old(Entries()), Entry(ip, mac))
    {
      ghost var before := Entries();
      var i := 0;
      while i < count
        invariant i <= count && Entries() == before
        invariant FindFrom(before, ip, 0) == FindFrom(before, ip, i)
      {
        if ips[i] == ip {
          macs[i] := mac;
          assert Entries() == before[i := Entry(ip, mac)];
          return;
        }
        i := i + 1;
      }
      if count < CACHE_SIZE {
        ips[count] := ip;
        macs[count] := mac;
        count := count + 1;
        assert Entries() == before + [Entry(ip, mac)];
      }
    }
  }
}
