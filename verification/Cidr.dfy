/**
 * Validation of a cluster's machine, service and pod networks (CIDR blocks,
 * section 3.1 of RFC 4632): prefixes, alignment, overlaps, the reserved address
 * and the number of node subnets.
 */
module Cidr {
  import opened Wrappers

  const SERVICE_PREFIX_MAX := 24
  const POD_PREFIX_MAX := 21
  const POD_NODES_MIN := 32
  const HOST_PREFIX_MIN := 23
  const HOST_PREFIX_MAX := 26

  function Pow2(n: nat): (r: nat)
    ensures r >= 1
  {
    if n == 0 then 1 else 2 * Pow2(n - 1)
  }

  lemma {:induction false} Pow2Adds(m: nat, n: nat)
    ensures Pow2(m + n) == Pow2(m) * Pow2(n)
  {
    if m != 0 {
      Pow2Adds(m - 1, n);
      assert 2 * (Pow2(m - 1) * Pow2(n)) == (2 * Pow2(m - 1)) * Pow2(n);
    }
  }

  lemma QuotientIs(x: nat, d: nat, q: nat, r: nat)
    requires d >= 1 && x == q * d + r && r < d
    ensures x / d == q
  {
    assert x / d - q == 0 by {
      assert (x / d - q) * d == r - x % d;
      Small(x / d - q, d, r - x % d);
    }
  }

  lemma Small(z: int, d: nat, y: int)
    requires d >= 1 && z * d == y && 0 - d < y < d
    ensures z == 0
  {
    assert z >= 1 ==> z * d >= d;
    assert z <= -1 ==> z * d <= 0 - d;
  }

  lemma ExactQuotient(x: nat, q: nat, d: nat)
    requires d >= 1 && x == q * d
    ensures x / d == q
  {
    QuotientIs(x, d, q, 0);
  }

  lemma Regroup(p: nat, b: nat, s: nat, a: nat)
    ensures (p * b + s) * a == p * (a * b) + s * a
  {
    assert (p * b + s) * a == (p * b) * a + s * a;
    assert (p * b) * a == p * (a * b);
  }

  lemma BelowProduct(s: nat, b: nat, r: nat, a: nat)
    requires s < b && r < a
    ensures s * a + r < a * b
  {
    assert (s + 1) * a <= b * a;
    assert (s + 1) * a == s * a + a;
  }

  lemma TwoDivisions(x: nat, a: nat, b: nat, ab: nat, q: nat, r: nat, p: nat, s: nat)
    requires ab == a * b && x == q * a + r && r < a && q == p * b + s && s < b
    ensures ab >= 1 && x / ab == p
  {
    BelowProduct(s, b, r, a);
    Regroup(p, b, s, a);
    QuotientIs(x, ab, p, s * a + r);
  }

  /** Dividing by a product divides by its factors in turn. */
  lemma DivideInTurn(x: nat, a: nat, b: nat, ab: nat)
    requires a >= 1 && b >= 1 && ab == a * b
    ensures ab >= 1 && x / ab == (x / a) / b
  {
    TwoDivisions(x, a, b, ab, x / a, x % a, (x / a) / b, (x / a) % b);
  }

  /** A text field: absent, rejected by the CIDR parser, or an address of 32 or 128 bits and a prefix. */
  datatype Text = Empty | Unparsable | Block(bits: nat, address: nat, prefix: nat)
  datatype Entry = Entry(text: Text, hostPrefix: int)
  datatype Kind = Machine | Service | Pod
  datatype IPNet = IPNet(bits: nat, ip: nat, prefix: nat)

  /** IPv4-mapped IPv6 addresses are IPv4 addresses here. */
  datatype Address = V4(value: nat) | V6(value: nat)

  datatype Error =
    | BadCidr(kind: Kind, text: Text)
    | BadHostPrefix(hostPrefix: int)
    | TooFewNodes(net: IPNet, hostPrefix: int)
    | Overlap(kind: Kind, net: IPNet, otherKind: Kind, other: IPNet)
    | Reserved(kind: Kind, net: IPNet)

  /** What the CIDR parser returns. */
  predicate TextOk(t: Text) {
    t.Block? ==> t.bits in {32, 128} && t.prefix <= t.bits && t.address < Pow2(t.bits)
  }

  predicate NetOk(n: IPNet) {
    n.bits in {32, 128} && n.prefix <= n.bits
  }

  function Normal(bits: nat, value: nat): Address {
    if bits == 32 then V4(value)
    else if value / Pow2(32) == 0xffff then V4(value % Pow2(32))
    else V6(value)
  }

  const RESERVED := V4(172 * 0x100_0000 + 20 * 0x1_0000 + 1)

  /** The number of host bits once a mapped network counts as IPv4. */
  function HostBits(n: IPNet): nat
    requires NetOk(n)
  {
    if n.bits == 32 then 32 - n.prefix
    else if Normal(n.bits, n.ip).V6? then 128 - n.prefix
    else if n.prefix >= 96 then 128 - n.prefix
    else 32
  }

  predicate Contains(n: IPNet, a: Address)
    requires NetOk(n)
  {
    var ip := Normal(n.bits, n.ip);
    ip.V4? == a.V4? && ip.value / Pow2(HostBits(n)) == a.value / Pow2(HostBits(n))
  }

  predicate Intersect(n: IPNet, m: IPNet)
    requires NetOk(n) && NetOk(m)
  {
    Contains(m, Normal(n.bits, n.ip)) || Contains(n, Normal(m.bits, m.ip))
  }

  ghost predicate Disjoint(n: IPNet, m: IPNet)
    requires NetOk(n) && NetOk(m)
  {
    forall a: Address :: !(Contains(n, a) && Contains(m, a))
  }

  /** Agreeing on few low bits dropped is agreeing on more low bits dropped. */
  lemma CoarserAgrees(x: nat, y: nat, h: nat, k: nat)
    requires h <= k && x / Pow2(h) == y / Pow2(h)
    ensures x / Pow2(k) == y / Pow2(k)
  {
    Pow2Adds(h, k - h);
    DivideInTurn(x, Pow2(h), Pow2(k - h), Pow2(k));
    DivideInTurn(y, Pow2(h), Pow2(k - h), Pow2(k));
  }

  /** Looking only at the two network addresses decides whether the address sets meet. */
  lemma IntersectIsSharing(n: IPNet, m: IPNet)
    requires NetOk(n) && NetOk(m)
    ensures Intersect(n, m) <==> !Disjoint(n, m)
  {
    var ipN, ipM := Normal(n.bits, n.ip), Normal(m.bits, m.ip);
    assert Contains(n, ipN) && Contains(m, ipM);
    forall a: Address | Contains(n, a) && Contains(m, a) ensures Intersect(n, m) {
      if HostBits(n) <= HostBits(m) {
        CoarserAgrees(ipN.value, a.value, HostBits(n), HostBits(m));
      } else {
        CoarserAgrees(ipM.value, a.value, HostBits(m), HostBits(n));
      }
    }
  }

  predicate PrefixAllowed(kind: Kind, prefix: nat) {
    match kind
    case Machine => true
    case Service => prefix <= SERVICE_PREFIX_MAX
    case Pod => prefix <= POD_PREFIX_MAX
  }

  /** parseNetworkCIDR: a parsed block with an allowed prefix whose address has no bits below it. */
  function ParseNetwork(kind: Kind, t: Text): (r: Option<IPNet>)
    requires TextOk(t)
    ensures r.Some? ==> NetOk(r.value)
  {
    if t.Block? && PrefixAllowed(kind, t.prefix) && t.address % Pow2(t.bits - t.prefix) == 0
    then Some(IPNet(t.bits, t.address, t.prefix)) else None
  }

  predicate EntriesOk(entries: seq<Entry>) {
    forall i :: 0 <= i < |entries| ==> TextOk(entries[i].text)
  }

  /** Two to the difference, truncated to an integer. */
  function PodNodes(hostPrefix: int, prefix: nat): nat {
    if hostPrefix < prefix then 0 else Pow2(hostPrefix - prefix)
  }

  predicate HostPrefixOk(n: IPNet, hostPrefix: int) {
    || hostPrefix == 0
    || (HOST_PREFIX_MIN <= hostPrefix <= HOST_PREFIX_MAX && PodNodes(hostPrefix, n.prefix) >= POD_NODES_MIN)
  }

  function ValidateHostPrefix(hostPrefix: int, n: IPNet): (errs: seq<Error>)
    ensures errs == [] <==> HostPrefixOk(n, hostPrefix)
  {
    if hostPrefix == 0 then []
    else
      (if hostPrefix < HOST_PREFIX_MIN || hostPrefix > HOST_PREFIX_MAX then [BadHostPrefix(hostPrefix)] else []) +
      (if PodNodes(hostPrefix, n.prefix) < POD_NODES_MIN then [TooFewNodes(n, hostPrefix)] else [])
  }

  /** The networks of one list that are given and accepted, in order. */
  function Accepted(kind: Kind, entries: seq<Entry>): (r: seq<IPNet>)
    requires EntriesOk(entries)
    ensures forall i :: 0 <= i < |r| ==> NetOk(r[i])
  {
    if entries == [] then []
    else
      var n := |entries| - 1;
      var last := ParseNetwork(kind, entries[n].text);
      Accepted(kind, entries[..n]) + (if last.Some? then [last.value] else [])
  }

  /** What an entry must satisfy on its own. */
  predicate EntryValid(kind: Kind, e: Entry)
    requires TextOk(e.text)
  {
    e.text.Empty? ||
    (var n := ParseNetwork(kind, e.text); n.Some? && (kind == Pod ==> HostPrefixOk(n.value, e.hostPrefix)))
  }

  predicate AllNetsOk(nets: seq<IPNet>) {
    forall i :: 0 <= i < |nets| ==> NetOk(nets[i])
  }

  ghost predicate PairwiseDisjoint(nets: seq<IPNet>)
    requires AllNetsOk(nets)
  {
    forall i, j :: 0 <= i < j < |nets| ==> Disjoint(nets[i], nets[j])
  }

  ghost predicate CrossDisjoint(xs: seq<IPNet>, ys: seq<IPNet>)
    requires AllNetsOk(xs) && AllNetsOk(ys)
  {
    forall i, j :: 0 <= i < |xs| && 0 <= j < |ys| ==> Disjoint(xs[i], ys[j])
  }

  ghost predicate NoneReserved(nets: seq<IPNet>)
    requires AllNetsOk(nets)
  {
    forall i :: 0 <= i < |nets| ==> !Contains(nets[i], RESERVED)
  }

  /** What one entry adds to the errors. */
  function EntryErrors(kind: Kind, e: Entry): (errs: seq<Error>)
    requires TextOk(e.text)
    ensures errs == [] <==> EntryValid(kind, e)
  {
    var parsed := ParseNetwork(kind, e.text);
    if e.text.Empty? then []
    else if parsed.None? then [BadCidr(kind, e.text)]
    else if kind == Pod then ValidateHostPrefix(e.hostPrefix, parsed.value)
    else []
  }

  /** One of the three parsing loops. */
  method ParseList(kind: Kind, entries: seq<Entry>) returns (nets: seq<IPNet>, errs: seq<Error>)
    requires EntriesOk(entries)
    ensures nets == Accepted(kind, entries)
    ensures errs == [] <==> AllValid(kind, entries, |entries|)
  {
    nets, errs := [], [];
    for i := 0 to |entries|
      invariant nets == Accepted(kind, entries[..i])
      invariant errs == [] <==> AllValid(kind, entries, i)
    {
      AcceptedNext(kind, entries, i);
      if !entries[i].text.Empty? {
        var parsed := ParseNetwork(kind, entries[i].text);
        if parsed.Some? {
          nets := nets + [parsed.value];
        }
        errs := errs + EntryErrors(kind, entries[i]);
      }
      ValidNext(kind, entries, i);
    }
    assert entries[..|entries|] == entries;
  }

  predicate AllValid(kind: Kind, entries: seq<Entry>, n: nat)
    requires EntriesOk(entries) && n <= |entries|
  {
    forall i :: 0 <= i < n ==> EntryValid(kind, entries[i])
  }

  lemma ValidNext(kind: Kind, entries: seq<Entry>, i: nat)
    requires EntriesOk(entries) && i < |entries|
    ensures AllValid(kind, entries, i + 1) <==> AllValid(kind, entries, i) && EntryErrors(kind, entries[i]) == []
  {
  }

  lemma AcceptedNext(kind: Kind, entries: seq<Entry>, i: nat)
    requires EntriesOk(entries) && i < |entries|
    ensures EntriesOk(entries[..i]) && EntriesOk(entries[..i + 1])
    ensures var last := ParseNetwork(kind, entries[i].text);
      Accepted(kind, entries[..i + 1]) == Accepted(kind, entries[..i]) + (if last.Some? then [last.value] else [])
  {
    assert entries[..i + 1][..i] == entries[..i];
  }

  /** One of the three loops over the networks of two lists. */
  method OverlapsBetween(kind: Kind, xs: seq<IPNet>, otherKind: Kind, ys: seq<IPNet>) returns (errs: seq<Error>)
    requires AllNetsOk(xs) && AllNetsOk(ys)
    ensures errs == [] <==> CrossDisjoint(xs, ys)
  {
    errs := [];
    for i := 0 to |xs|
      invariant errs == [] <==> forall k, j :: 0 <= k < i && 0 <= j < |ys| ==> Disjoint(xs[k], ys[j])
    {
      ghost var before := errs;
      for j := 0 to |ys|
        invariant errs == [] <==> before == [] && forall l :: 0 <= l < j ==> Disjoint(xs[i], ys[l])
      {
        IntersectIsSharing(xs[i], ys[j]);
        if Intersect(xs[i], ys[j]) {
          errs := errs + [Overlap(kind, xs[i], otherKind, ys[j])];
        }
      }
    }
  }

  /** One of the three loops over the pairs of one list. */
  method OverlapsWithin(kind: Kind, xs: seq<IPNet>) returns (errs: seq<Error>)
    requires AllNetsOk(xs)
    ensures errs == [] <==> PairwiseDisjoint(xs)
  {
    errs := [];
    for i := 0 to |xs|
      invariant errs == [] <==> forall k, j :: 0 <= k < i && k < j < |xs| ==> Disjoint(xs[k], xs[j])
    {
      ghost var before := errs;
      for j := 0 to |xs|
        invariant errs == [] <==> before == [] && forall l :: i < l < j ==> Disjoint(xs[i], xs[l])
      {
        IntersectIsSharing(xs[i], xs[j]);
        if i < j && Intersect(xs[i], xs[j]) {
          errs := errs + [Overlap(kind, xs[i], kind, xs[j])];
        }
      }
    }
  }

  lemma DisjointTogether(xs: seq<IPNet>, ys: seq<IPNet>)
    requires AllNetsOk(xs) && AllNetsOk(ys)
    ensures AllNetsOk(xs + ys)
    ensures PairwiseDisjoint(xs + ys) <==> PairwiseDisjoint(xs) && PairwiseDisjoint(ys) && CrossDisjoint(xs, ys)
  {
    var all := xs + ys;
    assert forall i :: 0 <= i < |xs| ==> all[i] == xs[i];
    assert forall i :: 0 <= i < |ys| ==> all[|xs| + i] == ys[i];
    if PairwiseDisjoint(all) {
      forall i, j | 0 <= i < j < |ys| ensures Disjoint(ys[i], ys[j]) {
        assert Disjoint(all[|xs| + i], all[|xs| + j]);
      }
      forall i, j | 0 <= i < |xs| && 0 <= j < |ys| ensures Disjoint(xs[i], ys[j]) {
        assert Disjoint(all[i], all[|xs| + j]);
      }
    }
  }

  method ValidateNetworkOverlaps(machine: seq<IPNet>, service: seq<IPNet>, pod: seq<IPNet>) returns (errs: seq<Error>)
    requires AllNetsOk(machine) && AllNetsOk(service) && AllNetsOk(pod)
    ensures AllNetsOk(machine + service + pod)
    ensures errs == [] <==> PairwiseDisjoint(machine + service + pod)
  {
    var machineService := OverlapsBetween(Machine, machine, Service, service);
    var machinePod := OverlapsBetween(Machine, machine, Pod, pod);
    var servicePod := OverlapsBetween(Service, service, Pod, pod);
    var withinMachine := OverlapsWithin(Machine, machine);
    var withinService := OverlapsWithin(Service, service);
    var withinPod := OverlapsWithin(Pod, pod);
    DisjointTogether(machine, service);
    DisjointTogether(machine + service, pod);
    CrossOfTwo(machine, service, pod);
    errs := machineService + machinePod + servicePod + withinMachine + withinService + withinPod;
  }

  lemma CrossOfTwo(xs: seq<IPNet>, ys: seq<IPNet>, zs: seq<IPNet>)
    requires AllNetsOk(xs) && AllNetsOk(ys) && AllNetsOk(zs)
    ensures CrossDisjoint(xs + ys, zs) <==> CrossDisjoint(xs, zs) && CrossDisjoint(ys, zs)
  {
    var all := xs + ys;
    assert forall i :: 0 <= i < |xs| ==> all[i] == xs[i];
    assert forall i :: 0 <= i < |ys| ==> all[|xs| + i] == ys[i];
    if CrossDisjoint(all, zs) {
      forall i, j | 0 <= i < |ys| && 0 <= j < |zs| ensures Disjoint(ys[i], zs[j]) {
        assert Disjoint(all[|xs| + i], zs[j]);
      }
    }
  }

  /** One of the three loops against the address the API server is advertised on. */
  method ReservedIn(kind: Kind, nets: seq<IPNet>) returns (errs: seq<Error>)
    requires AllNetsOk(nets)
    ensures errs == [] <==> NoneReserved(nets)
  {
    errs := [];
    for i := 0 to |nets|
      invariant errs == [] <==> forall j :: 0 <= j < i ==> !Contains(nets[j], RESERVED)
    {
      if Contains(nets[i], RESERVED) {
        errs := errs + [Reserved(kind, nets[i])];
      }
    }
  }

  datatype Networking = Networking(machine: seq<Entry>, service: seq<Entry>, cluster: seq<Entry>)

  predicate NetworkingOk(c: Networking) {
    EntriesOk(c.machine) && EntriesOk(c.service) && EntriesOk(c.cluster)
  }

  /** All accepted networks of a configuration. */
  function Networks(c: Networking): (r: seq<IPNet>)
    requires NetworkingOk(c)
    ensures AllNetsOk(r)
  {
    Accepted(Machine, c.machine) + Accepted(Service, c.service) + Accepted(Pod, c.cluster)
  }

  ghost predicate EachEntryValid(c: Networking)
    requires NetworkingOk(c)
  {
    && AllValid(Machine, c.machine, |c.machine|)
    && AllValid(Service, c.service, |c.service|)
    && AllValid(Pod, c.cluster, |c.cluster|)
  }

  /** The network a given entry stands for. */
  function NetOf(e: Entry): IPNet
    requires e.text.Block?
  {
    IPNet(e.text.bits, e.text.address, e.text.prefix)
  }

  ghost predicate ListDisjoint(es: seq<Entry>)
    requires EntriesOk(es)
  {
    forall i, j :: 0 <= i < j < |es| && es[i].text.Block? && es[j].text.Block? ==> Disjoint(NetOf(es[i]), NetOf(es[j]))
  }

  ghost predicate ListsDisjoint(es: seq<Entry>, fs: seq<Entry>)
    requires EntriesOk(es) && EntriesOk(fs)
  {
    forall i, j :: 0 <= i < |es| && 0 <= j < |fs| && es[i].text.Block? && fs[j].text.Block? ==> Disjoint(NetOf(es[i]), NetOf(fs[j]))
  }

  ghost predicate ListFree(es: seq<Entry>, a: Address)
    requires EntriesOk(es)
  {
    forall i :: 0 <= i < |es| && es[i].text.Block? ==> !Contains(NetOf(es[i]), a)
  }

  /** No two given networks share an address and none holds 172.20.0.1. */
  ghost predicate Apart(c: Networking)
    requires NetworkingOk(c)
  {
    && ListDisjoint(c.machine) && ListDisjoint(c.service) && ListDisjoint(c.cluster)
    && ListsDisjoint(c.machine, c.service) && ListsDisjoint(c.machine, c.cluster) && ListsDisjoint(c.service, c.cluster)
    && ListFree(c.machine, V4(0xac14_0001)) && ListFree(c.service, V4(0xac14_0001)) && ListFree(c.cluster, V4(0xac14_0001))
  }

  /** Where entry i stands among the accepted networks. */
  function Position(kind: Kind, es: seq<Entry>, i: nat): nat
    requires EntriesOk(es) && i <= |es|
  {
    |Accepted(kind, es[..i])|
  }

  lemma {:induction false} PositionsGrow(kind: Kind, es: seq<Entry>, i: nat, j: nat)
    requires EntriesOk(es) && i <= j <= |es|
    ensures Accepted(kind, es[..i]) <= Accepted(kind, es[..j])
    decreases j - i
  {
    if i < j {
      PositionsGrow(kind, es, i, j - 1);
      AcceptedNext(kind, es, j - 1);
    }
  }

  /** An accepted entry stands at its position, before those of later entries. */
  lemma AcceptedAt(kind: Kind, es: seq<Entry>, i: nat)
    requires EntriesOk(es) && i < |es| && ParseNetwork(kind, es[i].text).Some?
    ensures Position(kind, es, i) < |Accepted(kind, es)| && Accepted(kind, es)[Position(kind, es, i)] == NetOf(es[i])
    ensures forall j :: i < j <= |es| ==> Position(kind, es, i) < Position(kind, es, j)
  {
    AcceptedNext(kind, es, i);
    PositionsGrow(kind, es, i + 1, |es|);
    assert es[..|es|] == es;
    forall j | i < j <= |es| ensures Position(kind, es, i) < Position(kind, es, j) {
      PositionsGrow(kind, es, i + 1, j);
    }
  }

  /** Every accepted network is that of an entry. */
  lemma {:induction false} AcceptedFrom(kind: Kind, es: seq<Entry>, p: nat) returns (i: nat)
    requires EntriesOk(es) && p < |Accepted(kind, es)|
    ensures i < |es| && ParseNetwork(kind, es[i].text).Some? && Position(kind, es, i) == p && Accepted(kind, es)[p] == NetOf(es[i])
    decreases |es|
  {
    var n := |es| - 1;
    var front := Accepted(kind, es[..n]);
    if p < |front| {
      i := AcceptedFrom(kind, es[..n], p);
      assert es[..n][..i] == es[..i];
    } else {
      i := n;
    }
  }

  lemma ValidListDisjoint(kind: Kind, es: seq<Entry>)
    requires EntriesOk(es) && AllValid(kind, es, |es|)
    ensures PairwiseDisjoint(Accepted(kind, es)) <==> ListDisjoint(es)
  {
    var nets := Accepted(kind, es);
    if PairwiseDisjoint(nets) {
      forall i, j | 0 <= i < j < |es| && es[i].text.Block? && es[j].text.Block? ensures Disjoint(NetOf(es[i]), NetOf(es[j])) {
        AcceptedAt(kind, es, i);
        AcceptedAt(kind, es, j);
        assert Disjoint(nets[Position(kind, es, i)], nets[Position(kind, es, j)]);
      }
    }
    if ListDisjoint(es) {
      forall p, q | 0 <= p < q < |nets| ensures Disjoint(nets[p], nets[q]) {
        var i := AcceptedFrom(kind, es, p);
        var j := AcceptedFrom(kind, es, q);
        AcceptedAt(kind, es, j);
        assert i < j;
      }
    }
  }

  lemma ValidListsDisjoint(kind: Kind, es: seq<Entry>, other: Kind, fs: seq<Entry>)
    requires EntriesOk(es) && AllValid(kind, es, |es|) && EntriesOk(fs) && AllValid(other, fs, |fs|)
    ensures CrossDisjoint(Accepted(kind, es), Accepted(other, fs)) <==> ListsDisjoint(es, fs)
  {
    var xs, ys := Accepted(kind, es), Accepted(other, fs);
    if CrossDisjoint(xs, ys) {
      forall i, j | 0 <= i < |es| && 0 <= j < |fs| && es[i].text.Block? && fs[j].text.Block?
        ensures Disjoint(NetOf(es[i]), NetOf(fs[j]))
      {
        AcceptedAt(kind, es, i);
        AcceptedAt(other, fs, j);
        assert Disjoint(xs[Position(kind, es, i)], ys[Position(other, fs, j)]);
      }
    }
    if ListsDisjoint(es, fs) {
      forall p, q | 0 <= p < |xs| && 0 <= q < |ys| ensures Disjoint(xs[p], ys[q]) {
        var i := AcceptedFrom(kind, es, p);
        var j := AcceptedFrom(other, fs, q);
      }
    }
  }

  lemma ValidListFree(kind: Kind, es: seq<Entry>)
    requires EntriesOk(es) && AllValid(kind, es, |es|)
    ensures NoneReserved(Accepted(kind, es)) <==> ListFree(es, V4(0xac14_0001))
  {
    var nets := Accepted(kind, es);
    assert RESERVED == V4(0xac14_0001);
    if NoneReserved(nets) {
      forall i | 0 <= i < |es| && es[i].text.Block? ensures !Contains(NetOf(es[i]), V4(0xac14_0001)) {
        AcceptedAt(kind, es, i);
        assert !Contains(nets[Position(kind, es, i)], RESERVED);
      }
    }
    if ListFree(es, V4(0xac14_0001)) {
      forall p | 0 <= p < |nets| ensures !Contains(nets[p], RESERVED) {
        var i := AcceptedFrom(kind, es, p);
      }
    }
  }

  /** On valid entries the checks of the accepted networks are checks of the entries themselves. */
  lemma ChecksMeanApart(c: Networking)
    requires NetworkingOk(c) && EachEntryValid(c)
    ensures PairwiseDisjoint(Networks(c)) && NoneReserved(Networks(c)) <==> Apart(c)
  {
    var m, s, p := Accepted(Machine, c.machine), Accepted(Service, c.service), Accepted(Pod, c.cluster);
    DisjointTogether(m, s);
    DisjointTogether(m + s, p);
    CrossOfTwo(m, s, p);
    NoneReservedTogether(m, s);
    NoneReservedTogether(m + s, p);
    ValidListDisjoint(Machine, c.machine);
    ValidListDisjoint(Service, c.service);
    ValidListDisjoint(Pod, c.cluster);
    ValidListsDisjoint(Machine, c.machine, Service, c.service);
    ValidListsDisjoint(Machine, c.machine, Pod, c.cluster);
    ValidListsDisjoint(Service, c.service, Pod, c.cluster);
    ValidListFree(Machine, c.machine);
    ValidListFree(Service, c.service);
    ValidListFree(Pod, c.cluster);
  }

  /**
   * ValidateNetworkCIDRs reports nothing exactly when every given entry is valid on its
   * own, no two given networks share an address and none holds the reserved one.
   */
  method ValidateNetworkCIDRs(config: Option<Networking>) returns (errs: seq<Error>)
    requires config.Some? ==> NetworkingOk(config.value)
    ensures config.None? ==> errs == []
    ensures config.Some? ==> (errs == [] <==> EachEntryValid(config.value) && Apart(config.value))
  {
    if config.None? {
      return [];
    }
    var c := config.value;
    var machine, machineErrs := ParseList(Machine, c.machine);
    var service, serviceErrs := ParseList(Service, c.service);
    var pod, podErrs := ParseList(Pod, c.cluster);
    var overlaps := ValidateNetworkOverlaps(machine, service, pod);
    var reserved := ValidateReserved(machine, service, pod);
    if EachEntryValid(c) { ChecksMeanApart(c); }
    errs := machineErrs + serviceErrs + podErrs + overlaps + reserved;
  }

  method ValidateReserved(machine: seq<IPNet>, service: seq<IPNet>, pod: seq<IPNet>) returns (errs: seq<Error>)
    requires AllNetsOk(machine) && AllNetsOk(service) && AllNetsOk(pod)
    ensures AllNetsOk(machine + service + pod)
    ensures errs == [] <==> NoneReserved(machine + service + pod)
  {
    var reservedMachine := ReservedIn(Machine, machine);
    var reservedService := ReservedIn(Service, service);
    var reservedPod := ReservedIn(Pod, pod);
    NoneReservedTogether(machine, service);
    NoneReservedTogether(machine + service, pod);
    errs := reservedMachine + reservedService + reservedPod;
  }

  lemma NoneReservedTogether(xs: seq<IPNet>, ys: seq<IPNet>)
    requires AllNetsOk(xs) && AllNetsOk(ys)
    ensures AllNetsOk(xs + ys) && (NoneReserved(xs + ys) <==> NoneReserved(xs) && NoneReserved(ys))
  {
    var all := xs + ys;
    assert forall i :: 0 <= i < |xs| ==> all[i] == xs[i];
    assert forall i :: 0 <= i < |ys| ==> all[|xs| + i] == ys[i];
    if NoneReserved(all) {
      forall i | 0 <= i < |ys| ensures !Contains(ys[i], RESERVED) {
        assert !Contains(all[|xs| + i], RESERVED);
      }
    }
  }

  lemma Pow2Grows(m: nat, n: nat)
    requires m <= n
    ensures Pow2(m) <= Pow2(n)
  {
    Pow2Adds(m, n - m);
    assert Pow2(m) * Pow2(n - m) >= Pow2(m) * 1;
  }

  lemma ThirtyTwoNodes(hostPrefix: int, prefix: nat)
    ensures PodNodes(hostPrefix, prefix) >= 32 <==> hostPrefix - prefix >= 5
  {
    assert Pow2(5) == 32 && Pow2(4) == 16 by { assert Pow2(1) == 2 && Pow2(2) == 4 && Pow2(3) == 8; }
    if hostPrefix - prefix >= 5 {
      Pow2Grows(5, hostPrefix - prefix);
    } else if hostPrefix >= prefix {
      Pow2Grows(hostPrefix - prefix, 4);
    }
  }

  /**
   * Which entries are accepted on their own: absent ones, and blocks whose address starts
   * the block, with a prefix of at most 24 for services and 21 for pods, and for pods a
   * host prefix that is unset or from 23 to 26 and leaves at least five bits of nodes.
   */
  lemma EntryValidExactly(kind: Kind, e: Entry)
    requires TextOk(e.text)
    ensures EntryValid(kind, e) <==>
      || e.text.Empty?
      || (&& e.text.Block? && e.text.address % Pow2(e.text.bits - e.text.prefix) == 0
          && (kind == Service ==> e.text.prefix <= 24)
          && (kind == Pod ==> e.text.prefix <= 21)
          && (kind == Pod && e.hostPrefix != 0 ==> 23 <= e.hostPrefix <= 26 && e.hostPrefix - e.text.prefix >= 5))
  {
    if e.text.Block? {
      ThirtyTwoNodes(e.hostPrefix, e.text.prefix);
    }
  }

  /** Equal quotients mean the same block. */
  lemma SameBlock(x: nat, y: nat, d: nat)
    requires d >= 1 && x % d == 0
    ensures x / d == y / d <==> x <= y < x + d
  {
    var q := x / d;
    assert x == q * d;
    if x <= y < x + d { QuotientIs(y, d, q, y - x); }
    if y / d == q { assert y == q * d + y % d; }
  }

  lemma MultipleIsAligned(z: int, d: nat, r: nat)
    requires d >= 1 && r == z * d
    ensures r % d == 0
  {
    assert z <= -1 ==> z * d <= 0 - d;
    QuotientIs(r, d, z, 0);
  }

  lemma RemainderAligned(ip: nat, parts: nat, size: nat, whole: nat)
    requires size >= 1 && whole == parts * size && whole >= 1 && ip % size == 0
    ensures (ip % whole) % size == 0
  {
    var a, q := ip / size, ip / whole;
    Regroup(q, parts, 0, size);
    assert (a - q * parts) * size == a * size - (q * parts) * size;
    MultipleIsAligned(a - q * parts, size, ip % whole);
  }

  lemma LowPartAligned(ip: nat, h: nat)
    requires h <= 32 && ip % Pow2(h) == 0
    ensures (ip % Pow2(32)) % Pow2(h) == 0
  {
    Pow2Adds(32 - h, h);
    RemainderAligned(ip, Pow2(32 - h), Pow2(h), Pow2(32));
  }

  lemma WideAligned(ip: nat, c: nat, h: nat, size: nat)
    requires h > 32 && size == Pow2(h) && ip == c * size
    ensures ip / Pow2(32) != 0xffff
  {
    WideIsNotMapped(c, h);
  }

  /** A mapped network has at most 32 host bits. */
  lemma MappedIsNarrow(ip: nat, h: nat)
    requires ip % Pow2(h) == 0 && ip / Pow2(32) == 0xffff
    ensures h <= 32
  {
    var size := Pow2(h);
    var c := ip / size;
    if h > 32 { WideAligned(ip, c, h, size); }
  }

  predicate Mapped(n: IPNet) { n.bits == 128 && n.ip / Pow2(32) == 0xffff }

  lemma MappedRange(n: IPNet, a: Address)
    requires NetOk(n) && n.ip % Pow2(n.bits - n.prefix) == 0 && Mapped(n)
    ensures var first := n.ip % Pow2(32);
      Contains(n, a) <==> a.V4? && first <= a.value < first + Pow2(n.bits - n.prefix)
  {
    MappedIsNarrow(n.ip, n.bits - n.prefix);
    LowPartAligned(n.ip, n.bits - n.prefix);
    MappedBits(n);
    SameBlock(n.ip % Pow2(32), a.value, Pow2(n.bits - n.prefix));
  }

  lemma MappedBits(n: IPNet)
    requires NetOk(n) && Mapped(n) && n.bits - n.prefix <= 32
    ensures HostBits(n) == n.bits - n.prefix && Normal(n.bits, n.ip) == V4(n.ip % Pow2(32))
  {
  }

  lemma PlainBits(n: IPNet)
    requires NetOk(n) && !Mapped(n)
    ensures HostBits(n) == n.bits - n.prefix && Normal(n.bits, n.ip) == if n.bits == 32 then V4(n.ip) else V6(n.ip)
  {
  }

  /**
   * The addresses of an accepted network are those from its address on, two to the
   * number of host bits of them, in its family; IPv4-mapped networks hold IPv4 addresses.
   */
  lemma ContainsIsRange(n: IPNet, a: Address)
    requires NetOk(n) && n.ip % Pow2(n.bits - n.prefix) == 0
    ensures var first := if Mapped(n) then n.ip % Pow2(32) else n.ip;
      Contains(n, a) <==> a.V4? == (n.bits == 32 || Mapped(n)) && first <= a.value < first + Pow2(n.bits - n.prefix)
  {
    if Mapped(n) {
      MappedRange(n, a);
    } else {
      PlainBits(n);
      SameBlock(n.ip, a.value, Pow2(n.bits - n.prefix));
    }
  }

  function BlockNumber(ip: nat, size: nat): nat
    requires size >= 1
  {
    ip / size
  }

  function BlockStart(number: nat, size: nat): nat { number * size }

  /** The k-th block of the host prefix inside a pod network. */
  function NodeSubnet(n: IPNet, hostPrefix: nat, k: nat): IPNet
    requires NetOk(n) && hostPrefix <= n.bits
  {
    var size := Pow2(n.bits - hostPrefix);
    IPNet(n.bits, BlockStart(BlockNumber(n.ip, size) + k, size), hostPrefix)
  }

  lemma EvenQuotient(c: nat, half: nat, w: nat)
    requires w >= 1
    ensures (c * (2 * half * w)) / w == 2 * (c * half)
  {
    assert c * (2 * half * w) == (2 * (c * half)) * w;
    QuotientIs(c * (2 * half * w), w, 2 * (c * half), 0);
  }

  /** A network with more than 32 host bits is never IPv4-mapped. */
  lemma WideIsNotMapped(c: nat, h: nat)
    requires h > 32
    ensures (c * Pow2(h)) / Pow2(32) != 0xffff
  {
    Pow2Adds(h - 32, 32);
    EvenQuotient(c, Pow2(h - 33), Pow2(32));
  }

  /** Cutting an aligned block of parts * size addresses into parts: part k starts at a multiple of size. */
  lemma PartStart(ip: nat, parts: nat, size: nat, whole: nat, k: nat)
    requires parts >= 1 && size >= 1 && whole == parts * size && whole >= 1 && ip % whole == 0
    ensures ip + k * size == (ip / size + k) * size
  {
    var c := ip / whole;
    Regroup(c, parts, 0, size);
    QuotientIs(ip, size, c * parts, 0);
    assert (c * parts + k) * size == (c * parts) * size + k * size;
  }

  /** Each part lies in the block. */
  lemma PartInBlock(ip: nat, parts: nat, size: nat, whole: nat, k: nat)
    requires size >= 1 && whole == parts * size && whole >= 1 && ip % whole == 0 && k < parts
    ensures (ip + k * size) / whole == ip / whole
  {
    BelowProduct(k, parts, 0, size);
    QuotientIs(ip + k * size, whole, ip / whole, k * size);
  }

  predicate Cuts(n: IPNet, hostPrefix: nat) {
    NetOk(n) && n.prefix <= hostPrefix <= HOST_PREFIX_MAX && n.ip % Pow2(n.bits - n.prefix) == 0
  }

  lemma NodeSubnetStart(n: IPNet, hostPrefix: nat, k: nat)
    requires Cuts(n, hostPrefix)
    ensures NodeSubnet(n, hostPrefix, k).ip == n.ip + k * Pow2(n.bits - hostPrefix)
  {
    Pow2Adds(hostPrefix - n.prefix, n.bits - hostPrefix);
    PartStart(n.ip, Pow2(hostPrefix - n.prefix), Pow2(n.bits - hostPrefix), Pow2(n.bits - n.prefix), k);
  }

  lemma NodeSubnetIsWide(n: IPNet, hostPrefix: nat, k: nat)
    requires Cuts(n, hostPrefix)
    ensures Normal(n.bits, NodeSubnet(n, hostPrefix, k).ip) ==
            if n.bits == 32 then V4(NodeSubnet(n, hostPrefix, k).ip) else V6(NodeSubnet(n, hostPrefix, k).ip)
  {
    if n.bits == 128 {
      WideBlockIsV6(BlockNumber(n.ip, Pow2(n.bits - hostPrefix)) + k, n.bits - hostPrefix);
    }
  }

  lemma WideBlockIsV6(number: nat, h: nat)
    requires h > 32
    ensures Normal(128, BlockStart(number, Pow2(h))) == V6(BlockStart(number, Pow2(h)))
  {
    WideIsNotMapped(number, h);
    NotMappedIsV6(BlockStart(number, Pow2(h)));
  }

  lemma NotMappedIsV6(value: nat)
    requires value / Pow2(32) != 0xffff
    ensures Normal(128, value) == V6(value)
  {
  }

  lemma NodeSubnetQuotient(n: IPNet, hostPrefix: nat, k: nat)
    requires Cuts(n, hostPrefix) && k < PodNodes(hostPrefix, n.prefix)
    ensures NodeSubnet(n, hostPrefix, k).ip / Pow2(n.bits - n.prefix) == n.ip / Pow2(n.bits - n.prefix)
  {
    NodeSubnetStart(n, hostPrefix, k);
    Pow2Adds(hostPrefix - n.prefix, n.bits - hostPrefix);
    PartInBlock(n.ip, Pow2(hostPrefix - n.prefix), Pow2(n.bits - hostPrefix), Pow2(n.bits - n.prefix), k);
  }

  /** A node subnet lies inside its pod network. */
  lemma NodeSubnetInside(n: IPNet, hostPrefix: nat, k: nat, a: Address)
    requires Cuts(n, hostPrefix) && k < PodNodes(hostPrefix, n.prefix) && Contains(NodeSubnet(n, hostPrefix, k), a)
    ensures Contains(n, a)
  {
    NodeSubnetIsWide(n, hostPrefix, 0);
    NodeSubnetIsWide(n, hostPrefix, k);
    NodeSubnetStart(n, hostPrefix, 0);
    assert NodeSubnet(n, hostPrefix, 0).ip == n.ip;
    CoarserAgrees(NodeSubnet(n, hostPrefix, k).ip, a.value, n.bits - hostPrefix, n.bits - n.prefix);
    NodeSubnetQuotient(n, hostPrefix, k);
  }

  lemma NodeSubnetNumber(n: IPNet, hostPrefix: nat, k: nat)
    requires NetOk(n) && hostPrefix <= n.bits
    ensures NodeSubnet(n, hostPrefix, k).ip / Pow2(n.bits - hostPrefix) == n.ip / Pow2(n.bits - hostPrefix) + k
  {
    ExactQuotient(NodeSubnet(n, hostPrefix, k).ip, n.ip / Pow2(n.bits - hostPrefix) + k, Pow2(n.bits - hostPrefix));
  }

  /** The addresses of node subnet k are those with its quotient. */
  lemma NodeSubnetHolds(n: IPNet, hostPrefix: nat, k: nat, a: Address)
    requires Cuts(n, hostPrefix) && Contains(NodeSubnet(n, hostPrefix, k), a)
    ensures a.value / Pow2(n.bits - hostPrefix) == n.ip / Pow2(n.bits - hostPrefix) + k
  {
    NodeSubnetIsWide(n, hostPrefix, k);
    NodeSubnetNumber(n, hostPrefix, k);
  }

  /** Different node subnets share no address. */
  lemma NodeSubnetsAreDisjoint(n: IPNet, hostPrefix: nat, j: nat, k: nat)
    requires Cuts(n, hostPrefix) && j != k
    ensures Disjoint(NodeSubnet(n, hostPrefix, j), NodeSubnet(n, hostPrefix, k))
  {
    forall a: Address | Contains(NodeSubnet(n, hostPrefix, j), a)
      ensures !Contains(NodeSubnet(n, hostPrefix, k), a)
    {
      NodeSubnetHolds(n, hostPrefix, j, a);
      if Contains(NodeSubnet(n, hostPrefix, k), a) {
        NodeSubnetHolds(n, hostPrefix, k, a);
      }
    }
  }

  /** An accepted pod network with a host prefix holds at least 32 disjoint node subnets. */
  lemma PodNetworkHoldsEnoughNodes(e: Entry)
    requires TextOk(e.text) && e.text.Block? && EntryValid(Pod, e) && e.hostPrefix != 0
    ensures
      var n := ParseNetwork(Pod, e.text).value;
      && n.prefix <= e.hostPrefix
      && PodNodes(e.hostPrefix, n.prefix) >= 32
      && (forall k: nat, a :: k < PodNodes(e.hostPrefix, n.prefix) && Contains(NodeSubnet(n, e.hostPrefix, k), a) ==> Contains(n, a))
      && (forall j: nat, k: nat :: j != k ==> Disjoint(NodeSubnet(n, e.hostPrefix, j), NodeSubnet(n, e.hostPrefix, k)))
  {
    var n := ParseNetwork(Pod, e.text).value;
    forall k: nat, a | k < PodNodes(e.hostPrefix, n.prefix) && Contains(NodeSubnet(n, e.hostPrefix, k), a) ensures Contains(n, a) {
      NodeSubnetInside(n, e.hostPrefix, k, a);
    }
    forall j: nat, k: nat | j != k ensures Disjoint(NodeSubnet(n, e.hostPrefix, j), NodeSubnet(n, e.hostPrefix, k)) {
      NodeSubnetsAreDisjoint(n, e.hostPrefix, j, k);
    }
  }
}
