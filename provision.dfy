/** The units of work of shell.py: provisioning one network with its subnets
    and bound ports (`create_network_with_ports`), and tearing one network
    down (`clean_network_with_ports`).

    Each unit runs against a `ControlPlane` and returns how it ended together
    with the trace of calls it made. */
module Provision {
  import opened Wrappers
  import opened Naming
  import opened Resources
  import VifClient

  /* ---------------- the create unit, as a specification ---------------- */

  /** The first `count` IPv4 subnet requests: subnet k gets `192.168.k.0/24`. */
  function V4Requests(netId: string, count: nat, h: string): seq<Call>
  {
    seq(count, k requires 0 <= k < count => CreateSubnet(netId, V4SubnetName(k, h), V4Cidr(k)))
  }

  /** The first `count` IPv6 subnet requests. Their CIDR is built from the
      value the IPv4 loop variable was left with, `lastV4`, not from the IPv6
      index, so they all ask for the same block. */
  function V6Requests(netId: string, count: nat, lastV4: nat, h: string): seq<Call>
  {
    seq(count, k requires 0 <= k < count => CreateSubnet(netId, V6SubnetName(k, h), V6Cidr(lastV4)))
  }

  /** What ordinal `p` of the port loop does after the calls `t`: the calls
      it appends, and whether the loop goes on. It requests a port bound to
      `h`; a created port is plugged with the whole subnet dictionary, and
      plugging raises if one of its fixed IPs names a subnet outside it. */
  datatype Step = Step(trace: seq<Call>, goOn: bool)

  function PortStep(cp: ControlPlane, t: seq<Call>, netId: string, h: string,
                    subnets: map<string, Subnet>, p: nat): Step
  {
    var c := CreatePort(netId, PortName(p, h), h);
    var t1 := t + [c];
    match cp.portReply(t1)
    case None => Step(t1, true)
    case Some(port) =>
      Step(t1 + [Plug(port, subnets)], VifClient.AllSubnetsKnown(port, subnets))
  }

  /** The port loop from ordinal `p` on, after the calls `t`. */
  function PortPhase(cp: ControlPlane, t: seq<Call>, netId: string, h: string,
                     subnets: map<string, Subnet>, p: nat, n: nat): Run
    decreases n - p
  {
    if p >= n then Run(Returned(true), t)
    else
      var s := PortStep(cp, t, netId, h, subnets, p);
      if s.goOn then PortPhase(cp, s.trace, netId, h, subnets, p + 1, n)
      else Run(Raised(SubnetNotInMap), s.trace)
  }

  /** The calls made up to the end of the subnet loops, when the network got
      id `netId` and both loops run to the end. */
  function SubnetPhase(netId: string, n4: nat, n6: nat, h: string, netCall: Call): seq<Call>
    requires n4 > 0 || n6 == 0
  {
    [netCall] + V4Requests(netId, n4, h) + V6Requests(netId, n6, if n4 > 0 then n4 - 1 else 0, h)
  }

  /** What one create unit does, end to end. */
  function CreateUnit(cp: ControlPlane, netNumber: nat, ipv4Subnets: int, ipv6Subnets: int,
                      ports: int, h: string): Run
  {
    var netCall := CreateNetwork(NetworkName(netNumber, h));
    match cp.networkReply([netCall])
    case None => Run(Returned(false), [netCall])
    case Some(netId) =>
      var n4, n6 := RangeSize(ipv4Subnets), RangeSize(ipv6Subnets);
      if n4 > V4Octets then
        Run(Raised(InvalidCidr(V4Cidr(V4Octets))), [netCall] + V4Requests(netId, V4Octets, h))
      else if n4 == 0 && n6 > 0 then
        Run(Raised(UnboundV4Subnet), [netCall])
      else
        var t := SubnetPhase(netId, n4, n6, h, netCall);
        var subnets := Collected(cp, t);
        if subnets == map[] then Run(Returned(true), t)
        else PortPhase(cp, t, netId, h, subnets, 0, RangeSize(ports))
  }

  /* ---------------- the create unit, as the program runs it ---------------- */

  /** `create_network_with_ports`: create the network; if that fails, stop.
      Then request every IPv4 and IPv6 subnet, keeping the created ones in a
      dictionary by id; if any subnet was created, request every port bound
      to `hostname` and plug each created one. */
  method CreateNetworkWithPorts(cp: ControlPlane, netNumber: nat, ipv4Subnets: int,
                                ipv6Subnets: int, ports: int, hostname: string)
    returns (outcome: Outcome, trace: seq<Call>)
    ensures Run(outcome, trace) == CreateUnit(cp, netNumber, ipv4Subnets, ipv6Subnets, ports, hostname)
  {
    var netCall := CreateNetwork(NetworkName(netNumber, hostname));
    trace := [netCall];
    var network := cp.networkReply(trace);
    if network.None? {
      return Returned(false), trace;
    }
    var netId := network.value;
    var subnets: map<string, Subnet> := map[];

    // the IPv4 loop; `v4Subnet` is the Python loop variable, unbound until
    // the first iteration
    var n4 := RangeSize(ipv4Subnets);
    var v4Subnet: Option<nat> := None;
    var k := 0;
    while k < n4
      invariant 0 <= k <= n4 && k <= V4Octets
      invariant trace == [netCall] + V4Requests(netId, k, hostname)
      invariant subnets == Collected(cp, trace)
      invariant v4Subnet == if k == 0 then None else Some(k - 1)
    {
      v4Subnet := Some(k);
      var cidr := V4Cidr(k);
      if k >= V4Octets {
        return Raised(InvalidCidr(cidr)), trace;
      }
      var call := CreateSubnet(netId, V4SubnetName(k, hostname), cidr);
      assert V4Requests(netId, k + 1, hostname) == V4Requests(netId, k, hostname) + [call];
      trace := trace + [call];
      var subnet := cp.subnetReply(trace);
      if subnet.Some? {
        subnets := subnets[subnet.value.id := subnet.value];
      }
      k := k + 1;
    }

    // the IPv6 loop, whose CIDR reads `v4Subnet`
    var n6 := RangeSize(ipv6Subnets);
    ghost var afterV4 := trace;
    k := 0;
    while k < n6
      invariant 0 <= k <= n6
      invariant n4 > 0 ==> trace == afterV4 + V6Requests(netId, k, n4 - 1, hostname)
      invariant n4 == 0 ==> k == 0 && trace == afterV4
      invariant subnets == Collected(cp, trace)
    {
      if v4Subnet.None? {
        return Raised(UnboundV4Subnet), trace;
      }
      var cidr := V6Cidr(v4Subnet.value);
      var call := CreateSubnet(netId, V6SubnetName(k, hostname), cidr);
      assert V6Requests(netId, k + 1, n4 - 1, hostname)
          == V6Requests(netId, k, n4 - 1, hostname) + [call];
      trace := trace + [call];
      var subnet := cp.subnetReply(trace);
      if subnet.Some? {
        subnets := subnets[subnet.value.id := subnet.value];
      }
      k := k + 1;
    }
    assert trace == SubnetPhase(netId, n4, n6, hostname, netCall);

    // the port loop, only when some subnet exists
    if subnets != map[] {
      outcome, trace := RequestPorts(cp, trace, netId, hostname, subnets, RangeSize(ports));
      return;
    }
    return Returned(true), trace;
  }

  /** The port loop of `create_network_with_ports`, after the calls `t`:
      request `n` ports bound to `h` and plug each created one with the
      subnet dictionary. */
  method RequestPorts(cp: ControlPlane, t: seq<Call>, netId: string, h: string,
                      subnets: map<string, Subnet>, n: nat)
    returns (outcome: Outcome, trace: seq<Call>)
    ensures Run(outcome, trace) == PortPhase(cp, t, netId, h, subnets, 0, n)
  {
    trace := t;
    var p := 0;
    while p < n
      invariant 0 <= p <= n
      invariant PortPhase(cp, trace, netId, h, subnets, p, n)
             == PortPhase(cp, t, netId, h, subnets, 0, n)
    {
      var call := CreatePort(netId, PortName(p, h), h);
      trace := trace + [call];
      var created := cp.portReply(trace);
      if created.Some? {
        var port := created.value;
        trace := trace + [Plug(port, subnets)];
        var vif := VifClient.PlugPort(port, subnets);
        if vif.Failure? {
          return Raised(vif.error), trace;
        }
      }
      p := p + 1;
    }
    return Returned(true), trace;
  }

  /* ---------------- what the create unit guarantees ---------------- */

  /** One ordinal appends its port request and, if the port was created,
      the plug of that port right after it. */
  lemma PortStepCalls(cp: ControlPlane, t: seq<Call>, netId: string, h: string,
                      subnets: map<string, Subnet>, p: nat)
    ensures var s := PortStep(cp, t, netId, h, subnets, p);
      var c := CreatePort(netId, PortName(p, h), h);
      && |t| < |s.trace| <= |t| + 2
      && s.trace[..|t| + 1] == t + [c]
      && (cp.portReply(t + [c]).None? ==> |s.trace| == |t| + 1 && s.goOn)
      && (cp.portReply(t + [c]).Some? ==>
            && |s.trace| == |t| + 2
            && s.trace[|t| + 1] == Plug(cp.portReply(t + [c]).value, subnets))
  {
    var c := CreatePort(netId, PortName(p, h), h);
    var s := PortStep(cp, t, netId, h, subnets, p);
    if cp.portReply(t + [c]).Some? {
      assert s.trace[..|t| + 1] == t + [c];
    } else {
      assert s.trace[..|t| + 1] == s.trace;
    }
  }

  /** One ordinal makes exactly one port request and no subnet request. */
  lemma PortStepCounts(cp: ControlPlane, t: seq<Call>, netId: string, h: string,
                       subnets: map<string, Subnet>, p: nat)
    ensures var s := PortStep(cp, t, netId, h, subnets, p);
      && Count(s.trace, PortCreation) == Count(t, PortCreation) + 1
      && Count(s.trace, SubnetCreation) == Count(t, SubnetCreation)
  {
    var c := CreatePort(netId, PortName(p, h), h);
    var t1 := t + [c];
    CountSnoc(t, c, PortCreation);
    CountSnoc(t, c, SubnetCreation);
    if cp.portReply(t1).Some? {
      var pl := Plug(cp.portReply(t1).value, subnets);
      CountSnoc(t1, pl, PortCreation);
      CountSnoc(t1, pl, SubnetCreation);
    }
  }

  /** The port loop only appends to the trace, and only port requests bound
      to `h` in network `netId` and plug calls carrying the whole dictionary. */
  lemma {:induction false} PortPhaseAppends(cp: ControlPlane, t: seq<Call>, netId: string,
                                            h: string, subnets: map<string, Subnet>, p: nat, n: nat)
    ensures var r := PortPhase(cp, t, netId, h, subnets, p, n);
      && |t| <= |r.trace| && r.trace[..|t|] == t
      && forall i | |t| <= i < |r.trace| ::
           || (r.trace[i].CreatePort? && r.trace[i].networkId == netId && r.trace[i].host == h)
           || (r.trace[i].Plug? && r.trace[i].subnets == subnets)
    decreases n - p
  {
    if p < n {
      var r := PortPhase(cp, t, netId, h, subnets, p, n);
      var s := PortStep(cp, t, netId, h, subnets, p);
      PortStepCalls(cp, t, netId, h, subnets, p);
      assert s.trace[..|t|] == t;
      if s.goOn {
        assert r == PortPhase(cp, s.trace, netId, h, subnets, p + 1, n);
        PortPhaseAppends(cp, s.trace, netId, h, subnets, p + 1, n);
        assert r.trace[..|t|] == r.trace[..|s.trace|][..|t|];
        forall i | |t| <= i < |s.trace| ensures r.trace[i] == s.trace[i] {
          assert r.trace[..|s.trace|][i] == r.trace[i];
        }
      } else {
        assert r == Run(Raised(SubnetNotInMap), s.trace);
      }
    }
  }

  /** The port loop ends by returning True or by a plug raising, and it
      makes no subnet request. */
  lemma {:induction false} PortPhaseOutcome(cp: ControlPlane, t: seq<Call>, netId: string,
                                            h: string, subnets: map<string, Subnet>, p: nat, n: nat)
    ensures var r := PortPhase(cp, t, netId, h, subnets, p, n);
      && (r.outcome == Returned(true) || r.outcome == Raised(SubnetNotInMap))
      && Count(r.trace, SubnetCreation) == Count(t, SubnetCreation)
    decreases n - p
  {
    if p < n {
      var r := PortPhase(cp, t, netId, h, subnets, p, n);
      var s := PortStep(cp, t, netId, h, subnets, p);
      PortStepCounts(cp, t, netId, h, subnets, p);
      if s.goOn {
        assert r == PortPhase(cp, s.trace, netId, h, subnets, p + 1, n);
        PortPhaseOutcome(cp, s.trace, netId, h, subnets, p + 1, n);
      } else {
        assert r == Run(Raised(SubnetNotInMap), s.trace);
      }
    }
  }

  /** The port loop requests a port for every ordinal from `p` to `n` unless
      a plug raises first. */
  lemma {:induction false} PortPhaseRequests(cp: ControlPlane, t: seq<Call>, netId: string,
                                             h: string, subnets: map<string, Subnet>, p: nat, n: nat)
    requires p <= n
    ensures var r := PortPhase(cp, t, netId, h, subnets, p, n);
      && (r.outcome.Returned? ==> Count(r.trace, PortCreation) == Count(t, PortCreation) + (n - p))
      && Count(r.trace, PortCreation) <= Count(t, PortCreation) + (n - p)
    decreases n - p
  {
    if p < n {
      var r := PortPhase(cp, t, netId, h, subnets, p, n);
      var s := PortStep(cp, t, netId, h, subnets, p);
      PortStepCounts(cp, t, netId, h, subnets, p);
      if s.goOn {
        assert r == PortPhase(cp, s.trace, netId, h, subnets, p + 1, n);
        PortPhaseRequests(cp, s.trace, netId, h, subnets, p + 1, n);
      } else {
        assert r == Run(Raised(SubnetNotInMap), s.trace);
      }
    }
  }

  /** Within one ordinal: a created port is plugged right after its request,
      and the only plug follows that request. */
  lemma PortStepPlugs(cp: ControlPlane, t: seq<Call>, netId: string, h: string,
                      subnets: map<string, Subnet>, p: nat, u: seq<Call>)
    requires var s := PortStep(cp, t, netId, h, subnets, p);
      |s.trace| <= |u| && u[..|s.trace|] == s.trace
    ensures var s := PortStep(cp, t, netId, h, subnets, p);
      && (forall i | |t| <= i < |s.trace| && u[i].CreatePort? && cp.portReply(u[..i + 1]).Some? ::
            i + 1 < |s.trace|
            && u[i + 1] == Plug(cp.portReply(u[..i + 1]).value, subnets))
      && (forall i | |t| <= i < |s.trace| && u[i].Plug? ::
            |t| < i && u[i - 1].CreatePort? && cp.portReply(u[..i]).Some?)
  {
    var s := PortStep(cp, t, netId, h, subnets, p);
    var c := CreatePort(netId, PortName(p, h), h);
    PortStepCalls(cp, t, netId, h, subnets, p);
    assert u[..|t| + 1] == s.trace[..|t| + 1] == t + [c];
    assert u[|t|] == (t + [c])[|t|] == c;
    if |s.trace| == |t| + 2 {
      assert u[|t| + 1] == s.trace[|t| + 1];
    }
  }

  /** Every port the control plane creates is plugged right after its
      request, with the port record it returned and the whole dictionary; and every
      plug call follows such a request. */
  lemma {:induction false} PortPhasePlugs(cp: ControlPlane, t: seq<Call>, netId: string,
                                          h: string, subnets: map<string, Subnet>, p: nat, n: nat)
    ensures var r := PortPhase(cp, t, netId, h, subnets, p, n);
      && (forall i | |t| <= i < |r.trace| && r.trace[i].CreatePort? && cp.portReply(r.trace[..i + 1]).Some? ::
            i + 1 < |r.trace|
            && r.trace[i + 1] == Plug(cp.portReply(r.trace[..i + 1]).value, subnets))
      && (forall i | |t| <= i < |r.trace| && r.trace[i].Plug? ::
            |t| < i && r.trace[i - 1].CreatePort? && cp.portReply(r.trace[..i]).Some?)
    decreases n - p
  {
    if p < n {
      var r := PortPhase(cp, t, netId, h, subnets, p, n);
      var s := PortStep(cp, t, netId, h, subnets, p);
      PortStepCalls(cp, t, netId, h, subnets, p);
      if s.goOn {
        assert r == PortPhase(cp, s.trace, netId, h, subnets, p + 1, n);
        PortPhasePlugs(cp, s.trace, netId, h, subnets, p + 1, n);
        PortPhaseAppends(cp, s.trace, netId, h, subnets, p + 1, n);
      } else {
        assert r == Run(Raised(SubnetNotInMap), s.trace);
        assert r.trace[..|s.trace|] == s.trace;
      }
      PortStepPlugs(cp, t, netId, h, subnets, p, r.trace);
    }
  }

  /** Whether the control plane created the unit's network. */
  predicate NetworkCreated(cp: ControlPlane, netNumber: nat, h: string)
  {
    cp.networkReply([CreateNetwork(NetworkName(netNumber, h))]).Some?
  }

  /** The unit always starts by requesting its network; if that fails it
      returns False having made no other call, and otherwise it never
      returns False: it returns True or raises. */
  lemma CreateUnitNetworkGate(cp: ControlPlane, netNumber: nat, ipv4Subnets: int,
                              ipv6Subnets: int, ports: int, h: string)
    ensures var r := CreateUnit(cp, netNumber, ipv4Subnets, ipv6Subnets, ports, h);
      && 1 <= |r.trace| && r.trace[0] == CreateNetwork(NetworkName(netNumber, h))
      && (!NetworkCreated(cp, netNumber, h) ==> r == Run(Returned(false), r.trace[..1]))
      && (r.outcome.Returned? ==> r.outcome.created == NetworkCreated(cp, netNumber, h))
  {
    var r := CreateUnit(cp, netNumber, ipv4Subnets, ipv6Subnets, ports, h);
    var netCall := CreateNetwork(NetworkName(netNumber, h));
    if NetworkCreated(cp, netNumber, h) {
      var netId := cp.networkReply([netCall]).value;
      var n4, n6 := RangeSize(ipv4Subnets), RangeSize(ipv6Subnets);
      if n4 <= V4Octets && !(n4 == 0 && n6 > 0) {
        var t := SubnetPhase(netId, n4, n6, h, netCall);
        var subnets := Collected(cp, t);
        if subnets != map[] {
          PortPhaseAppends(cp, t, netId, h, subnets, 0, RangeSize(ports));
          PortPhaseOutcome(cp, t, netId, h, subnets, 0, RangeSize(ports));
          assert r.trace[0] == r.trace[..|t|][0] == t[0];
        }
      }
    }
  }

  /** The subnet loops, run to the end, make one request per IPv4 and per
      IPv6 ordinal, in that order. */
  lemma SubnetPhaseRequests(netId: string, n4: nat, n6: nat, h: string, netCall: Call)
    requires n4 > 0 && netCall.CreateNetwork?
    ensures var t := SubnetPhase(netId, n4, n6, h, netCall);
      && |t| == 1 + n4 + n6
      && Count(t, SubnetCreation) == n4 + n6
      && (forall k | 0 <= k < n4 :: t[1 + k] == CreateSubnet(netId, V4SubnetName(k, h), V4Cidr(k)))
      && (forall k | 0 <= k < n6 :: t[1 + n4 + k] == CreateSubnet(netId, V6SubnetName(k, h), V6Cidr(n4 - 1)))
  {
    var t := SubnetPhase(netId, n4, n6, h, netCall);
    var v4, v6 := V4Requests(netId, n4, h), V6Requests(netId, n6, n4 - 1, h);
    SubnetPhaseCount(netId, n4, n6, h, netCall);
    forall k | 0 <= k < n4 ensures t[1 + k] == CreateSubnet(netId, V4SubnetName(k, h), V4Cidr(k)) {
      assert t[1 + k] == v4[k];
    }
    forall k | 0 <= k < n6
      ensures t[1 + n4 + k] == CreateSubnet(netId, V6SubnetName(k, h), V6Cidr(n4 - 1))
    {
      assert t[1 + n4 + k] == v6[k];
    }
  }

  /** Every call after the network request is a subnet request. */
  lemma SubnetPhaseCount(netId: string, n4: nat, n6: nat, h: string, netCall: Call)
    requires n4 > 0 && netCall.CreateNetwork?
    ensures Count(SubnetPhase(netId, n4, n6, h, netCall), SubnetCreation) == n4 + n6
  {
    var v4, v6 := V4Requests(netId, n4, h), V6Requests(netId, n6, n4 - 1, h);
    CountAppend([netCall], v4, SubnetCreation);
    CountAppend([netCall] + v4, v6, SubnetCreation);
    CountUniform([netCall], SubnetCreation);
    CountUniform(v4, SubnetCreation);
    CountUniform(v6, SubnetCreation);
  }

  /** Once the network exists and both subnet loops can run, exactly
      `ipv4Subnets + ipv6Subnets` subnet requests are made, right after the
      network request: IPv4 subnet k asks for `192.168.k.0/24`, and every
      IPv6 subnet for the block of the last IPv4 index. */
  lemma CreateUnitSubnetRequests(cp: ControlPlane, netNumber: nat, ipv4Subnets: int,
                                 ipv6Subnets: int, ports: int, h: string)
    requires NetworkCreated(cp, netNumber, h)
    requires 0 < ipv4Subnets <= V4Octets
    ensures var r := CreateUnit(cp, netNumber, ipv4Subnets, ipv6Subnets, ports, h);
      var netId := cp.networkReply([CreateNetwork(NetworkName(netNumber, h))]).value;
      var n6 := RangeSize(ipv6Subnets);
      && 1 + ipv4Subnets + n6 <= |r.trace|
      && Count(r.trace, SubnetCreation) == ipv4Subnets + n6
      && (forall k | 0 <= k < ipv4Subnets ::
            r.trace[1 + k] == CreateSubnet(netId, V4SubnetName(k, h), V4Cidr(k)))
      && (forall k | 0 <= k < n6 ::
            r.trace[1 + ipv4Subnets + k] == CreateSubnet(netId, V6SubnetName(k, h), V6Cidr(ipv4Subnets - 1)))
  {
    var r := CreateUnit(cp, netNumber, ipv4Subnets, ipv6Subnets, ports, h);
    var netCall := CreateNetwork(NetworkName(netNumber, h));
    var netId := cp.networkReply([netCall]).value;
    var t := SubnetPhase(netId, ipv4Subnets, RangeSize(ipv6Subnets), h, netCall);
    SubnetPhaseRequests(netId, ipv4Subnets, RangeSize(ipv6Subnets), h, netCall);
    var subnets := Collected(cp, t);
    if subnets != map[] {
      PortPhaseAppends(cp, t, netId, h, subnets, 0, RangeSize(ports));
      PortPhaseOutcome(cp, t, netId, h, subnets, 0, RangeSize(ports));
      forall i | 0 <= i < |t| ensures r.trace[i] == t[i] {
        assert r.trace[i] == r.trace[..|t|][i];
      }
    }
  }

  /** With no IPv4 subnets but some IPv6 ones, the first IPv6 iteration reads
      the unbound IPv4 loop variable: the unit raises right after creating
      the network, before any subnet request. */
  lemma CreateUnitUnboundV4Subnet(cp: ControlPlane, netNumber: nat, ipv4Subnets: int,
                                  ipv6Subnets: int, ports: int, h: string)
    requires NetworkCreated(cp, netNumber, h)
    requires ipv4Subnets <= 0 < ipv6Subnets
    ensures var r := CreateUnit(cp, netNumber, ipv4Subnets, ipv6Subnets, ports, h);
      && r.outcome == Raised(UnboundV4Subnet)
      && r.trace == [CreateNetwork(NetworkName(netNumber, h))]
      && Count(r.trace, SubnetCreation) == 0
  {
    var r := CreateUnit(cp, netNumber, ipv4Subnets, ipv6Subnets, ports, h);
    CountUniform(r.trace, SubnetCreation);
  }

  /** No subnet of either family asked for: both loops are empty, the
      dictionary stays empty, and the unit returns True after the network
      request alone. */
  lemma CreateUnitNoSubnetsRequested(cp: ControlPlane, netNumber: nat, ipv4Subnets: int,
                                     ipv6Subnets: int, ports: int, h: string)
    requires NetworkCreated(cp, netNumber, h)
    requires ipv4Subnets <= 0 && ipv6Subnets <= 0
    ensures var r := CreateUnit(cp, netNumber, ipv4Subnets, ipv6Subnets, ports, h);
      && r.outcome == Returned(true)
      && r.trace == [CreateNetwork(NetworkName(netNumber, h))]
      && Count(r.trace, SubnetCreation) == 0
      && Count(r.trace, PortCreation) == 0
  {
    var netCall := CreateNetwork(NetworkName(netNumber, h));
    var netId := cp.networkReply([netCall]).value;
    assert V4Requests(netId, 0, h) == [] && V6Requests(netId, 0, 0, h) == [];
    assert SubnetPhase(netId, 0, 0, h, netCall) == [netCall];
    assert [netCall][..0] == [];
    assert Collected(cp, [netCall]) == map[];
    CountUniform([netCall], SubnetCreation);
    CountUniform([netCall], PortCreation);
  }

  /** More than 256 IPv4 subnets: the unit raises at index 256, whose CIDR
      the address parser rejects, after 256 subnet requests and none for
      IPv6 or ports. */
  lemma CreateUnitCidrOverflow(cp: ControlPlane, netNumber: nat, ipv4Subnets: int,
                               ipv6Subnets: int, ports: int, h: string)
    requires NetworkCreated(cp, netNumber, h)
    requires ipv4Subnets > V4Octets
    ensures var r := CreateUnit(cp, netNumber, ipv4Subnets, ipv6Subnets, ports, h);
      && r.outcome == Raised(InvalidCidr(V4Cidr(V4Octets)))
      && Count(r.trace, SubnetCreation) == V4Octets
      && Count(r.trace, PortCreation) == 0
  {
    var r := CreateUnit(cp, netNumber, ipv4Subnets, ipv6Subnets, ports, h);
    var netCall := CreateNetwork(NetworkName(netNumber, h));
    var netId := cp.networkReply([netCall]).value;
    var v4 := V4Requests(netId, V4Octets, h);
    CountAppend([netCall], v4, SubnetCreation);
    CountAppend([netCall], v4, PortCreation);
    CountUniform([netCall], SubnetCreation);
    CountUniform([netCall], PortCreation);
    CountUniform(v4, SubnetCreation);
    CountUniform(v4, PortCreation);
  }

  /** If no subnet request succeeded, no port is requested and none plugged. */
  lemma CreateUnitNoSubnetsNoPorts(cp: ControlPlane, netNumber: nat, ipv4Subnets: int,
                                   ipv6Subnets: int, ports: int, h: string)
    requires NetworkCreated(cp, netNumber, h)
    requires 0 < ipv4Subnets <= V4Octets
    requires var netId := cp.networkReply([CreateNetwork(NetworkName(netNumber, h))]).value;
             var t := SubnetPhase(netId, ipv4Subnets, RangeSize(ipv6Subnets), h,
                                  CreateNetwork(NetworkName(netNumber, h)));
             forall i | 0 <= i < |t| :: t[i].CreateSubnet? ==> cp.subnetReply(t[..i + 1]).None?
    ensures var r := CreateUnit(cp, netNumber, ipv4Subnets, ipv6Subnets, ports, h);
      && r.outcome == Returned(true)
      && Count(r.trace, PortCreation) == 0
      && Count(r.trace, Plugging) == 0
  {
    var netCall := CreateNetwork(NetworkName(netNumber, h));
    var netId := cp.networkReply([netCall]).value;
    var t := SubnetPhase(netId, ipv4Subnets, RangeSize(ipv6Subnets), h, netCall);
    CollectedEmpty(cp, t);
    assert t[0] == netCall;
    CountUniform(t, PortCreation);
    CountUniform(t, Plugging);
    forall i | 0 <= i < |t| ensures KindOf(t[i]) != PortCreation && KindOf(t[i]) != Plugging {
      if i > 0 {
        assert t[i] == t[1..][i - 1];
      }
    }
  }

  /** Once some subnet exists and no plug raises, exactly `ports` port
      requests are made, every one in the unit's network and bound to `h`,
      and the unit returns True. */
  lemma CreateUnitPortRequests(cp: ControlPlane, netNumber: nat, ipv4Subnets: int,
                               ipv6Subnets: int, ports: int, h: string)
    requires NetworkCreated(cp, netNumber, h)
    requires 0 < ipv4Subnets <= V4Octets
    requires var netId := cp.networkReply([CreateNetwork(NetworkName(netNumber, h))]).value;
             var t := SubnetPhase(netId, ipv4Subnets, RangeSize(ipv6Subnets), h,
                                  CreateNetwork(NetworkName(netNumber, h)));
             Collected(cp, t) != map[]
    ensures var r := CreateUnit(cp, netNumber, ipv4Subnets, ipv6Subnets, ports, h);
      var netId := cp.networkReply([CreateNetwork(NetworkName(netNumber, h))]).value;
      && (r.outcome == Returned(true) || r.outcome == Raised(SubnetNotInMap))
      && (r.outcome.Returned? ==> Count(r.trace, PortCreation) == RangeSize(ports))
      && Count(r.trace, PortCreation) <= RangeSize(ports)
      && forall i | 0 <= i < |r.trace| && r.trace[i].CreatePort? ::
           r.trace[i].networkId == netId && r.trace[i].host == h
  {
    var netCall := CreateNetwork(NetworkName(netNumber, h));
    var netId := cp.networkReply([netCall]).value;
    var t := SubnetPhase(netId, ipv4Subnets, RangeSize(ipv6Subnets), h, netCall);
    var r := CreateUnit(cp, netNumber, ipv4Subnets, ipv6Subnets, ports, h);
    PortPhaseOutcome(cp, t, netId, h, Collected(cp, t), 0, RangeSize(ports));
    PortPhaseRequests(cp, t, netId, h, Collected(cp, t), 0, RangeSize(ports));
    PortPhaseAppends(cp, t, netId, h, Collected(cp, t), 0, RangeSize(ports));
    CountUniform(t, PortCreation);
    forall i | 0 <= i < |t| ensures !t[i].CreatePort? {
      if i > 0 {
        assert t[i] == t[1..][i - 1];
      }
    }
    forall i | 0 <= i < |t| ensures r.trace[i] == t[i] {
      assert r.trace[i] == r.trace[..|t|][i];
    }
  }

  /** Every port the control plane creates for the unit is plugged right
      away with the whole subnet dictionary the two loops built, and nothing
      else is plugged. */
  lemma CreateUnitPlugs(cp: ControlPlane, netNumber: nat, ipv4Subnets: int,
                        ipv6Subnets: int, ports: int, h: string)
    requires NetworkCreated(cp, netNumber, h)
    requires 0 < ipv4Subnets <= V4Octets
    ensures var r := CreateUnit(cp, netNumber, ipv4Subnets, ipv6Subnets, ports, h);
      var netId := cp.networkReply([CreateNetwork(NetworkName(netNumber, h))]).value;
      var t := SubnetPhase(netId, ipv4Subnets, RangeSize(ipv6Subnets), h,
                           CreateNetwork(NetworkName(netNumber, h)));
      && (forall i | 0 <= i < |r.trace| && r.trace[i].CreatePort? && cp.portReply(r.trace[..i + 1]).Some? ::
            i + 1 < |r.trace|
            && r.trace[i + 1] == Plug(cp.portReply(r.trace[..i + 1]).value, Collected(cp, t)))
      && (forall i | 0 <= i < |r.trace| && r.trace[i].Plug? ::
            0 < i && r.trace[i - 1].CreatePort? && cp.portReply(r.trace[..i]).Some?)
  {
    var netCall := CreateNetwork(NetworkName(netNumber, h));
    var netId := cp.networkReply([netCall]).value;
    var t := SubnetPhase(netId, ipv4Subnets, RangeSize(ipv6Subnets), h, netCall);
    var r := CreateUnit(cp, netNumber, ipv4Subnets, ipv6Subnets, ports, h);
    forall i | 0 <= i < |t| ensures !t[i].CreatePort? && !t[i].Plug? {
      if i > 0 {
        assert t[i] == t[1..][i - 1];
      }
    }
    if Collected(cp, t) != map[] {
      PortPhasePlugs(cp, t, netId, h, Collected(cp, t), 0, RangeSize(ports));
      PortPhaseAppends(cp, t, netId, h, Collected(cp, t), 0, RangeSize(ports));
      forall i | 0 <= i < |t| ensures r.trace[i] == t[i] {
        assert r.trace[i] == r.trace[..|t|][i];
      }
    }
  }

  /* ---------------- the clean unit ---------------- */

  /** `clean_network_with_ports`: list the network's ports; for each, in
      listing order, look up its subnets, unplug it, delete it; then delete
      the network, as the last call. */
  method CleanNetworkWithPorts(cp: ControlPlane, network: Network) returns (trace: seq<Call>)
    ensures var ports := cp.portsOf([GetPorts(network.id)]);
      && |trace| == 2 + 3 * |ports|
      && trace[0] == GetPorts(network.id)
      && (forall k | 0 <= k < |ports| ::
            && trace[1 + 3 * k] == GetPortSubnets(ports[k])
            && trace[2 + 3 * k] == Unplug(ports[k], cp.subnetsOf(trace[..2 + 3 * k]))
            && trace[3 + 3 * k] == DeletePort(ports[k]))
      && trace[|trace| - 1] == DeleteNetwork(network)
      && forall i | 0 <= i < |trace| - 1 :: !trace[i].DeleteNetwork?
  {
    trace := [GetPorts(network.id)];
    var ports := cp.portsOf(trace);
    var i := 0;
    while i < |ports|
      invariant 0 <= i <= |ports|
      invariant |trace| == 1 + 3 * i
      invariant trace[0] == GetPorts(network.id)
      invariant forall k | 0 <= k < i ::
        && trace[1 + 3 * k] == GetPortSubnets(ports[k])
        && trace[2 + 3 * k] == Unplug(ports[k], cp.subnetsOf(trace[..2 + 3 * k]))
        && trace[3 + 3 * k] == DeletePort(ports[k])
      invariant forall j | 0 <= j < |trace| :: !trace[j].DeleteNetwork?
    {
      var port := ports[i];
      var before := trace;
      var lookedUp := trace + [GetPortSubnets(port)];
      var portSubnets := cp.subnetsOf(lookedUp);
      trace := lookedUp + [Unplug(port, portSubnets), DeletePort(port)];
      assert trace[..2 + 3 * i] == lookedUp;
      forall k | 0 <= k < i
        ensures trace[2 + 3 * k] == Unplug(ports[k], cp.subnetsOf(trace[..2 + 3 * k]))
      {
        assert trace[..2 + 3 * k] == before[..2 + 3 * k];
      }
      i := i + 1;
    }
    var teardown := trace;
    trace := trace + [DeleteNetwork(network)];
    forall k | 0 <= k < |ports|
      ensures trace[2 + 3 * k] == Unplug(ports[k], cp.subnetsOf(trace[..2 + 3 * k]))
    {
      assert trace[..2 + 3 * k] == teardown[..2 + 3 * k];
    }
  }
}
