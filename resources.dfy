/** The records the control plane hands back, the calls a unit of work makes
    to the control plane and to the device client, and the control plane
    itself as an abstract collaborator.

    The control plane is not modelled; it is represented by what it answers.
    Each reply is a function of the calls made so far, the current call last,
    so any behaviour of the remote side (including failures that depend on
    earlier calls) is one value of `ControlPlane`. A create call answers
    `None` where the client logs the exception and returns nothing. */
module Resources {
  import opened Wrappers

  datatype Network = Network(id: string, name: string)

  datatype Subnet = Subnet(id: string, networkId: string, name: string, cidr: string)

  datatype FixedIp = FixedIp(subnetId: string, ipAddress: string)

  datatype Port = Port(
    id: string,
    networkId: string,
    name: string,
    host: string,
    fixedIps: seq<FixedIp>,
    macAddress: string)

  /** One call on the control-plane client or on the device client. */
  datatype Call =
    | CreateNetwork(name: string)
    | CreateSubnet(networkId: string, name: string, cidr: string)
    | CreatePort(networkId: string, name: string, host: string)
    | Plug(port: Port, subnets: map<string, Subnet>)
    | GetPorts(networkId: string)
    | GetPortSubnets(port: Port)
    | Unplug(port: Port, portSubnets: seq<Subnet>)
    | DeletePort(port: Port)
    | DeleteNetwork(network: Network)

  datatype ControlPlane = ControlPlane(
    networkReply: seq<Call> -> Option<string>,
    subnetReply: seq<Call> -> Option<Subnet>,
    portReply: seq<Call> -> Option<Port>,
    portsOf: seq<Call> -> seq<Port>,
    subnetsOf: seq<Call> -> seq<Subnet>)

  /** The Python exceptions that end a unit of work or a run. */
  datatype Error =
    | UnboundV4Subnet        // the IPv6 loop reads the IPv4 loop variable before it is bound
    | InvalidCidr(cidr: string)  // the address parser rejects the CIDR before the request is sent
    | SubnetNotInMap         // a fixed IP names a subnet the unit did not create
    | PoolSizeNotPositive    // the thread pool refuses max_workers <= 0

  /** How a unit of work ends: it returns its Boolean, or an exception escapes. */
  datatype Outcome = Returned(created: bool) | Raised(error: Error)

  /** A finished unit of work: how it ended and the calls it made, in order. */
  datatype Run = Run(outcome: Outcome, trace: seq<Call>)

  /** `len(range(n))`. */
  function RangeSize(n: int): nat
  {
    if n > 0 then n else 0
  }

  /* ---------------- counting calls ---------------- */

  datatype Kind = NetworkCreation | SubnetCreation | PortCreation | Plugging | Other

  function KindOf(c: Call): Kind
  {
    match c
    case CreateNetwork(_) => NetworkCreation
    case CreateSubnet(_, _, _) => SubnetCreation
    case CreatePort(_, _, _) => PortCreation
    case Plug(_, _) => Plugging
    case _ => Other
  }

  /** The number of calls of one kind in a trace. */
  function Count(t: seq<Call>, k: Kind): (n: nat)
    ensures n <= |t|
    decreases |t|
  {
    if t == [] then 0
    else Count(t[..|t| - 1], k) + (if KindOf(t[|t| - 1]) == k then 1 else 0)
  }

  lemma CountSnoc(t: seq<Call>, c: Call, k: Kind)
    ensures Count(t + [c], k) == Count(t, k) + (if KindOf(c) == k then 1 else 0)
  {
    assert (t + [c])[..|t|] == t;
  }

  lemma {:induction false} CountAppend(t: seq<Call>, s: seq<Call>, k: Kind)
    ensures Count(t + s, k) == Count(t, k) + Count(s, k)
    decreases |s|
  {
    if s != [] {
      assert (t + s)[..|t + s| - 1] == t + s[..|s| - 1];
      assert (t + s)[|t + s| - 1] == s[|s| - 1];
      CountAppend(t, s[..|s| - 1], k);
    } else {
      assert t + s == t;
    }
  }

  /** A trace all of one kind has as many calls of that kind as it is long,
      and a trace without that kind none. */
  lemma {:induction false} CountUniform(t: seq<Call>, k: Kind)
    ensures (forall i | 0 <= i < |t| :: KindOf(t[i]) == k) ==> Count(t, k) == |t|
    ensures (forall i | 0 <= i < |t| :: KindOf(t[i]) != k) ==> Count(t, k) == 0
    decreases |t|
  {
    if t != [] {
      CountUniform(t[..|t| - 1], k);
    }
  }

  /* ---------------- the subnet dictionary ---------------- */

  /** The dictionary a unit builds from the subnet calls in `t`: every
      `CreateSubnet` the control plane answered with a subnet, stored as
      returned under its id, a later answer replacing an earlier one with the
      same id. */
  function Collected(cp: ControlPlane, t: seq<Call>): map<string, Subnet>
    decreases |t|
  {
    if t == [] then map[]
    else
      var m := Collected(cp, t[..|t| - 1]);
      var c := t[|t| - 1];
      if c.CreateSubnet? && cp.subnetReply(t).Some? then
        var subnet := cp.subnetReply(t).value;
        m[subnet.id := subnet]
      else m
  }

  /** A subnet call at position `i` of `t` that the control plane answered. */
  ghost predicate SubnetCreatedAt(cp: ControlPlane, t: seq<Call>, i: int, id: string)
  {
    && 0 <= i < |t| && t[i].CreateSubnet?
    && cp.subnetReply(t[..i + 1]).Some? && cp.subnetReply(t[..i + 1]).value.id == id
  }

  /** Dropping the last call keeps the successful subnet calls before it. */
  lemma SubnetCreatedInPrefix(cp: ControlPlane, t: seq<Call>, id: string)
    requires t != []
    ensures forall i :: SubnetCreatedAt(cp, t[..|t| - 1], i, id) <==> i < |t| - 1 && SubnetCreatedAt(cp, t, i, id)
  {
    var u := t[..|t| - 1];
    forall i ensures SubnetCreatedAt(cp, u, i, id) <==> i < |t| - 1 && SubnetCreatedAt(cp, t, i, id) {
      if 0 <= i < |t| - 1 {
        assert u[..i + 1] == t[..i + 1];
      }
    }
  }

  /** Only subnets the control plane created enter the dictionary, and every
      created subnet's id is a key; the entry under an id is the record the
      control plane returned, unchanged, for the last call answered with that
      id. */
  lemma {:induction false} CollectedExactly(cp: ControlPlane, t: seq<Call>, id: string)
    ensures id in Collected(cp, t) <==> exists i :: SubnetCreatedAt(cp, t, i, id)
    ensures id in Collected(cp, t) ==>
      exists i ::
        && SubnetCreatedAt(cp, t, i, id)
        && Collected(cp, t)[id] == cp.subnetReply(t[..i + 1]).value
        && forall j | i < j < |t| :: !SubnetCreatedAt(cp, t, j, id)
    decreases |t|
  {
    if t != [] {
      var last := |t| - 1;
      var u := t[..last];
      CollectedExactly(cp, u, id);
      SubnetCreatedInPrefix(cp, t, id);
      assert t[..last + 1] == t;
      if SubnetCreatedAt(cp, t, last, id) {
        assert Collected(cp, t)[id] == cp.subnetReply(t[..last + 1]).value;
      } else if id in Collected(cp, u) {
        var i :| && SubnetCreatedAt(cp, u, i, id)
                 && Collected(cp, u)[id] == cp.subnetReply(u[..i + 1]).value
                 && forall j | i < j < |u| :: !SubnetCreatedAt(cp, u, j, id);
        assert SubnetCreatedAt(cp, t, i, id);
        assert u[..i + 1] == t[..i + 1];
      }
    }
  }

  /** The dictionary is empty exactly when no subnet call in `t` succeeded. */
  lemma CollectedEmpty(cp: ControlPlane, t: seq<Call>)
    ensures Collected(cp, t) == map[]
        <==> forall i | 0 <= i < |t| :: !(t[i].CreateSubnet? && cp.subnetReply(t[..i + 1]).Some?)
  {
    if Collected(cp, t) != map[] {
      var id :| id in Collected(cp, t);
      CollectedExactly(cp, t, id);
    }
    forall i | 0 <= i < |t| && t[i].CreateSubnet? && cp.subnetReply(t[..i + 1]).Some?
      ensures Collected(cp, t) != map[]
    {
      var id := cp.subnetReply(t[..i + 1]).value.id;
      CollectedExactly(cp, t, id);
      assert SubnetCreatedAt(cp, t, i, id);
    }
  }
}
