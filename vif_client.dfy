/** The device client of os_vif_client.py: the names of the local tap and
    bridge devices of a port, and the device description built for a port
    before it is handed to the os-vif library. The library call itself is not
    modelled. */
module VifClient {
  import opened Wrappers
  import opened Resources

  const TapDevicePrefix: string := "test-"
  const BridgeDevicePrefix: string := "br-test-"
  /** Linux limits interface names to this many characters. */
  const LinuxDevLen: nat := 14

  function Min(a: nat, b: nat): nat { if a <= b then a else b }

  /** Python's `s[:n]`. */
  function Truncate(s: string, n: nat): string
  {
    if |s| <= n then s else s[..n]
  }

  /** The tap device: the prefix and as much of the port id as fits. */
  function TapName(port: Port): (name: string)
    ensures |name| <= LinuxDevLen
    ensures name == TapDevicePrefix + port.id[..Min(LinuxDevLen - |TapDevicePrefix|, |port.id|)]
  {
    var full := TapDevicePrefix + port.id;
    assert |full| > LinuxDevLen ==> full[..LinuxDevLen] == TapDevicePrefix + port.id[..9];
    Truncate(full, LinuxDevLen)
  }

  /** The bridge device: the prefix and as much of the port id as fits. */
  function BridgeName(port: Port): (name: string)
    ensures |name| <= LinuxDevLen
    ensures name == BridgeDevicePrefix + port.id[..Min(LinuxDevLen - |BridgeDevicePrefix|, |port.id|)]
  {
    var full := BridgeDevicePrefix + port.id;
    assert |full| > LinuxDevLen ==> full[..LinuxDevLen] == BridgeDevicePrefix + port.id[..6];
    Truncate(full, LinuxDevLen)
  }

  /** Two ports get the same tap device exactly when their ids agree on the
      first 9 characters, so the names depend on the id alone and collide
      for ids that differ only further on. */
  lemma TapNamesAgree(p: Port, q: Port)
    ensures TapName(p) == TapName(q) <==> p.id[..Min(9, |p.id|)] == q.id[..Min(9, |q.id|)]
  {
    if TapName(p) == TapName(q) {
      var a, b := p.id[..Min(9, |p.id|)], q.id[..Min(9, |q.id|)];
      assert TapDevicePrefix + a == TapDevicePrefix + b;
      assert a == (TapDevicePrefix + a)[|TapDevicePrefix|..];
      assert b == (TapDevicePrefix + b)[|TapDevicePrefix|..];
    }
  }

  /** The same for bridges, on the first 6 characters. */
  lemma BridgeNamesAgree(p: Port, q: Port)
    ensures BridgeName(p) == BridgeName(q) <==> p.id[..Min(6, |p.id|)] == q.id[..Min(6, |q.id|)]
  {
    if BridgeName(p) == BridgeName(q) {
      var a, b := p.id[..Min(6, |p.id|)], q.id[..Min(6, |q.id|)];
      assert BridgeDevicePrefix + a == BridgeDevicePrefix + b;
      assert a == (BridgeDevicePrefix + a)[|BridgeDevicePrefix|..];
      assert b == (BridgeDevicePrefix + b)[|BridgeDevicePrefix|..];
    }
  }

  /** Truncation is not injective: two distinct port ids, one tap device. */
  lemma TapNameCollision(p: Port, q: Port)
    requires p.id == "0123456789-a" && q.id == "0123456789-b"
    ensures p.id != q.id && TapName(p) == TapName(q) == "test-012345678"
  {
    TapNamesAgree(p, q);
    assert p.id[..9] == q.id[..9] == "012345678";
  }

  /** An os-vif subnet object, which carries only its CIDR here. */
  datatype VifSubnet = VifSubnet(cidr: string)

  /** The Open vSwitch port profile: the interface id the switch port is
      tagged with, and whether os-vif creates the switch port itself. */
  datatype PortProfile = OpenVSwitchProfile(interfaceId: string, createPort: bool)

  /** The bridge-type device description handed to os-vif for a port. */
  datatype VifBridge = VifBridge(
    id: string,
    vifName: string,
    bridgeName: string,
    plugin: string,
    networkLabel: string,
    integrationBridge: string,
    subnets: seq<VifSubnet>,
    portProfile: PortProfile,
    address: string)

  /** Every fixed IP of the port names a subnet of the dictionary. */
  predicate AllSubnetsKnown(port: Port, subnets: map<string, Subnet>)
  {
    forall i | 0 <= i < |port.fixedIps| :: port.fixedIps[i].subnetId in subnets
  }

  /** One subnet object per fixed IP, in fixed-IP order, with the CIDR of the
      dictionary entry for that IP's subnet. A fixed IP whose subnet is not a
      key makes `subnets.get` yield None, and indexing it raises. */
  method GetSubnetObjects(port: Port, subnets: map<string, Subnet>)
    returns (r: Result<seq<VifSubnet>, Error>)
    ensures r.Success? <==> AllSubnetsKnown(port, subnets)
    ensures r.Success? ==>
      && |r.value| == |port.fixedIps|
      && forall i | 0 <= i < |port.fixedIps| ::
           r.value[i] == VifSubnet(subnets[port.fixedIps[i].subnetId].cidr)
    ensures r.Failure? ==> r.error == SubnetNotInMap
  {
    var objects: seq<VifSubnet> := [];
    var i := 0;
    while i < |port.fixedIps|
      invariant 0 <= i <= |port.fixedIps|
      invariant forall j | 0 <= j < i :: port.fixedIps[j].subnetId in subnets
      invariant |objects| == i
      invariant forall j | 0 <= j < i ::
        objects[j] == VifSubnet(subnets[port.fixedIps[j].subnetId].cidr)
    {
      var fixedIp := port.fixedIps[i];
      if fixedIp.subnetId !in subnets {
        return Failure(SubnetNotInMap);
      }
      objects := objects + [VifSubnet(subnets[fixedIp.subnetId].cidr)];
      i := i + 1;
    }
    return Success(objects);
  }

  /** The part of `plug_port` that is this client's own: the device
      description for the port. It fails where building the subnet objects
      raises; otherwise the description names the port's devices, its MAC
      address, one subnet per fixed IP, and a switch port profile tagged with
      the port's id that asks os-vif to create the switch port. */
  method PlugPort(port: Port, subnets: map<string, Subnet>) returns (r: Result<VifBridge, Error>)
    ensures r.Success? <==> AllSubnetsKnown(port, subnets)
    ensures r.Failure? ==> r.error == SubnetNotInMap
    ensures r.Success? ==>
      && r.value.id == port.id
      && r.value.vifName == TapName(port)
      && r.value.bridgeName == BridgeName(port)
      && r.value.plugin == "ovs"
      && r.value.networkLabel == "neutron-heater-test-net"
      && r.value.integrationBridge == "br-int"
      && r.value.portProfile.interfaceId == port.id
      && r.value.portProfile.createPort
      && r.value.address == port.macAddress
      && |r.value.subnets| == |port.fixedIps|
      && forall i | 0 <= i < |port.fixedIps| ::
           r.value.subnets[i] == VifSubnet(subnets[port.fixedIps[i].subnetId].cidr)
  {
    var objects := GetSubnetObjects(port, subnets);
    if objects.Failure? {
      return Failure(objects.error);
    }
    r := Success(VifBridge(
      port.id, TapName(port), BridgeName(port), "ovs",
      "neutron-heater-test-net", "br-int", objects.value,
      OpenVSwitchProfile(port.id, true), port.macAddress));
  }
}
