# neutron-heater, modelled in Dafny

neutron-heater loads an OpenStack Neutron deployment with networks, subnets and
ports that are bound and plugged on the local host, removes them again, and
discovers the hosts that run an L2 agent so that it can write an Ansible
inventory for them. This project models the core of the tool and proves
properties of that model:

- `naming.dfy`: the names the tool generates (`network-<i>-host-<hostname>` and
  the subnet and port names of the same shape), the two CIDR templates, and
  the cleanup filter `re.match(r"network-\d+-host-<hostname>", name)`.
- `options.dfy`: the options the actions read, with their defaults.
- `resources.dfy`: the records the control plane returns, the calls a unit of
  work makes, and the control plane as a set of reply functions over the calls
  made so far. A created subnet or port is the whole record the control plane
  returns, and the unit keeps it unchanged. Any behaviour of the remote side,
  failures included, is one value of `ControlPlane`. Also the subnet dictionary
  a unit builds.
- `vif_client.dfy`: the device client. It builds the tap and bridge device
  names and the subnet objects, and it describes the bridge-type device for a
  port.
- `provision.dfy`: the unit that creates one network with its subnets and
  ports (`create_network_with_ports`) and the unit that tears one network down
  (`clean_network_with_ports`). Each is a method with loops, proved equal to a
  specification function or to an explicit description of its trace. The
  properties are lemmas about those functions.
- `orchestrator.dfy`: what `create_resources` and `clean_all` hand to the
  thread pool. This covers the pool size and the work items, including which
  networks cleanup selects.
- `inventory.dfy`: `discover_hosts`, the choice of inventory writer, and the
  content of each inventory format.

The model keeps the source's defects as written:

- The IPv6 subnets take their CIDR from the last IPv4 index, so every IPv6
  subnet of a network asks for the same block.
- Asking for IPv6 subnets but no IPv4 subnet raises `UnboundLocalError`.
- An IPv4 subnet index of 256 or more gives a CIDR that the address parser
  rejects before the request is sent.
- The cleanup pattern matches only at the start of a name, and a `.` in the
  host name matches any character.
- The plain inventory writer puts no separator between host names.

## Model

| member | source | states |
|---|---|---|
| Naming.Decimal | neutron_heater/shell.py:31 | the index as `%s` prints it: at least one character, all decimal digits |
| Naming.DecimalRoundTrip | neutron_heater/shell.py:31 | reading the printed index back gives the index |
| Naming.DecimalInjective | neutron_heater/shell.py:31 | distinct indices print differently |
| Naming.DecimalNoLeadingZero | neutron_heater/shell.py:31 | a printed index of more than one digit does not start with 0 |
| Naming.LabelInjective | neutron_heater/shell.py:44 | a generated name determines its index and its host name, for every name prefix |
| Naming.NetworkName | neutron_heater/shell.py:30-31 | the network name `network-<index>-host-<hostname>`, the index printed by `Decimal` |
| Naming.NetworkNameInjective | neutron_heater/shell.py:30-31 | two network names are equal only if their indices and host names are equal |
| Naming.V4SubnetName | neutron_heater/shell.py:44 | the IPv4 subnet name `v4_subnet-<index>-host-<hostname>`, the index printed by `Decimal` |
| Naming.V6SubnetName | neutron_heater/shell.py:51 | the IPv6 subnet name `v6_subnet-<index>-host-<hostname>`, the index printed by `Decimal` |
| Naming.PortName | neutron_heater/shell.py:60 | the port name `port-<ordinal>-host-<hostname>`, the ordinal printed by `Decimal` |
| Naming.FirstInvalidV4Cidr | neutron_heater/constants.py:21 | the IPv4 template evaluated at index 256 is `192.168.256.0/24` |
| Naming.V4Cidr | neutron_heater/constants.py:21 | the IPv4 template `192.168.<k>.0/24` filled with the printed index |
| Naming.V6Cidr | neutron_heater/constants.py:22 | the IPv6 template `2000:<k>::/64` filled with the printed index |
| Naming.LeadingDigits | neutron_heater/shell.py:104-105 | the length of the digit run that `\d+` consumes: all digits up to it, and no digit right after it |
| Naming.CleanupFilter | neutron_heater/shell.py:104-107 | the test `clean_all` applies to a listed name: prefix, the longest digit run (at least one digit), `-host-`, then the host name with `.` matching any character, anything after |
| Naming.CleanupFilterIsPatternMatch | neutron_heater/shell.py:104-107 | the filter accepts a name iff some run of one or more digits lets the whole pattern match at the start of the name |
| Naming.NetworkNameFilter | neutron_heater/shell.py:104-107 | the filter for `h` accepts a generated network name of any host iff that host name starts with text the pattern `h` matches |
| Naming.NetworkNameAccepted | neutron_heater/shell.py:30-31 | cleanup for a host accepts every network name generated for that host, at any index |
| Naming.ExtendedHostAccepted | neutron_heater/shell.py:104-107 | cleanup for `h` also accepts the networks of every host whose name extends `h` |
| Naming.DotIsWildcard | neutron_heater/shell.py:104-105 | cleanup for `node.1` accepts the networks of host `nodeX1` |
| Naming.GeneratedIndexNotPadded | neutron_heater/shell.py:30-31 | a generated network name never has the zero-padded index `007` after its prefix |
| Naming.NonCanonicalNameAccepted | neutron_heater/shell.py:104-107 | the filter accepts names with leading zeros and trailing text, which are never generated names |
| Resources.Collected | neutron_heater/shell.py:42-55 | the `subnets` dictionary after the calls so far: each answered subnet call stores the returned record under its id, a later one replacing an earlier one with the same id |
| Resources.CollectedExactly | neutron_heater/shell.py:42-55 | an id is a key of the subnet dictionary iff a subnet call returned a subnet with that id; its entry is the subnet record the control plane returned for the last such call, unchanged |
| Resources.CollectedEmpty | neutron_heater/shell.py:57 | the dictionary is empty iff no subnet call succeeded |
| VifClient.TapName | neutron_heater/os_vif_client.py:83-84 | the tap device is `test-` and the first 9 characters of the port id, never longer than 14 characters |
| VifClient.BridgeName | neutron_heater/os_vif_client.py:86-87 | the bridge device is `br-test-` and the first 6 characters of the port id, never longer than 14 characters |
| VifClient.TapNamesAgree | neutron_heater/os_vif_client.py:83-84 | two ports get the same tap device iff their ids agree on the first 9 characters |
| VifClient.BridgeNamesAgree | neutron_heater/os_vif_client.py:86-87 | two ports get the same bridge device iff their ids agree on the first 6 characters |
| VifClient.TapNameCollision | neutron_heater/os_vif_client.py:83-84 | two distinct port ids that share a tap device |
| VifClient.GetSubnetObjects | neutron_heater/os_vif_client.py:49-56 | succeeds iff every fixed IP names a known subnet; gives one subnet per fixed IP in order with that subnet's CIDR; otherwise raises |
| VifClient.PlugPort | neutron_heater/os_vif_client.py:58-81 | the device description carries the port id, tap and bridge names, the `ovs` plugin, the test network label, the `br-int` bridge, the MAC address, one subnet per fixed IP, and an Open vSwitch port profile whose interface id is the port id and which asks for the switch port to be created; it fails exactly when building the subnets fails |
| Provision.V4Requests | neutron_heater/shell.py:43-46 | the first `count` IPv4 subnet requests: request k is on the network, named `v4_subnet-k-host-h`, with CIDR `192.168.k.0/24` |
| Provision.V6Requests | neutron_heater/shell.py:50-53 | the first `count` IPv6 subnet requests: request k is named `v6_subnet-k-host-h`, and every one has the CIDR of the IPv4 loop variable's last value, not of k |
| Provision.SubnetPhase | neutron_heater/shell.py:36-55 | the calls up to the end of both subnet loops: the network request, the IPv4 requests, then the IPv6 requests built from the last IPv4 index |
| Provision.PortStep | neutron_heater/shell.py:60-63 | one port ordinal: request a port named for the ordinal, bound to the host; when one is returned, plug it with the dictionary, and go on only if every fixed IP's subnet is in it |
| Provision.PortPhase | neutron_heater/shell.py:59-63 | the port loop from an ordinal on: the steps in ordinal order, True after the last, a raise at the first plug whose subnets are not all in the dictionary |
| Provision.CreateNetworkWithPorts | neutron_heater/shell.py:34-64 | the outcome and the calls made are those of `CreateUnit` |
| Provision.CreateUnit | neutron_heater/shell.py:34-64 | one create unit end to end: False when the network call fails; a raise on the octet-256 CIDR or on the unbound IPv4 loop variable; True without ports when no subnet was created; otherwise the port loop |
| Provision.RequestPorts | neutron_heater/shell.py:59-63 | the port loop as the program runs it: its outcome and calls are those of `PortPhase` from ordinal 0 |
| Provision.PortPhaseAppends | neutron_heater/shell.py:59-63 | the port loop only appends calls: port requests on the network, bound to the host, and plugs with the whole subnet dictionary |
| Provision.PortPhaseOutcome | neutron_heater/shell.py:59-64 | the port loop returns True or raises because a subnet is missing from the dictionary; it requests no subnet |
| Provision.PortPhaseRequests | neutron_heater/shell.py:59-61 | when the port loop completes it has requested exactly one port per ordinal, and never more |
| Provision.PortPhasePlugs | neutron_heater/shell.py:61-63 | every created port is plugged right after its creation, with the port record the control plane returned and the dictionary, and every plug follows a created port |
| Provision.CreateUnitNetworkGate | neutron_heater/shell.py:36-41 | the first call creates the network; if it fails the unit returns False after that call alone; a returned Boolean is True iff the network was created |
| Provision.SubnetPhaseRequests | neutron_heater/shell.py:43-55 | the subnet loops request one subnet per IPv4 index with CIDR `192.168.k.0/24`, then one per IPv6 index, all with the CIDR of the last IPv4 index |
| Provision.CreateUnitSubnetRequests | neutron_heater/shell.py:43-55 | a unit whose network was created requests every IPv4 and every IPv6 subnet, the IPv6 ones all with the last IPv4 index's CIDR |
| Provision.CreateUnitUnboundV4Subnet | neutron_heater/shell.py:43-52 | with IPv6 subnets but no IPv4 subnet the unit raises before any subnet request |
| Provision.CreateUnitNoSubnetsRequested | neutron_heater/shell.py:43-64 | with no subnet of either family asked for, the unit returns True after the network request alone, with no subnet and no port request |
| Provision.CreateUnitCidrOverflow | neutron_heater/shell.py:43-46 | with more than 256 IPv4 subnets the unit raises on `192.168.256.0/24` after 256 subnet requests and no port request |
| Provision.CreateUnitNoSubnetsNoPorts | neutron_heater/shell.py:57-64 | if no subnet was created the unit returns True without requesting or plugging any port |
| Provision.CreateUnitPortRequests | neutron_heater/shell.py:57-64 | once a subnet exists the unit returns True with one port request per ordinal, or raises on a plug; every port request is for this network and host |
| Provision.CreateUnitPlugs | neutron_heater/shell.py:59-63 | in the whole unit every created port is plugged right after creation, with the returned port record and the dictionary, and nothing else is plugged |
| Provision.CleanNetworkWithPorts | neutron_heater/shell.py:89-95 | lists the ports, then for each port in order fetches its subnets, unplugs it with them and deletes it; the network is deleted last and only once |
| Orchestrator.Workers | neutron_heater/shell.py:81 | `concurrency or networks`: the concurrency unless it is 0, then the network count; the clean path uses the same expression at line 109 |
| Orchestrator.PoolSizePolicy | neutron_heater/shell.py:81-82 | the pool size is the concurrency when positive, the network count when concurrency is 0, and the pool raises when the chosen number is not positive |
| Orchestrator.CreateDispatch | neutron_heater/shell.py:76-86 | when the pool exists, one work item per network slot 0 .. networks-1, in order, each with the configured IPv4, IPv6 and port counts and the host name |
| Orchestrator.CreateDefaultIsFullyParallel | neutron_heater/shell.py:81-86 | with concurrency 0 there are as many workers as network slots |
| Orchestrator.CreateDefaults | neutron_heater/conf.py:31-66 | with the default options, ten workers each create one network with one IPv4 subnet, one IPv6 subnet and ten ports |
| Orchestrator.Selected | neutron_heater/shell.py:106-108 | the listed networks whose name passes the filter, in listing order |
| Orchestrator.SelectedExactly | neutron_heater/shell.py:106-108 | cleanup selects a listed network iff its name passes the filter |
| Orchestrator.CleanupReclaimsGenerated | neutron_heater/shell.py:102-108 | every listed network of this host, at any index, is selected for cleanup |
| Orchestrator.CleanAll | neutron_heater/shell.py:98-113 | the items are the listed networks that pass the filter, in listing order; the pool size comes from the configuration, not from the number selected |
| Orchestrator.CleanNeedsConfiguredNetworks | neutron_heater/shell.py:109-110 | with concurrency 0 and no configured networks, cleanup gets no pool even though networks of this host were selected |
| Inventory.InventoryWriter | neutron_heater/shell.py:116-120 | YAML when the name ends in `.yaml` or in `yml`, the plain writer otherwise |
| Inventory.InventoryWriterReadsSuffix | neutron_heater/shell.py:117 | the writer depends only on the last five characters of the file name |
| Inventory.InventoryWriterChoice | neutron_heater/shell.py:116-120 | `.yaml` and `.yml` names, and any name ending in `yml` with or without a dot, use YAML; `.yaml.bak` and the default file name `hosts` use the plain writer |
| Inventory.HostsDocument | neutron_heater/shell.py:123-126 | the document `{"all": {"hosts": {h: null}}}` over a set of hosts |
| Inventory.YamlContent | neutron_heater/shell.py:123-126 | the document is `{"all": {"hosts": {h: null}}}` with one key per distinct host |
| Inventory.IniText | neutron_heater/shell.py:137-139 | what `writelines` writes: the host names back to back, in order |
| Inventory.IniTextAppend | neutron_heater/shell.py:137-139 | the plain text of two host lists joined is the text of the first followed by the text of the second |
| Inventory.IniTextLosesBoundaries | neutron_heater/shell.py:137-139 | two different host lists give the same plain file, because no separator is written |
| Inventory.WriteInventoryFile | neutron_heater/shell.py:116-139 | the file holds the YAML document of the hosts, or their plain concatenation, depending on the writer the name selects |
| Inventory.DiscoverHosts | neutron_heater/shell.py:142-150 | the agents listed are those of the configured L2 agent binary; no agents ends discovery without a file; otherwise the hosts are the agents' hosts in order and the file is written from them under the configured name |

## Left out

- Running the work items on the thread pool is not modelled. Only the pool size and the items submitted are. Each unit is modelled on its own, so interleavings between units are not captured.
- The control-plane client is not modelled. Each reply is a function of the calls made so far. A create call that the client catches and logs answers "nothing".
- These client calls appear only as calls in a trace, with their answers taken from the control plane: listing networks, ports and a port's subnets, the deletes, the agent listing and unplugging a port. Their implementations are not part of this model.
- Provision.CleanNetworkWithPorts: `unplug_port` is not defined in `os_vif_client.py`, and `get_ports`, `get_port_subnets`, `delete_port`, `delete_network`, `get_networks` and `get_agents` are not defined in `openstack_client.py`. As those files stand, `clean_all` raises `AttributeError` at `get_networks` (shell.py:102), before any network is selected. Even with that call present, `clean_network_with_ports` would raise at `get_ports` (shell.py:90), before any unplug, so no network would be deleted, with or without ports. Likewise `discover_hosts` would raise at `get_agents`. The model assumes that each of these calls exists and returns without raising, with its answer taken from the control plane.
- The quota call and `main`'s dispatch on the action are not modelled. Neither are option parsing, logging and the client construction in `_get_osclient`.
- `DISCOVER_HOSTS` and `NO_AGENTS_FOUND` are not defined in `constants.py`. Discovery ending without agents is modelled as a distinct outcome with no exit code.
- Provision.CreateNetworkWithPorts: plugging is modelled up to the device description that os-vif receives. The library call itself, and the plug errors it logs, are not part of this model. The instance info (a random UUID, the VM name and the project id) is not modelled either.
- Inventory.YamlContent: the document is modelled as a value. YAML serialisation (sorted keys, nulls printed as empty scalars) and writing the file are not modelled.
- Inventory.IniTextLosesBoundaries: file I/O is not modelled. The text is exactly what `writelines` writes.
- Naming.CleanupFilterIsPatternMatch: `\d` is modelled as the ASCII digits. Host names are limited to letters, digits, `-`, `_` and `.`. For other characters the host name would have to be read as a full regular expression.
- Idempotent cleanup and a create-then-clean round trip are not modelled. Both need a model of the control plane's state, and the control plane here is only the answers it gives.
- `socket.gethostname()` is not modelled. The host name is a parameter.

The model follows the code as written where its evident intent is different. The evident intent would be:

- each IPv6 subnet gets a CIDR from its own IPv6 index;
- at most 256 IPv4 subnets per network, the range of the template's third octet;
- cleanup for a host removes only that host's networks, so the whole host name must match literally;
- the plain inventory lists one host per line.
