/** Host discovery and the inventory file of shell.py: the hosts of the
    agents found, the writer chosen by the file name, and the content each
    writer produces. Serialising the content and writing the file are not
    modelled. */
module Inventory {
  import opened Options

  datatype Writer = YamlWriter | IniWriter

  predicate EndsWith(s: string, suffix: string)
  {
    |suffix| <= |s| && s[|s| - |suffix|..] == suffix
  }

  /** `write_inventory_file`: YAML for names ending in ".yaml" or in "yml"
      (with or without a dot before it), the plain writer for anything else. */
  function InventoryWriter(filename: string): Writer
  {
    if EndsWith(filename, ".yaml") || EndsWith(filename, "yml") then YamlWriter else IniWriter
  }

  /** The choice reads nothing but the last five characters of the name:
      two names that end alike get the same writer, whatever precedes. */
  lemma InventoryWriterReadsSuffix(a: string, b: string, suffix: string)
    requires |suffix| >= 5
    ensures InventoryWriter(a + suffix) == InventoryWriter(b + suffix)
  {
    var x, y := a + suffix, b + suffix;
    assert x[|x| - 5..] == suffix[|suffix| - 5..] == y[|y| - 5..];
    assert x[|x| - 3..] == suffix[|suffix| - 3..] == y[|y| - 3..];
  }

  /** How the suffix test decides, on the names it meets. */
  lemma InventoryWriterChoice(base: string)
    ensures InventoryWriter(base + ".yaml") == YamlWriter
    ensures InventoryWriter(base + ".yml") == YamlWriter
    ensures InventoryWriter(base + "yml") == YamlWriter
    ensures InventoryWriter(base + ".yaml.bak") == IniWriter
    ensures InventoryWriter(Defaults.inventoryFileName) == IniWriter
  {
    var a, b, c, d := base + ".yaml", base + ".yml", base + "yml", base + ".yaml.bak";
    assert a[|a| - 5..] == ".yaml";
    assert b[|b| - 3..] == "yml";
    assert c[|c| - 3..] == "yml";
    assert d[|d| - 4..] == ".bak";
    assert d[|d| - 3..] == "bak";
    assert d[|d| - 5..][1..] == d[|d| - 4..];
  }

  /** A YAML node: null or a mapping. */
  datatype Yaml = Null | Mapping(entries: map<string, Yaml>)

  /** `{"all": {"hosts": {h: None for each host}}}`. */
  function HostsDocument(hosts: set<string>): Yaml
  {
    Mapping(map["all" := Mapping(map["hosts" := Mapping(map h | h in hosts :: Null)])])
  }

  /** The content `write_yaml_file` dumps: every host once, with a null
      value, under "all" and "hosts"; repeated hosts collapse into one key. */
  method YamlContent(hosts: seq<string>) returns (content: Yaml)
    ensures content.Mapping? && content.entries.Keys == {"all"}
    ensures content.entries["all"] == Mapping(map["hosts" := Mapping(map h | h in hosts :: Null)])
    ensures content == HostsDocument(set h | h in hosts)
  {
    var hostEntries: map<string, Yaml> := map[];
    var i := 0;
    while i < |hosts|
      invariant 0 <= i <= |hosts|
      invariant hostEntries == map h | h in hosts[..i] :: Null
    {
      assert hosts[..i + 1] == hosts[..i] + [hosts[i]];
      hostEntries := hostEntries[hosts[i] := Null];
      i := i + 1;
    }
    assert hosts[..i] == hosts;
    content := Mapping(map["all" := Mapping(map["hosts" := Mapping(hostEntries)])]);
    var hostSet := set h | h in hosts;
    assert hostEntries == map h | h in hostSet :: Null;
  }

  /** `write_ini_file`: `writelines` adds no separator, so the host names are
      written back to back. */
  function IniText(hosts: seq<string>): string
    decreases |hosts|
  {
    if hosts == [] then "" else IniText(hosts[..|hosts| - 1]) + hosts[|hosts| - 1]
  }

  /** The plain text of a concatenation of host lists is the concatenation
      of their texts. */
  lemma {:induction false} IniTextAppend(a: seq<string>, b: seq<string>)
    ensures IniText(a + b) == IniText(a) + IniText(b)
    decreases |b|
  {
    if b == [] {
      assert a + b == a;
    } else {
      var init := b[..|b| - 1];
      IniTextAppend(a, init);
      assert (a + b)[..|a + b| - 1] == a + init;
      assert (a + b)[|a + b| - 1] == b[|b| - 1];
    }
  }

  /** Different host lists can give the same plain file: the boundaries
      between host names are lost. */
  lemma IniTextLosesBoundaries()
    ensures ["node-1", "0"] != ["node-", "10"]
    ensures IniText(["node-1", "0"]) == IniText(["node-", "10"]) == "node-10"
  {
    assert ["node-1", "0"][..1] == ["node-1"];
    assert ["node-", "10"][..1] == ["node-"];
    assert ["node-1"][..0] == [] && ["node-"][..0] == [];
  }

  datatype InventoryFile = YamlFile(document: Yaml) | IniFile(text: string)

  /** `write_inventory_file`: the content of the file, by the chosen writer. */
  method WriteInventoryFile(hosts: seq<string>, filename: string) returns (f: InventoryFile)
    ensures InventoryWriter(filename) == YamlWriter ==> f == YamlFile(HostsDocument(set h | h in hosts))
    ensures InventoryWriter(filename) == IniWriter ==> f == IniFile(IniText(hosts))
  {
    if InventoryWriter(filename) == YamlWriter {
      var content := YamlContent(hosts);
      f := YamlFile(content);
    } else {
      f := IniFile(IniText(hosts));
    }
  }

  /** An agent of the requested binary, as the agent listing returns it. */
  datatype Agent = Agent(host: string)

  /** How discovery ends: the process exits with the "no agents" status
      before writing anything, or the inventory is written. */
  datatype Discovery = NoAgentsFound | Written(file: InventoryFile)

  /** `discover_hosts`: list the agents whose binary is the configured L2
      agent name (`agentsOf` is the control plane's agent listing), collect
      their hosts in agent order, and write the inventory to the configured
      file name. */
  method DiscoverHosts(config: Config, agentsOf: string -> seq<Agent>)
    returns (d: Discovery, hosts: seq<string>)
    ensures var agents := agentsOf(config.l2AgentName);
      && (d == NoAgentsFound <==> agents == [])
      && (d == NoAgentsFound ==> hosts == [])
      && (d.Written? ==>
            && |hosts| == |agents|
            && (forall i | 0 <= i < |agents| :: hosts[i] == agents[i].host)
            && (InventoryWriter(config.inventoryFileName) == YamlWriter ==>
                  d.file == YamlFile(HostsDocument(set h | h in hosts)))
            && (InventoryWriter(config.inventoryFileName) == IniWriter ==>
                  d.file == IniFile(IniText(hosts))))
  {
    var agents := agentsOf(config.l2AgentName);
    if agents == [] {
      return NoAgentsFound, [];
    }
    hosts := [];
    var i := 0;
    while i < |agents|
      invariant 0 <= i <= |agents|
      invariant |hosts| == i
      invariant forall j | 0 <= j < i :: hosts[j] == agents[j].host
    {
      hosts := hosts + [agents[i].host];
      i := i + 1;
    }
    var file := WriteInventoryFile(hosts, config.inventoryFileName);
    d := Written(file);
  }
}
