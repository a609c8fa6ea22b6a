/** What `create_resources` and `clean_all` hand to the thread pool: the pool
    size and the list of work items. Running the items concurrently is not
    modelled. */
module Orchestrator {
  import opened Wrappers
  import opened Naming
  import opened Resources
  import opened Options

  /** `config.concurrency or config.networks`: the configured concurrency
      unless it is 0, then the configured network count. */
  function Workers(config: Config): int
  {
    if config.concurrency != 0 then config.concurrency else config.networks
  }

  /** The thread pool accepts only a positive number of workers and raises
      otherwise. */
  function Pool(workers: int): Result<nat, Error>
  {
    if workers > 0 then Success(workers) else Failure(PoolSizeNotPositive)
  }

  /** A pool size and the items submitted to it. */
  datatype Dispatch<T> = Dispatch(workers: nat, items: seq<T>)

  /** The pool size policy: the configured concurrency when positive; when it
      is 0, one worker per configured network; no pool at all when the chosen
      number is not positive. */
  lemma PoolSizePolicy(config: Config)
    ensures config.concurrency > 0 ==> Pool(Workers(config)) == Success(config.concurrency)
    ensures config.concurrency == 0 && config.networks > 0 ==>
              Pool(Workers(config)) == Success(config.networks)
    ensures config.concurrency < 0 || (config.concurrency == 0 && config.networks <= 0) ==>
              Pool(Workers(config)) == Failure(PoolSizeNotPositive)
  {
  }

  /** The arguments `create_resources` submits for one network slot. */
  datatype CreateJob = CreateJob(netNumber: nat, ipv4Subnets: int, ipv6Subnets: int,
                                 ports: int, hostname: string)

  /** `create_resources` on the host named `h`: one item per network slot
      `0 .. networks - 1`, each carrying the configured subnet and port
      counts. */
  function CreateDispatch(config: Config, h: string): (r: Result<Dispatch<CreateJob>, Error>)
    ensures r.Success? <==> Workers(config) > 0
    ensures r.Success? ==>
      && r.value.workers == Workers(config)
      && |r.value.items| == RangeSize(config.networks)
      && forall i | 0 <= i < |r.value.items| ::
           r.value.items[i] == CreateJob(i, config.ipv4Subnets, config.ipv6Subnets, config.ports, h)
  {
    match Pool(Workers(config))
    case Failure(e) => Failure(e)
    case Success(w) =>
      var n := RangeSize(config.networks);
      Success(Dispatch(w, seq(n, i requires 0 <= i < n =>
        CreateJob(i, config.ipv4Subnets, config.ipv6Subnets, config.ports, h))))
  }

  /** By default the create path runs every network slot on a worker of its
      own: the pool is exactly as large as the list of slots. */
  lemma CreateDefaultIsFullyParallel(config: Config, h: string)
    requires config.concurrency == 0 && config.networks > 0
    ensures CreateDispatch(config, h).Success?
    ensures CreateDispatch(config, h).value.workers == |CreateDispatch(config, h).value.items|
  {
  }

  /** With every option at its default, ten workers each create one network
      with one IPv4 subnet, one IPv6 subnet and ten ports. */
  lemma CreateDefaults(h: string)
    ensures CreateDispatch(Defaults, h).Success?
    ensures CreateDispatch(Defaults, h).value.workers == 10
    ensures CreateDispatch(Defaults, h).value.items
         == seq(10, i requires 0 <= i < 10 => CreateJob(i, 1, 1, 10, h))
  {
    CreateDefaultIsFullyParallel(Defaults, h);
  }

  /** The networks `clean_all` keeps, in listing order. */
  function Selected(all: seq<Network>, h: string): seq<Network>
    requires IsHostname(h)
    decreases |all|
  {
    if all == [] then []
    else
      var last := all[|all| - 1];
      Selected(all[..|all| - 1], h) + (if CleanupFilter(last.name, h) then [last] else [])
  }

  /** Cleanup keeps exactly the listed networks whose name passes the filter. */
  lemma {:induction false} SelectedExactly(all: seq<Network>, h: string, n: Network)
    requires IsHostname(h)
    ensures n in Selected(all, h) <==> n in all && CleanupFilter(n.name, h)
    ensures |Selected(all, h)| <= |all|
    decreases |all|
  {
    if all != [] {
      var init := all[..|all| - 1];
      SelectedExactly(init, h, n);
      assert all == init + [all[|all| - 1]];
    }
  }

  /** Every network this host created is cleaned, whatever its index: a run
      configured with fewer networks than the run that created them still
      reclaims them all. */
  lemma CleanupReclaimsGenerated(all: seq<Network>, h: string, n: Network, i: nat)
    requires IsHostname(h)
    requires n in all && n.name == NetworkName(i, h)
    ensures n in Selected(all, h)
  {
    NetworkNameAccepted(i, h);
    SelectedExactly(all, h, n);
  }

  /** `clean_all`: select the networks named for this host, then start the
      pool. The pool size comes from the configuration, not from how many
      networks were selected. */
  method CleanAll(config: Config, hostname: string, allNetworks: seq<Network>)
    returns (r: Result<Dispatch<Network>, Error>)
    requires IsHostname(hostname)
    ensures r.Success? <==> Workers(config) > 0
    ensures r.Success? ==>
      && r.value.workers == Workers(config)
      && r.value.items == Selected(allNetworks, hostname)
      && forall n :: n in r.value.items <==> n in allNetworks && CleanupFilter(n.name, hostname)
  {
    var toClean: seq<Network> := [];
    var i := 0;
    while i < |allNetworks|
      invariant 0 <= i <= |allNetworks|
      invariant toClean == Selected(allNetworks[..i], hostname)
    {
      var network := allNetworks[i];
      assert allNetworks[..i + 1][..i] == allNetworks[..i];
      if CleanupFilter(network.name, hostname) {
        toClean := toClean + [network];
      }
      i := i + 1;
    }
    assert allNetworks[..i] == allNetworks;
    forall n ensures n in toClean <==> n in allNetworks && CleanupFilter(n.name, hostname) {
      SelectedExactly(allNetworks, hostname, n);
    }
    var pool := Pool(Workers(config));
    if pool.Failure? {
      return Failure(pool.error);
    }
    return Success(Dispatch(pool.value, toClean));
  }

  /** With concurrency 0 the clean pool is sized by the configured network
      count: configuring no networks leaves cleanup without a pool even when
      networks of this host exist. */
  lemma CleanNeedsConfiguredNetworks(config: Config, h: string, all: seq<Network>, i: nat)
    requires IsHostname(h)
    requires config.concurrency == 0 && config.networks == 0
    requires Network("net-id", NetworkName(i, h)) in all
    ensures |Selected(all, h)| > 0
    ensures Pool(Workers(config)).Failure?
  {
    CleanupReclaimsGenerated(all, h, Network("net-id", NetworkName(i, h)), i);
  }
}
