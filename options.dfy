/** The command-line options the core reads, with their registered defaults.
    The cloud and region names only select the connection and are not
    modelled. */
module Options {

  /** The options the create, clean and discover actions read. */
  datatype Config = Config(
    networks: int,
    ipv4Subnets: int,
    ipv6Subnets: int,
    ports: int,
    concurrency: int,
    l2AgentName: string,
    inventoryFileName: string)

  /** The option defaults. */
  const Defaults: Config := Config(10, 1, 1, 10, 0, "ovn-controller", "hosts")
}
