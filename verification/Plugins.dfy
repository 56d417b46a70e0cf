/** The plugin document every tool reads or repairs. */
module Plugins {
  import opened Keys
  import opened Chronology

  datatype InterfaceType =
    | TokenVoting | Multisig | Admin | Spp | Gauge | Unknown | LockToVote | CapitalDistributor
    | Router | Claimer | CrossChainController | Safe

  datatype Status = PreInstall | Installed | Deprecated | Uninstalled | Abandoned

  datatype Uninstallation = Uninstallation(
    status: bool, blockNumber: Option<nat>, blockTimestamp: Option<nat>, transactionHash: Option<string>)

  const NOT_UNINSTALLED := Uninstallation(false, None, None, None)

  datatype Operation = Grant | Revoke | GrantWithCondition

  datatype Permission = Permission(
    operation: Operation, where: string, who: string, permissionId: string, condition: string)

  datatype Metadata = Metadata(ipfs: string, name: string, description: string, links: seq<string>)

  datatype Plugin = Plugin(
    network: Network,
    address: Address,
    daoAddress: Address,
    transactionHash: string,
    blockNumber: nat,
    blockTimestamp: Option<nat>,
    interfaceType: Option<InterfaceType>,
    implementationAddress: Option<Address>,
    status: Status,
    isSupported: bool,
    uninstalled: Uninstallation,
    conditionAddress: Option<Address>,
    proposalCreationConditionAddress: string,
    pluginSetupRepoAddress: Option<Address>,
    permissions: seq<Permission>,
    tokenAddress: Option<Address>,
    votingEscrow: Option<string>,
    lockManagerAddress: Option<Address>,
    isProcess: bool,
    isBody: bool,
    isSubPlugin: bool,
    isObjection: bool,
    parentPlugin: Option<Address>,
    stageIndex: Option<nat>,
    subPlugins: seq<string>,
    totalStages: Option<nat>,
    metadata: Option<Metadata>,
    processKey: Option<string>)

  /** A plugin of a DAO. Several documents share one when the plugin was updated. */
  datatype Installation = Installation(network: Network, daoAddress: Address, address: Address)

  function InstallationOf(p: Plugin): Installation {
    Installation(p.network, p.daoAddress, p.address)
  }

  /** A run may be limited to one network. */
  predicate InScope(scope: Option<Network>, network: Network) {
    scope.None? || network == scope.value
  }
}
