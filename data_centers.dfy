/** The records the extractor produces (the crate's `DataCenter` and `AvailableService`). */
module DataCenters {
  import opened Wrappers
  import opened Ipv4

  /** The closed vocabulary of hosting services a location can offer. */
  datatype AvailableService = BareMetalServers | VirtualServers | PrivateCloud

  /** One data-center location. */
  datatype DataCenter = DataCenter(
    id: string,
    city: string,
    availableServices: seq<AvailableService>,
    standardBareMetalBandwidth: Option<string>,
    ping: Option<Ipv4Addr>,
    testDownload: Option<string>,
    url: Option<string>)
}
