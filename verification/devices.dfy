/** The device descriptor (NXTInfo) shared by every transport, and the protocol selectors of NXTCommFactory. */
module Devices {
  import opened Results

  const USB: int := 1
  const BLUETOOTH: int := 2
  /** USB | BLUETOOTH */
  const ALL_PROTOCOLS: int := 3

  /** An NXT as found by a search: None stands for a null field. */
  datatype NxtInfo = NxtInfo(name: Option<string>, address: Option<string>, protocol: int, resource: Option<string>)

  /** The public constructor NXTInfo(protocol, name, address). */
  function Describe(protocol: int, name: Option<string>, address: Option<string>): NxtInfo
  {
    NxtInfo(name, address, protocol, None)
  }
}
