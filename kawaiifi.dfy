/**
 * The records the scanner produces. They come from the `kawaiifi` crate, whose
 * accessors are plain field reads here; two records are equal exactly when all
 * their fields are equal (the crate's `PartialEq` on `Bss` is taken to be that).
 */
module Kawaiifi {
  import opened Wrappers

  type Byte = b: int | 0 <= b < 256

  /**
   * A field-less enumeration of the crate (channel width, band, the set of
   * Wi-Fi protocols): `rank` is the position its derived ordering compares,
   * `text` is what its `Display` prints.
   */
  datatype Ordinal = Ordinal(rank: nat, text: string)

  datatype Channel = Channel(number: nat, width: Ordinal, band: Ordinal, centerFreqMhz: nat)

  /** An information element: numeric id, name, raw bytes, and the display text of each sub-field. */
  datatype Ie = Ie(id: nat, name: string, bytes: seq<Byte>, fields: seq<string>)

  /** One basic service set as a scan reports it. */
  datatype Bss = Bss(
    bssid: seq<Byte>,
    ssid: Option<string>,
    channel: Channel,
    signalDbm: int,
    wifiProtocols: Ordinal,
    ies: seq<Ie>)
}
