/** The values the window receives from NetworkManager, reduced to the
    fields its decision logic reads. */
module WifiTypes {

  newtype byte = x: int | 0 <= x < 256

  datatype Option<T> = None | Some(value: T)

  /** A normalised BSSID: the string the network table is keyed by. */
  type Key = string

  /** What `AccessPoint.get_bssid()` hands back: raw bytes or already a
      string, depending on the NetworkManager binding. */
  datatype RawBssid = Bytes(octets: seq<byte>) | Text(text: string)

  /** The bits of NetworkManager's NM80211ApSecurityFlags. */
  datatype SecurityFlag =
    | PairWep40 | PairWep104 | PairTkip | PairCcmp
    | GroupWep40 | GroupWep104 | GroupTkip | GroupCcmp
    | KeyMgmtPsk | KeyMgmt8021x | KeyMgmtSae | KeyMgmtOwe

  /** A flag word, as the set of bits that are on: `|` is union and
      `flags & mask != 0` is a non-empty intersection. */
  type Flags = set<SecurityFlag>

  /** One access point of a scan snapshot. `ssid` is `None` for a hidden
      network; it is the SSID already decoded to text. */
  datatype AccessPoint = AccessPoint(
    bssid: RawBssid,
    ssid: Option<string>,
    strength: int,
    wpaFlags: Flags,
    rsnFlags: Flags)

  /** `get_wpa_flags() | get_rsn_flags()`, the flag set every security
      decision tests. */
  function SecurityFlags(ap: AccessPoint): Flags {
    ap.wpaFlags + ap.rsnFlags
  }

  type Snapshot = seq<AccessPoint>

  /** NetworkManager's NMDeviceState. */
  datatype DeviceState =
    | Unknown | Unmanaged | Unavailable | Disconnected
    | Prepare | Config | NeedAuth | IpConfig | IpCheck | Secondaries
    | Activated | Deactivating | Failed
}
