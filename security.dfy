/** Decisions taken from an access point's security flags: the label shown
    in the row subtitle, whether a password is needed, and the security
    part of a newly built connection profile. */
module Security {
  import opened WifiTypes

  const WEP40: Flags := {PairWep40}
  const CCMP: Flags := {PairCcmp, GroupCcmp}
  const TKIP: Flags := {PairTkip, GroupTkip}
  const PSK: Flags := {KeyMgmtPsk}
  const KEY_MGMT: Flags := {KeyMgmtPsk, KeyMgmt8021x}
  /** Every bit the label looks at. */
  const LABEL_BITS: Flags := WEP40 + CCMP + TKIP + PSK

  /** `flags & mask` is non-zero. */
  predicate HasAny(flags: Flags, mask: Flags) {
    flags * mask != {}
  }

  /** Position of a label part in the fixed order WEP, WPA2, WPA, PSK. */
  function PartRank(part: string): nat {
    if part == "WEP" then 0
    else if part == "WPA2" then 1
    else if part == "WPA" then 2
    else if part == "PSK" then 3
    else 4
  }

  /** The list `security` built for the subtitle. */
  function SecurityParts(flags: Flags): (parts: seq<string>)
    ensures ("WEP" in parts) == HasAny(flags, WEP40)
    ensures ("WPA2" in parts) == HasAny(flags, CCMP)
    ensures ("WPA" in parts) == HasAny(flags, TKIP)
    ensures ("PSK" in parts) == HasAny(flags, PSK)
  {
    (if HasAny(flags, WEP40) then ["WEP"] else [])
    + (if HasAny(flags, CCMP) then ["WPA2"] else [])
    + (if HasAny(flags, TKIP) then ["WPA"] else [])
    + (if HasAny(flags, PSK) then ["PSK"] else [])
  }

  /** The parts are known ones, each once, in the fixed order. */
  lemma SecurityPartsOrdered(flags: Flags)
    ensures var parts := SecurityParts(flags);
            && (forall i :: 0 <= i < |parts| ==> PartRank(parts[i]) < 4)
            && (forall i, j :: 0 <= i < j < |parts| ==> PartRank(parts[i]) < PartRank(parts[j]))
  {
    var ranks := [PartRank("WEP"), PartRank("WPA2"), PartRank("WPA"), PartRank("PSK")];
    assert ranks == [0, 1, 2, 3];
  }

  /** `", ".join(parts)`. */
  function JoinComma(parts: seq<string>): string {
    if |parts| == 0 then ""
    else if |parts| == 1 then parts[0]
    else parts[0] + ", " + JoinComma(parts[1..])
  }

  /** The security text of a row subtitle: the parts joined, or "Open". */
  function SecurityLabel(flags: Flags): (text: string)
    ensures text == "Open" <==> !HasAny(flags, LABEL_BITS)
  {
    var parts := SecurityParts(flags);
    if parts == [] then "Open"
    else
      JoinStartsWithFirst(parts);
      assert parts[0][0] == 'W' || parts[0][0] == 'P' by {
        SecurityPartsOrdered(flags);
        assert PartRank(parts[0]) < 4;
      }
      JoinComma(parts)
  }

  lemma {:induction false} JoinStartsWithFirst(parts: seq<string>)
    requires |parts| > 0 && |parts[0]| > 0
    ensures |JoinComma(parts)| > 0 && JoinComma(parts)[0] == parts[0][0]
  {
  }

  /** `requires_password`: the access point manages keys by PSK or 802.1X. */
  predicate RequiresPassword(flags: Flags) {
    HasAny(flags, KEY_MGMT)
  }

  const MinPasswordLength := 8

  /** The gate on a typed password: the Connect button is sensitive, and a
      click is accepted, only from eight characters on. */
  predicate PasswordLongEnough(password: string) {
    |password| >= MinPasswordLength
  }

  const WpaPsk := "wpa-psk"
  const Rsn := "rsn"
  const Wpa := "wpa"

  /** The 802-11-wireless-security setting of a new profile. */
  datatype SecuritySetting = SecuritySetting(
    keyMgmt: Option<string>,
    proto: seq<string>,
    psk: Option<string>)

  /** The password stored in a new profile: one that was typed (`if
      password:` treats an empty string like none). */
  function StoredPassword(password: Option<string>): (psk: Option<string>)
    ensures psk.Some? <==> password.Some? && password.value != ""
    ensures psk.Some? ==> psk == password
  {
    if password.Some? && password.value != "" then password else None
  }

  /** The security setting `_build_new_connection` adds, if any: only for
      key-managed networks; CCMP is preferred over TKIP, and a network with
      neither cipher gets a setting with no key management at all. */
  function NewSecuritySetting(flags: Flags, password: Option<string>): (sec: Option<SecuritySetting>)
    ensures sec.Some? <==> RequiresPassword(flags)
    ensures sec.Some? ==> sec.value.psk == StoredPassword(password)
    ensures sec.Some? ==> sec.value.keyMgmt == if HasAny(flags, CCMP) || HasAny(flags, TKIP) then Some(WpaPsk) else None
    ensures sec.Some? && HasAny(flags, CCMP) ==> sec.value.proto == [Rsn]
  {
    if !HasAny(flags, KEY_MGMT) then None
    else
      var psk := StoredPassword(password);
      if HasAny(flags, CCMP) then Some(SecuritySetting(Some(WpaPsk), [Rsn], psk))
      else if HasAny(flags, TKIP) then Some(SecuritySetting(Some(WpaPsk), [Wpa], psk))
      else Some(SecuritySetting(None, [], psk))
  }

  /** The protocol a new profile asks for agrees with what the row label
      shows: "rsn" exactly for networks labelled WPA2, "wpa" exactly for
      networks labelled WPA but not WPA2. */
  lemma ProtoAgreesWithLabel(flags: Flags, password: Option<string>)
    requires RequiresPassword(flags)
    ensures NewSecuritySetting(flags, password).Some?
    ensures var sec := NewSecuritySetting(flags, password).value;
            var parts := SecurityParts(flags);
            (sec.proto == [Rsn] <==> "WPA2" in parts)
            && (sec.proto == [Wpa] <==> "WPA" in parts && "WPA2" !in parts)
            && (sec.proto == [] <==> "WPA" !in parts && "WPA2" !in parts)
  {
  }

  /** A PSK network is never labelled "Open"; an 802.1X network that
      advertises no cipher bits is labelled "Open" and still asks for a
      password, since the label does not look at the 802.1X bit. */
  lemma OpenLabelAndPassword()
    ensures forall f: Flags :: RequiresPassword(f) && HasAny(f, PSK) ==> SecurityLabel(f) != "Open"
    ensures SecurityLabel({KeyMgmt8021x}) == "Open" && RequiresPassword({KeyMgmt8021x})
  {
    forall f: Flags | RequiresPassword(f) && HasAny(f, PSK)
      ensures SecurityLabel(f) != "Open"
    {
      var b :| b in f * PSK;
      assert b in f * LABEL_BITS;
    }
    assert !HasAny({KeyMgmt8021x}, LABEL_BITS) by {
      assert KeyMgmt8021x !in LABEL_BITS;
    }
  }
}
