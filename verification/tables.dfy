/** The constant tables of kmsBase.py: license-state names, their symbolic codes, and the
    vendor error codes. */
module Tables {
  import opened Wrappers

  /** `licenseStates`: the display name of each license-status code. */
  const LicenseStates: map<nat, string> := map[
    0 := "Unlicensed",
    1 := "Activated",
    2 := "Grace Period",
    3 := "Out-of-Tolerance Grace Period",
    4 := "Non-Genuine Grace Period",
    5 := "Notifications Mode",
    6 := "Extended Grace Period"]

  /** `licenseStatesEnum`: the symbolic name of each code. */
  const LicenseStatesEnum: map<string, nat> := map[
    "unlicensed" := 0,
    "licensed" := 1,
    "oobGrace" := 2,
    "ootGrace" := 3,
    "nonGenuineGrace" := 4,
    "notification" := 5,
    "extendedGrace" := 6]

  const SL_E_VL_NOT_WINDOWS_SLP: nat := 0xC004F035
  const SL_E_VL_NOT_ENOUGH_COUNT: nat := 0xC004F038
  const SL_E_VL_BINDING_SERVICE_NOT_ENABLED: nat := 0xC004F039
  const SL_E_VL_INFO_PRODUCT_USER_RIGHT: nat := 0x4004F040
  const SL_I_VL_OOB_NO_BINDING_SERVER_REGISTRATION: nat := 0x4004F041
  const SL_E_VL_KEY_MANAGEMENT_SERVICE_ID_MISMATCH: nat := 0xC004F042
  const SL_E_VL_MACHINE_NOT_BOUND: nat := 0xC004F056

  /** `errorCodes`: the vendor status codes by name. */
  const ErrorCodes: map<string, nat> := map[
    "SL_E_VL_NOT_WINDOWS_SLP" := SL_E_VL_NOT_WINDOWS_SLP,
    "SL_E_VL_NOT_ENOUGH_COUNT" := SL_E_VL_NOT_ENOUGH_COUNT,
    "SL_E_VL_BINDING_SERVICE_NOT_ENABLED" := SL_E_VL_BINDING_SERVICE_NOT_ENABLED,
    "SL_E_VL_INFO_PRODUCT_USER_RIGHT" := SL_E_VL_INFO_PRODUCT_USER_RIGHT,
    "SL_I_VL_OOB_NO_BINDING_SERVER_REGISTRATION" := SL_I_VL_OOB_NO_BINDING_SERVER_REGISTRATION,
    "SL_E_VL_KEY_MANAGEMENT_SERVICE_ID_MISMATCH" := SL_E_VL_KEY_MANAGEMENT_SERVICE_ID_MISMATCH,
    "SL_E_VL_MACHINE_NOT_BOUND" := SL_E_VL_MACHINE_NOT_BOUND]

  /** `getLicenseStatus`: `licenseStates[code] or "Unknown"`. The table lookup raises KeyError
      (`None` here) for any code outside 0-6, and since no name in the table is empty the
      "Unknown" fallback is never taken. */
  function GetLicenseStatus(code: int): (name: Option<string>)
    ensures name.Some? <==> 0 <= code <= 6
    ensures name.Some? ==> name.value == LicenseStates[code]
    ensures name.Some? ==> name.value != "Unknown" && name.value != ""
  {
    if code < 0 || code !in LicenseStates then None
    else if LicenseStates[code] == "" then Some("Unknown")
    else Some(LicenseStates[code])
  }

  /** The two license tables agree: every symbolic name stands for a code that has a display
      name, and no two symbolic names share a code. */
  lemma {:induction false} LicenseTablesAgree()
    ensures forall k :: k in LicenseStatesEnum ==> LicenseStatesEnum[k] in LicenseStates
    ensures forall k1, k2 :: k1 in LicenseStatesEnum && k2 in LicenseStatesEnum && k1 != k2
              ==> LicenseStatesEnum[k1] != LicenseStatesEnum[k2]
  {
  }

  /** Every symbolic state names a code that `getLicenseStatus` reads without raising. */
  lemma {:induction false} EnumStatesReadable()
    ensures forall k :: k in LicenseStatesEnum ==> GetLicenseStatus(LicenseStatesEnum[k]).Some?
  {
    LicenseTablesAgree();
  }

  /** Every error code is a 32-bit value; the severity bits split the table into errors
      (0xC...) and informational codes (0x4...). */
  lemma {:induction false} ErrorCodesAre32Bit()
    ensures forall k :: k in ErrorCodes ==> ErrorCodes[k] < 0x1_0000_0000
    ensures forall k :: k in ErrorCodes ==> ErrorCodes[k] / 0x1000_0000 == 0x4 || ErrorCodes[k] / 0x1000_0000 == 0xC
    ensures ErrorCodes["SL_E_VL_KEY_MANAGEMENT_SERVICE_ID_MISMATCH"] == 0xC004F042
  {
  }
}
