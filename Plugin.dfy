/**
 * `withNfc`: the plugin's entry point, which applies the NFC edits to the
 * entitlements file, Info.plist and the main activity of the Android
 * manifest in a fixed order, with the usage description gated on
 * `nfcPermission !== false`.
 */
module Plugin {
  import opened Wrappers
  import opened Plist
  import opened Manifest

  /** The plugin's options. */
  datatype NfcProps = NfcProps(
    nfcPermission: NfcPermission,
    selectIdentifiers: Option<seq<string>>,
    systemCodes: Option<seq<string>>,
    includeNdefEntitlement: Option<bool>,
    intentFilters: seq<IntentFilterSpec>)

  /** The entitlements file after the formats merge. */
  function EntitlementsAfterNfc(m: map<string, Value>, props: NfcProps): (r: map<string, Value>)
    ensures FORMATS_KEY in r && r[FORMATS_KEY].Arr? && "TAG" in r[FORMATS_KEY].items
    ensures props.includeNdefEntitlement != Some(false) ==> "NDEF" in r[FORMATS_KEY].items
    ensures forall k :: k != FORMATS_KEY ==> (k in r <==> k in m) && (k in m ==> r[k] == m[k])
  {
    Merged(m, FORMATS_KEY, Some(NfcFormats(props.includeNdefEntitlement)))
  }

  /** Info.plist after the identifier and system-code merges, the stages that come before the Android edit. */
  function InfoPlistMerges(m: map<string, Value>, props: NfcProps): (r: map<string, Value>)
    ensures forall x :: x in props.selectIdentifiers.GetOr([]) ==>
      SELECT_IDENTIFIERS_KEY in r && r[SELECT_IDENTIFIERS_KEY].Arr? && x in r[SELECT_IDENTIFIERS_KEY].items
    ensures forall x :: x in props.systemCodes.GetOr([]) ==>
      SYSTEM_CODES_KEY in r && r[SYSTEM_CODES_KEY].Arr? && x in r[SYSTEM_CODES_KEY].items
    ensures forall k :: k != SELECT_IDENTIFIERS_KEY && k != SYSTEM_CODES_KEY ==>
      (k in r <==> k in m) && (k in m ==> r[k] == m[k])
  {
    var withIdentifiers := Merged(m, SELECT_IDENTIFIERS_KEY, Some(props.selectIdentifiers.GetOr([])));
    Merged(withIdentifiers, SYSTEM_CODES_KEY, Some(props.systemCodes.GetOr([])))
  }

  /** Info.plist after the whole run: the merges, then the usage description unless it is switched off. */
  function InfoPlistAfterNfc(m: map<string, Value>, props: NfcProps): (r: map<string, Value>)
    ensures forall k :: k != SELECT_IDENTIFIERS_KEY && k != SYSTEM_CODES_KEY && k != USAGE_DESCRIPTION_KEY ==>
      (k in r <==> k in m) && (k in m ==> r[k] == m[k])
    ensures forall k :: k == SELECT_IDENTIFIERS_KEY || k == SYSTEM_CODES_KEY ==>
      (k in r <==> k in InfoPlistMerges(m, props)) && (k in r ==> r[k] == InfoPlistMerges(m, props)[k])
  {
    var merged := InfoPlistMerges(m, props);
    if props.nfcPermission.PermissionDisabled? then merged else Described(merged, props.nfcPermission)
  }

  /**
   * The three Info.plist edits touch three different keys, so applying the
   * usage description first and the two merges in the other order gives the
   * same document: the result does not depend on the host's stage order.
   */
  lemma InfoPlistStageOrderIrrelevant(m: map<string, Value>, props: NfcProps)
    ensures
      var described := if props.nfcPermission.PermissionDisabled? then m else Described(m, props.nfcPermission);
      var withCodes := Merged(described, SYSTEM_CODES_KEY, Some(props.systemCodes.GetOr([])));
      Merged(withCodes, SELECT_IDENTIFIERS_KEY, Some(props.selectIdentifiers.GetOr([]))) == InfoPlistAfterNfc(m, props)
  {
    var identifiers := Some(props.selectIdentifiers.GetOr([]));
    var codes := Some(props.systemCodes.GetOr([]));
    if !props.nfcPermission.PermissionDisabled? {
      var p := props.nfcPermission;
      DescribedAfterMerged(Merged(m, SELECT_IDENTIFIERS_KEY, identifiers), SYSTEM_CODES_KEY, codes, p);
      DescribedAfterMerged(m, SELECT_IDENTIFIERS_KEY, identifiers, p);
      MergedCommute(Described(m, p), SELECT_IDENTIFIERS_KEY, identifiers, SYSTEM_CODES_KEY, codes);
    } else {
      MergedCommute(m, SELECT_IDENTIFIERS_KEY, identifiers, SYSTEM_CODES_KEY, codes);
    }
  }

  /**
   * `withNfc`, one run. `mainActivity` is the host's main-activity lookup and
   * `foreign` the host's own rendered intent filters. On `Fail` the run has
   * stopped at the Android stage and the caller discards the documents.
   */
  method WithNfc(
    props: NfcProps,
    info: PlistDocument,
    entitlements: PlistDocument,
    mainActivity: Option<ActivityNode>,
    foreign: seq<Element>)
    returns (outcome: Outcome<ManifestError>)
    requires info != entitlements
    modifies info, entitlements, if mainActivity.Some? then {mainActivity.value} else {}
    ensures outcome == if mainActivity.None? then Fail(MainActivityNotFound) else Pass
    ensures entitlements.entries == EntitlementsAfterNfc(old(entitlements.entries), props)
    ensures outcome.Fail? ==> info.entries == InfoPlistMerges(old(info.entries), props)
    ensures outcome.Pass? ==> info.entries == InfoPlistAfterNfc(old(info.entries), props)
    ensures mainActivity.Some? ==>
      mainActivity.value.intentFilters
        == UpdatedIntentFilters(old(mainActivity.value.intentFilters), foreign, props.intentFilters)
  {
    entitlements.AddNfcFormats(props.includeNdefEntitlement);
    info.AddSelectIdentifiers(props.selectIdentifiers);
    info.AddSystemCodes(props.systemCodes);
    outcome := AddNfcIntentFilters(mainActivity, foreign, props.intentFilters);
    if outcome.Fail? {
      return;
    }
    if !props.nfcPermission.PermissionDisabled? {
      info.SetUsageDescription(props.nfcPermission);
    }
  }

  // ---------------------------------------------------------------------
  // Properties of a whole run
  // ---------------------------------------------------------------------

  /** With `nfcPermission: false` the usage description is left exactly as it was. */
  lemma PermissionGateOff(m: map<string, Value>, props: NfcProps)
    requires props.nfcPermission.PermissionDisabled?
    ensures var r := InfoPlistAfterNfc(m, props);
      && (USAGE_DESCRIPTION_KEY in r <==> USAGE_DESCRIPTION_KEY in m)
      && (USAGE_DESCRIPTION_KEY in m ==> r[USAGE_DESCRIPTION_KEY] == m[USAGE_DESCRIPTION_KEY])
  {
  }

  /** Otherwise the usage description is set, and a truthy existing one is never replaced by the default. */
  lemma PermissionGateOn(m: map<string, Value>, props: NfcProps)
    requires !props.nfcPermission.PermissionDisabled?
    ensures var r := InfoPlistAfterNfc(m, props);
      && USAGE_DESCRIPTION_KEY in r && Truthy(r[USAGE_DESCRIPTION_KEY])
      && (USAGE_DESCRIPTION_KEY in m && Truthy(m[USAGE_DESCRIPTION_KEY])
          && !(props.nfcPermission.PermissionText? && props.nfcPermission.text != "")
          ==> r[USAGE_DESCRIPTION_KEY] == m[USAGE_DESCRIPTION_KEY])
  {
  }

  /** A second run over the entitlements file changes nothing. */
  lemma EntitlementsIdempotent(m: map<string, Value>, props: NfcProps)
    ensures EntitlementsAfterNfc(EntitlementsAfterNfc(m, props), props) == EntitlementsAfterNfc(m, props)
  {
    MergeIdempotent(m, FORMATS_KEY, Some(NfcFormats(props.includeNdefEntitlement)));
  }

  /** Merging into a key whose array already holds the values changes nothing, whatever the other keys hold. */
  lemma MergeSettled(m: map<string, Value>, key: string, values: Option<seq<string>>, earlier: map<string, Value>)
    requires values.Some? && values.value != [] ==> key in m && m[key] == Merged(earlier, key, values)[key]
    ensures Merged(m, key, values) == m
  {
    if values.Some? && values.value != [] {
      MergeAlreadyPresent(m, key, values.value);
    }
  }

  /** A second run over Info.plist changes nothing. */
  lemma InfoPlistIdempotent(m: map<string, Value>, props: NfcProps)
    ensures InfoPlistAfterNfc(InfoPlistAfterNfc(m, props), props) == InfoPlistAfterNfc(m, props)
  {
    var identifiers := Some(props.selectIdentifiers.GetOr([]));
    var codes := Some(props.systemCodes.GetOr([]));
    var m1 := Merged(m, SELECT_IDENTIFIERS_KEY, identifiers);
    var m2 := Merged(m1, SYSTEM_CODES_KEY, codes);
    var r := InfoPlistAfterNfc(m, props);
    MergeSettled(r, SELECT_IDENTIFIERS_KEY, identifiers, m);
    MergeSettled(r, SYSTEM_CODES_KEY, codes, m1);
    assert InfoPlistMerges(r, props) == r;
    if !props.nfcPermission.PermissionDisabled? {
      DescribedIdempotent(m2, props.nfcPermission);
    }
  }

  /**
   * Running the plugin twice with the same options leaves every document as
   * one run left it, provided the host's own intent filters carry the sentinel.
   */
  lemma RunTwiceEqualsRunOnce(
    info: map<string, Value>,
    entitlements: map<string, Value>,
    intentFilters: Option<seq<Element>>,
    foreign: seq<Element>,
    props: NfcProps)
    requires forall e :: e in foreign ==> IsGenerated(e)
    ensures InfoPlistAfterNfc(InfoPlistAfterNfc(info, props), props) == InfoPlistAfterNfc(info, props)
    ensures EntitlementsAfterNfc(EntitlementsAfterNfc(entitlements, props), props) == EntitlementsAfterNfc(entitlements, props)
    ensures var once := UpdatedIntentFilters(intentFilters, foreign, props.intentFilters);
      UpdatedIntentFilters(once, foreign, props.intentFilters) == once
  {
    InfoPlistIdempotent(info, props);
    EntitlementsIdempotent(entitlements, props);
    RerunIdempotent(intentFilters, foreign, props.intentFilters);
  }

  /** With NDEF excluded, a fresh entitlements file requires exactly the TAG format. */
  lemma TagOnlyScenario(props: NfcProps)
    requires props.includeNdefEntitlement == Some(false)
    ensures EntitlementsAfterNfc(map[], props)[FORMATS_KEY] == Arr(["TAG"])
  {
  }
}
