/** The extension's settings: the typed record, the shape check applied to
    whatever storage hands back, and the rule that an object failing the check
    is replaced wholesale by a copy of the defaults. */
module Settings {
  import opened Wrappers

  /** A stored value, classified the way `typeof` classifies it. */
  datatype Value = Bool(b: bool) | Str(s: string) | OtherValue

  /** The JavaScript names of the settings' own fields. */
  const FieldNames: set<string> := {
    "excludeNav", "excludeFooter", "excludeSidebar", "excludeAds", "excludeComments",
    "excludeForms", "excludeScripts", "includeImages", "includeLinks", "preserveTables",
    "includeTitle", "includeUrl", "customExclusions", "siteRules"}

  /** Any other property name. */
  type OtherName = s: string | s !in FieldNames witness ""

  /** The keys of a stored object: the settings' own field names, and any
      other name. */
  datatype Key =
    | ExcludeNav | ExcludeFooter | ExcludeSidebar | ExcludeAds | ExcludeComments
    | ExcludeForms | ExcludeScripts | IncludeImages | IncludeLinks | PreserveTables
    | IncludeTitle | IncludeUrl | CustomExclusions | SiteRules | OtherKey(name: OtherName)

  /** An object read back from storage; a key that is absent reads as
      `undefined`, which is neither a boolean nor a string. */
  type Record = map<Key, Value>

  /** The twelve boolean options, which are also the options page's checkboxes. */
  datatype Flags = Flags(
    excludeNav: bool, excludeFooter: bool, excludeSidebar: bool, excludeAds: bool,
    excludeComments: bool, excludeForms: bool, excludeScripts: bool,
    includeImages: bool, includeLinks: bool, preserveTables: bool,
    includeTitle: bool, includeUrl: bool)

  /** The typed settings. `siteRules` is only reachable through the record's
      index signature, so it may be absent (`None`). */
  datatype ExtensionSettings = ExtensionSettings(flags: Flags, customExclusions: string, siteRules: Option<string>)

  /** Every exclusion and output option on, no custom exclusions. */
  const DefaultSettings: ExtensionSettings :=
    ExtensionSettings(Flags(true, true, true, true, true, true, true, true, true, true, true, true), "", None)

  /** The keys the validator requires to hold booleans, in its order. */
  const RequiredBooleanKeys: seq<Key> := [
    ExcludeNav, ExcludeFooter, ExcludeSidebar, ExcludeAds,
    ExcludeComments, ExcludeForms, ExcludeScripts,
    IncludeImages, IncludeLinks, PreserveTables, IncludeTitle, IncludeUrl]

  predicate HasBoolean(obj: Record, key: Key) {
    key in obj && obj[key].Bool?
  }

  predicate HasString(obj: Record, key: Key) {
    key in obj && obj[key].Str?
  }

  /** The validator's loop over `keys`: stop with false at the first key that
      does not hold a boolean. */
  function AllBooleans(obj: Record, keys: seq<Key>): bool {
    if keys == [] then true
    else if !HasBoolean(obj, keys[0]) then false
    else AllBooleans(obj, keys[1..])
  }

  /** `isValidSettings`: the twelve flags are booleans and `customExclusions`
      is a string. */
  predicate IsValidSettings(obj: Record) {
    AllBooleans(obj, RequiredBooleanKeys) && HasString(obj, CustomExclusions)
  }

  /** The early-return loop accepts exactly when every key holds a boolean. */
  lemma {:induction false} AllBooleansMeansEvery(obj: Record, keys: seq<Key>)
    ensures AllBooleans(obj, keys) <==> forall i | 0 <= i < |keys| :: HasBoolean(obj, keys[i])
  {
    if keys != [] {
      AllBooleansMeansEvery(obj, keys[1..]);
      assert forall i | 1 <= i < |keys| :: keys[i] == keys[1..][i - 1];
    }
  }

  /** Validity, stated without the loop: all twelve keys hold booleans and
      `customExclusions` holds a string. */
  lemma ValidMeans(obj: Record)
    ensures IsValidSettings(obj) <==>
      (forall k | k in RequiredBooleanKeys :: HasBoolean(obj, k)) && HasString(obj, CustomExclusions)
  {
    AllBooleansMeansEvery(obj, RequiredBooleanKeys);
  }

  /** One missing or non-boolean flag invalidates the whole object. */
  lemma OneBadFlagInvalidates(obj: Record, key: Key)
    requires key in RequiredBooleanKeys
    requires !HasBoolean(obj, key)
    ensures !IsValidSettings(obj)
  {
    ValidMeans(obj);
  }

  /** Only the thirteen checked keys matter: two objects that agree on them
      (whatever else they hold, `siteRules` included) are both valid or both
      invalid. */
  lemma OtherKeysIgnored(a: Record, b: Record)
    requires forall k | k in RequiredBooleanKeys || k == CustomExclusions ::
      (k in a <==> k in b) && (k in a ==> a[k] == b[k])
    ensures IsValidSettings(a) <==> IsValidSettings(b)
  {
    ValidMeans(a);
    ValidMeans(b);
    forall k | k in RequiredBooleanKeys
      ensures HasBoolean(a, k) <==> HasBoolean(b, k)
    {
    }
  }

  /** The settings' own field names. */
  const FieldKeys: set<Key> := {
    ExcludeNav, ExcludeFooter, ExcludeSidebar, ExcludeAds, ExcludeComments,
    ExcludeForms, ExcludeScripts, IncludeImages, IncludeLinks, PreserveTables,
    IncludeTitle, IncludeUrl, CustomExclusions, SiteRules}

  /** The value `s` stores under field `k`. */
  function StoredValue(s: ExtensionSettings, k: Key): Value {
    var f := s.flags;
    match k
    case ExcludeNav => Bool(f.excludeNav)
    case ExcludeFooter => Bool(f.excludeFooter)
    case ExcludeSidebar => Bool(f.excludeSidebar)
    case ExcludeAds => Bool(f.excludeAds)
    case ExcludeComments => Bool(f.excludeComments)
    case ExcludeForms => Bool(f.excludeForms)
    case ExcludeScripts => Bool(f.excludeScripts)
    case IncludeImages => Bool(f.includeImages)
    case IncludeLinks => Bool(f.includeLinks)
    case PreserveTables => Bool(f.preserveTables)
    case IncludeTitle => Bool(f.includeTitle)
    case IncludeUrl => Bool(f.includeUrl)
    case CustomExclusions => Str(s.customExclusions)
    case SiteRules => if s.siteRules.Some? then Str(s.siteRules.value) else OtherValue
    case OtherKey(_) => OtherValue
  }

  /** The storage object holding `s`: one entry per field, `siteRules` only
      when present. */
  function ToRecord(s: ExtensionSettings): Record {
    map k | k in FieldKeys && (k != SiteRules || s.siteRules.Some?) :: StoredValue(s, k)
  }

  /** What a valid object holds, key by key. */
  lemma ValidHolds(obj: Record)
    requires IsValidSettings(obj)
    ensures HasBoolean(obj, ExcludeNav) && HasBoolean(obj, ExcludeFooter)
    ensures HasBoolean(obj, ExcludeSidebar) && HasBoolean(obj, ExcludeAds)
    ensures HasBoolean(obj, ExcludeComments) && HasBoolean(obj, ExcludeForms)
    ensures HasBoolean(obj, ExcludeScripts) && HasBoolean(obj, IncludeImages)
    ensures HasBoolean(obj, IncludeLinks) && HasBoolean(obj, PreserveTables)
    ensures HasBoolean(obj, IncludeTitle) && HasBoolean(obj, IncludeUrl)
    ensures HasString(obj, CustomExclusions)
  {
    AllBooleansMeansEvery(obj, RequiredBooleanKeys);
    var keys := RequiredBooleanKeys;
    assert HasBoolean(obj, keys[0]) && HasBoolean(obj, keys[1]) && HasBoolean(obj, keys[2]);
    assert HasBoolean(obj, keys[3]) && HasBoolean(obj, keys[4]) && HasBoolean(obj, keys[5]);
    assert HasBoolean(obj, keys[6]) && HasBoolean(obj, keys[7]) && HasBoolean(obj, keys[8]);
    assert HasBoolean(obj, keys[9]) && HasBoolean(obj, keys[10]) && HasBoolean(obj, keys[11]);
  }

  /** The typed view of an object that passed the validator. */
  function FromRecord(obj: Record): ExtensionSettings
    requires IsValidSettings(obj)
  {
    ValidHolds(obj);
    ExtensionSettings(
      Flags(obj[ExcludeNav].b, obj[ExcludeFooter].b, obj[ExcludeSidebar].b,
            obj[ExcludeAds].b, obj[ExcludeComments].b, obj[ExcludeForms].b,
            obj[ExcludeScripts].b, obj[IncludeImages].b, obj[IncludeLinks].b,
            obj[PreserveTables].b, obj[IncludeTitle].b, obj[IncludeUrl].b),
      obj[CustomExclusions].s,
      if HasString(obj, SiteRules) then Some(obj[SiteRules].s) else None)
  }

  /** Every typed settings value stores as an object that passes the
      validator; in particular the defaults do. */
  lemma ToRecordValid(s: ExtensionSettings)
    ensures IsValidSettings(ToRecord(s))
  {
    var obj := ToRecord(s);
    var keys := RequiredBooleanKeys;
    forall i | 0 <= i < |keys|
      ensures HasBoolean(obj, keys[i])
    {
      var k := keys[i];
      assert k in FieldKeys && k != SiteRules;
      assert StoredValue(s, k).Bool?;
    }
    AllBooleansMeansEvery(obj, keys);
    assert CustomExclusions in FieldKeys;
  }

  /** A stored settings value reads back as itself. */
  lemma RecordRoundTrip(s: ExtensionSettings)
    ensures IsValidSettings(ToRecord(s))
    ensures FromRecord(ToRecord(s)) == s
  {
    ToRecordValid(s);
  }

  /** `getSettings` once storage has answered: the object itself when it is
      valid, otherwise a fresh copy of the defaults. */
  function GetSettings(read: Record): (r: Record)
    ensures IsValidSettings(r)
    ensures IsValidSettings(read) ==> r == read
    ensures !IsValidSettings(read) ==> r == ToRecord(DefaultSettings) && FromRecord(r) == DefaultSettings
  {
    RecordRoundTrip(DefaultSettings);
    if IsValidSettings(read) then read else ToRecord(DefaultSettings)
  }
}
