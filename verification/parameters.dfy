/**
 * The volume parameters: parsing string maps that come from users, from Kubernetes and from the
 * driver itself, and writing them back as volume context and as stored volume record.
 */
module Parameters {
  import opened Outcomes

  datatype Persistency = Normal | Ephemeral
  datatype Usage = AppDirect | FileIO
  datatype DeviceMode = LVM | Direct | Fake

  datatype Origin = CreateVolume | CreateVolumeInternal | EphemeralVolume | PersistentVolume | NodeVolume

  /** The keys of a string map. Pod info is any other key with the Kubernetes prefix. */
  datatype Key =
    | EraseAfterKey | KataKey | NameKey | PersistencyKey | SizeKey | DeviceModeKey | UsageKey
    | EphemeralKey | ProvisionerKey
    | PodInfoKey(text: string)
    | UnknownKey(text: string)

  const POD_INFO := "csi.storage.k8s.io/"

  predicate HasPrefix(s: string, prefix: string)
  {
    |prefix| <= |s| && s[..|prefix|] == prefix
  }

  /** The keys with a meaning of their own inside the driver. */
  function ClassifySetting(s: string): Option<Key>
  {
    if s == "eraseafter" then Some(EraseAfterKey)
    else if s == "kataContainers" then Some(KataKey)
    else if s == "name" then Some(NameKey)
    else if s == "persistencyModel" then Some(PersistencyKey)
    else if s == "size" then Some(SizeKey)
    else if s == "deviceMode" then Some(DeviceModeKey)
    else if s == "usage" then Some(UsageKey)
    else None
  }

  /** The keys that Kubernetes adds, and unknown ones. */
  function ClassifyOther(s: string): Key
  {
    if s == "csi.storage.k8s.io/ephemeral" then EphemeralKey
    else if s == "storage.kubernetes.io/csiProvisionerIdentity" then ProvisionerKey
    else if HasPrefix(s, POD_INFO) then PodInfoKey(s)
    else UnknownKey(s)
  }

  function Classify(s: string): Key
  {
    var setting := ClassifySetting(s);
    if setting.Some? then setting.value else ClassifyOther(s)
  }

  function Text(key: Key): string
  {
    match key
    case EraseAfterKey => "eraseafter"
    case KataKey => "kataContainers"
    case NameKey => "name"
    case PersistencyKey => "persistencyModel"
    case SizeKey => "size"
    case DeviceModeKey => "deviceMode"
    case UsageKey => "usage"
    case EphemeralKey => "csi.storage.k8s.io/ephemeral"
    case ProvisionerKey => "storage.kubernetes.io/csiProvisionerIdentity"
    case PodInfoKey(text) => text
    case UnknownKey(text) => text
  }

  lemma SettingIsLossless(s: string)
    ensures ClassifySetting(s).Some? ==> Text(ClassifySetting(s).value) == s
  {
  }

  lemma OtherIsLossless(s: string)
    ensures Text(ClassifyOther(s)) == s
  {
  }

  /** Nothing is lost by speaking of keys instead of strings. */
  lemma ClassifyIsLossless(s: string)
    ensures Text(Classify(s)) == s
  {
    SettingIsLossless(s);
    OtherIsLossless(s);
  }

  type Int64 = n: int | -0x8000_0000_0000_0000 <= n < 0x8000_0000_0000_0000

  /** All settings of a volume, each of which may be unset. */
  datatype Volume = Volume(
    eraseAfter: Option<bool>,
    kata: Option<bool>,
    name: Option<string>,
    persistency: Option<Persistency>,
    size: Option<Int64>,
    deviceMode: Option<DeviceMode>,
    usage: Option<Usage>)

  const UNSET := Volume(None, None, None, None, None, None, None)

  /** The whitelist. Where pod info is allowed, everything with its prefix is. */
  predicate KeyAllowed(origin: Origin, key: Key)
  {
    match origin
    case CreateVolume => key.EraseAfterKey? || key.KataKey? || key.UsageKey? || key.PersistencyKey?
    case CreateVolumeInternal => false
    case EphemeralVolume =>
      key.EraseAfterKey? || key.KataKey? || key.UsageKey? || key.SizeKey? || key.EphemeralKey? || key.PodInfoKey?
    case PersistentVolume =>
      key.EraseAfterKey? || key.KataKey? || key.PersistencyKey? || key.UsageKey? || key.NameKey?
      || key.EphemeralKey? || key.PodInfoKey? || key.ProvisionerKey?
    case NodeVolume =>
      key.EraseAfterKey? || key.KataKey? || key.UsageKey? || key.NameKey? || key.PersistencyKey?
      || key.SizeKey? || key.DeviceModeKey?
  }

  /** strconv.ParseBool. */
  function ParseBool(s: string): Option<bool>
  {
    if s in ["1", "t", "T", "TRUE", "true", "True"] then Some(true)
    else if s in ["0", "f", "F", "FALSE", "false", "False"] then Some(false)
    else None
  }

  function FormatBool(b: bool): string
  {
    if b then "true" else "false"
  }

  function ParsePersistency(origin: Origin, s: string): Option<Persistency>
  {
    if s == "normal" || s == "none" then Some(Normal)
    else if s == "ephemeral" && origin == NodeVolume then Some(Ephemeral)
    else None
  }

  function FormatPersistency(p: Persistency): string
  {
    if p == Normal then "normal" else "ephemeral"
  }

  /** None for a bad value, Some(None) for the empty value, which leaves the usage unset. */
  function ParseUsage(s: string): Option<Option<Usage>>
  {
    if s == "AppDirect" then Some(Some(AppDirect))
    else if s == "FileIO" then Some(Some(FileIO))
    else if s == "" then Some(None)
    else None
  }

  function FormatUsage(u: Usage): string
  {
    if u == AppDirect then "AppDirect" else "FileIO"
  }

  /** "ndctl" is the old name of direct mode. */
  function ParseDeviceMode(s: string): Option<DeviceMode>
  {
    if s == "lvm" then Some(LVM)
    else if s == "direct" || s == "ndctl" then Some(Direct)
    else if s == "fake" then Some(Fake)
    else None
  }

  function FormatDeviceMode(m: DeviceMode): string
  {
    match m
    case LVM => "lvm"
    case Direct => "direct"
    case Fake => "fake"
  }

  function Digits(n: nat): string
  {
    (if n < 10 then "" else Digits(n / 10)) + ["0123456789"[n % 10]]
  }

  /** Sprintf("%d", n). */
  function FormatInt(n: Int64): string
  {
    if n < 0 then "-" + Digits(-(n as int)) else Digits(n)
  }

  /** Parsing of Kubernetes quantities is foreign code. All that is used of it: it reads back plain
   * integers of 64 bits. */
  ghost predicate ReadsIntegers(quantity: string -> Option<Int64>)
  {
    forall n: Int64 :: quantity(FormatInt(n)) == Some(n)
  }

  /** How the text of a value is read, for each kind of value. */
  datatype Readers = Readers(
    flag: string -> Option<bool>,
    persistency: string -> Option<Persistency>,
    usage: string -> Option<Option<Usage>>,
    quantity: string -> Option<Int64>,
    mode: string -> Option<DeviceMode>)

  function ReadersFor(origin: Origin, quantity: string -> Option<Int64>): Readers
  {
    Readers(ParseBool, s => ParsePersistency(origin, s), ParseUsage, quantity, ParseDeviceMode)
  }

  /** One round of the loop in Parse: what one key and its value do to the result. */
  function Set(rd: Readers, origin: Origin, v: Volume, key: Key, value: string): Option<Volume>
  {
    if !KeyAllowed(origin, key) then None else
    match key
    case NameKey => Some(v.(name := Some(value)))
    case PersistencyKey => if rd.persistency(value).None? then None else Some(v.(persistency := rd.persistency(value)))
    case KataKey => if rd.flag(value).None? then None else Some(v.(kata := rd.flag(value)))
    case UsageKey =>
      if rd.usage(value).None? then None
      else if rd.usage(value).value.None? then Some(v)
      else Some(v.(usage := rd.usage(value).value))
    case SizeKey => if rd.quantity(value).None? then None else Some(v.(size := rd.quantity(value)))
    case EraseAfterKey => if rd.flag(value).None? then None else Some(v.(eraseAfter := rd.flag(value)))
    case EphemeralKey =>
      if rd.flag(value).None? then None
      else if rd.flag(value).value then Some(v.(persistency := Some(Ephemeral)))
      else Some(v)
    case DeviceModeKey => if rd.mode(value).None? then None else Some(v.(deviceMode := rd.mode(value)))
    case _ => Some(v)
  }

  function GetKata(v: Volume): bool
  {
    v.kata.Some? && v.kata.value
  }

  function GetUsage(v: Volume): Usage
  {
    if v.usage.Some? then v.usage.value else AppDirect
  }

  /** Kata Containers support needs app direct usage. */
  predicate Sane(v: Volume)
  {
    GetKata(v) ==> GetUsage(v) == AppDirect
  }

  // ------------------------------------------------ what parsing means

  type StringMap = map<Key, string>

  /** Reads the value under a key, None when there is none. */
  function At<F>(m: StringMap, key: Key, read: string -> Option<F>): Option<F>
  {
    if key in m then read(m[key]) else None
  }

  predicate SaysEphemeral(rd: Readers, m: StringMap)
  {
    At(m, EphemeralKey, rd.flag) == Some(true)
  }

  /**
   * The entries of m produce v: each field comes from its own key. Only the persistency has two
   * keys; when both are given, the one that is visited last wins.
   */
  ghost predicate Produces(rd: Readers, m: StringMap, v: Volume)
  {
    && v.eraseAfter == At(m, EraseAfterKey, rd.flag)
    && v.kata == At(m, KataKey, rd.flag)
    && v.name == (if NameKey in m then Some(m[NameKey]) else None)
    && v.size == At(m, SizeKey, rd.quantity)
    && v.deviceMode == At(m, DeviceModeKey, rd.mode)
    && v.usage == (var u := At(m, UsageKey, rd.usage); if u.Some? then u.value else None)
    && (v.persistency == At(m, PersistencyKey, rd.persistency)
        || (SaysEphemeral(rd, m) && v.persistency == Some(Ephemeral)))
    && (SaysEphemeral(rd, m) ==> v.persistency.Some?)
  }

  /** Key and value pass on their own. */
  predicate Passes(rd: Readers, origin: Origin, key: Key, value: string)
  {
    Set(rd, origin, UNSET, key, value).Some?
  }

  ghost predicate AllPass(rd: Readers, origin: Origin, m: StringMap)
  {
    forall key :: key in m ==> Passes(rd, origin, key, m[key])
  }

  predicate Complete(origin: Origin, v: Volume)
  {
    Sane(v) && (origin == EphemeralVolume ==> v.size.Some?)
  }

  /** The promise of Parse, in whatever order the map is visited. */
  ghost predicate Parsed(rd: Readers, origin: Origin, m: StringMap, r: Option<Volume>)
  {
    && (r.Some? ==> AllPass(rd, origin, m) && Produces(rd, m, r.value) && Complete(origin, r.value))
    && (r.None? && AllPass(rd, origin, m) ==> exists v :: Produces(rd, m, v) && !Complete(origin, v))
  }

  lemma SetProduces(rd: Readers, origin: Origin, m: StringMap, v: Volume, key: Key, value: string)
    requires key !in m && Produces(rd, m, v) && Set(rd, origin, v, key, value).Some?
    ensures Produces(rd, m[key := value], Set(rd, origin, v, key, value).value)
  {
  }

  /** Whether an entry passes does not depend on what was parsed before it. */
  lemma SetPasses(rd: Readers, origin: Origin, v: Volume, key: Key, value: string)
    ensures Set(rd, origin, v, key, value).Some? <==> Passes(rd, origin, key, value)
  {
  }

  lemma RoundKeeps(rd: Readers, origin: Origin, m: StringMap, rest: set<Key>, v: Volume, key: Key)
    requires rest <= m.Keys && key in rest && Produces(rd, m - rest, v) && AllPass(rd, origin, m - rest)
    ensures var w := Set(rd, origin, v, key, m[key]);
            if w.None? then !AllPass(rd, origin, m)
            else Produces(rd, m - (rest - {key}), w.value) && AllPass(rd, origin, m - (rest - {key}))
  {
    SetPasses(rd, origin, v, key, m[key]);
    assert m - (rest - {key}) == (m - rest)[key := m[key]];
    if Set(rd, origin, v, key, m[key]).Some? {
      SetProduces(rd, origin, m - rest, v, key, m[key]);
    }
  }

  /** Parse: visits the map in an order that is not determined and stops at the first bad entry. */
  method Parse(rd: Readers, origin: Origin, m: StringMap) returns (r: Option<Volume>)
    ensures Parsed(rd, origin, m, r)
  {
    var v, rest := UNSET, m.Keys;
    assert m - m.Keys == map[];
    while rest != {}
      invariant rest <= m.Keys
      invariant Produces(rd, m - rest, v) && AllPass(rd, origin, m - rest)
      decreases |rest|
    {
      var key :| key in rest;
      var next := Set(rd, origin, v, key, m[key]);
      RoundKeeps(rd, origin, m, rest, v, key);
      if next.None? {
        return None;
      }
      v, rest := next.value, rest - {key};
    }
    assert m - {} == m;
    r := if Complete(origin, v) then Some(v) else None;
  }

  /** All outcomes of parsing one map agree, up to the persistency when it is given under both of its keys. */
  lemma ParseIsDeterminate(rd: Readers, origin: Origin, m: StringMap, r1: Option<Volume>, r2: Option<Volume>)
    requires Parsed(rd, origin, m, r1) && Parsed(rd, origin, m, r2)
    ensures r1.Some? <==> r2.Some?
    ensures r1.Some? ==> r1.value.(persistency := None) == r2.value.(persistency := None)
    ensures r1.Some? && !(PersistencyKey in m && SaysEphemeral(rd, m)) ==> r1 == r2
  {
  }

  // ------------------------------------------------------- what is accepted

  /** Who may set what, by the text of the key. */
  predicate MaySet(origin: Origin, text: string)
  {
    match origin
    case CreateVolume => text in {"eraseafter", "kataContainers", "usage", "persistencyModel"}
    case CreateVolumeInternal => false
    case EphemeralVolume =>
      text in {"eraseafter", "kataContainers", "usage", "size"} || HasPrefix(text, "csi.storage.k8s.io/")
    case PersistentVolume =>
      || text in {"eraseafter", "kataContainers", "usage", "persistencyModel", "name"}
      || HasPrefix(text, "csi.storage.k8s.io/") || text == "storage.kubernetes.io/csiProvisionerIdentity"
    case NodeVolume =>
      text in {"eraseafter", "kataContainers", "usage", "persistencyModel", "name", "size", "deviceMode"}
  }

  /** The values that a key may have; those of keys that are only passed through are not looked at. */
  predicate MayBe(origin: Origin, quantity: string -> Option<Int64>, key: Key, value: string)
  {
    match key
    case EraseAfterKey => IsFlag(value)
    case KataKey => IsFlag(value)
    case EphemeralKey => IsFlag(value)
    case PersistencyKey => value in {"normal", "none"} || (origin == NodeVolume && value == "ephemeral")
    case UsageKey => value in {"AppDirect", "FileIO", ""}
    case SizeKey => quantity(value).Some?
    case DeviceModeKey => value in {"lvm", "direct", "ndctl", "fake"}
    case _ => true
  }

  predicate IsFlag(value: string)
  {
    IsYes(value) || IsNo(value)
  }

  predicate IsYes(value: string)
  {
    value in {"1", "t", "T", "TRUE", "true", "True"}
  }

  predicate IsNo(value: string)
  {
    value in {"0", "f", "F", "FALSE", "false", "False"}
  }

  /** The text of Kata Containers support together with file I/O. */
  predicate Contradicts(m: StringMap)
  {
    KataKey in m && IsYes(m[KataKey]) && UsageKey in m && m[UsageKey] == "FileIO"
  }

  lemma SettingTexts(key: Key)
    requires Classify(Text(key)) == key
    ensures ClassifySetting(Text(key)).Some? <==> !(key.EphemeralKey? || key.ProvisionerKey? || key.PodInfoKey?
                                                    || key.UnknownKey?)
    ensures key.EphemeralKey? || key.PodInfoKey? <==> HasPrefix(Text(key), POD_INFO)
  {
    if key.EphemeralKey? {
      assert Text(key)[..|POD_INFO|] == POD_INFO;
    } else if key.ProvisionerKey? {
      var text := "storage.kubernetes.io/csiProvisionerIdentity";
      assert text[0] == 's' && POD_INFO[0] == 'c';
      assert text[..|POD_INFO|][0] == 's';
    }
  }

  lemma WhitelistIsByText(origin: Origin, key: Key)
    requires Classify(Text(key)) == key
    ensures KeyAllowed(origin, key) <==> MaySet(origin, Text(key))
  {
    SettingTexts(key);
  }

  lemma ValuesAreByText(origin: Origin, quantity: string -> Option<Int64>, key: Key, value: string)
    requires KeyAllowed(origin, key)
    ensures Passes(ReadersFor(origin, quantity), origin, key, value) <==> MayBe(origin, quantity, key, value)
  {
  }

  /** All entries may be set by this origin to these values. */
  ghost predicate AllMayBe(origin: Origin, quantity: string -> Option<Int64>, m: StringMap)
  {
    forall key :: key in m ==> MaySet(origin, Text(key)) && MayBe(origin, quantity, key, m[key])
  }

  /**
   * Parse accepts a map if and only if this origin may set all of its keys to their values, the size of an ephemeral
   * volume is given, and Kata Containers are not combined with file I/O.
   */
  lemma ParseAcceptsExactly(origin: Origin, quantity: string -> Option<Int64>, m: StringMap, r: Option<Volume>)
    requires forall key :: key in m ==> Classify(Text(key)) == key
    requires Parsed(ReadersFor(origin, quantity), origin, m, r)
    ensures r.Some? <==>
            && AllMayBe(origin, quantity, m) && !Contradicts(m)
            && (origin == EphemeralVolume ==> SizeKey in m)
  {
    var rd := ReadersFor(origin, quantity);
    forall key | key in m
      ensures Passes(rd, origin, key, m[key]) <==> MaySet(origin, Text(key)) && MayBe(origin, quantity, key, m[key])
    {
      WhitelistIsByText(origin, key);
      if KeyAllowed(origin, key) { ValuesAreByText(origin, quantity, key, m[key]); }
    }
    if AllPass(rd, origin, m) {
      if r.Some? {
        CompleteByText(origin, quantity, m, r.value);
      } else {
        var v :| Produces(rd, m, v) && !Complete(origin, v);
        CompleteByText(origin, quantity, m, v);
      }
    }
  }

  lemma CompleteByText(origin: Origin, quantity: string -> Option<Int64>, m: StringMap, v: Volume)
    requires AllPass(ReadersFor(origin, quantity), origin, m) && Produces(ReadersFor(origin, quantity), m, v)
    ensures Complete(origin, v) <==> !Contradicts(m) && (origin == EphemeralVolume ==> SizeKey in m)
  {
    var rd := ReadersFor(origin, quantity);
    if SizeKey in m { assert Passes(rd, origin, SizeKey, m[SizeKey]); }
    if KataKey in m { assert Passes(rd, origin, KataKey, m[KataKey]); }
    if UsageKey in m { assert Passes(rd, origin, UsageKey, m[UsageKey]); }
  }

  predicate FlagMeans(m: StringMap, key: Key, flag: Option<bool>)
  {
    (flag == Some(true) <==> key in m && IsYes(m[key])) && (flag == Some(false) <==> key in m && IsNo(m[key]))
  }

  lemma FlagIsByText(m: StringMap, key: Key)
    ensures FlagMeans(m, key, At(m, key, ParseBool))
  {
  }

  /** The device mode and the usage of a volume that is described by these texts. */
  ghost predicate ChoicesMean(m: StringMap, v: Volume)
  {
    && (v.deviceMode == Some(LVM) <==> DeviceModeKey in m && m[DeviceModeKey] == "lvm")
    && (v.deviceMode == Some(Direct) <==> DeviceModeKey in m && m[DeviceModeKey] in {"direct", "ndctl"})
    && (v.deviceMode == Some(Fake) <==> DeviceModeKey in m && m[DeviceModeKey] == "fake")
    && (v.usage == Some(AppDirect) <==> UsageKey in m && m[UsageKey] == "AppDirect")
    && (v.usage == Some(FileIO) <==> UsageKey in m && m[UsageKey] == "FileIO")
  }

  lemma ChoicesAreByText(origin: Origin, quantity: string -> Option<Int64>, m: StringMap, v: Volume)
    requires Produces(ReadersFor(origin, quantity), m, v)
    ensures ChoicesMean(m, v)
  {
  }

  /** The ways in which a map asks for an ephemeral volume. */
  predicate AsksEphemeral(m: StringMap)
  {
    (EphemeralKey in m && IsYes(m[EphemeralKey])) || (PersistencyKey in m && m[PersistencyKey] == "ephemeral")
  }

  lemma PersistencyIsByText(origin: Origin, quantity: string -> Option<Int64>, m: StringMap, v: Volume)
    requires AllPass(ReadersFor(origin, quantity), origin, m) && Produces(ReadersFor(origin, quantity), m, v)
    ensures v.persistency == Some(Ephemeral) ==> AsksEphemeral(m)
    ensures v.persistency == Some(Normal) ==> PersistencyKey in m && m[PersistencyKey] in {"normal", "none"}
    ensures v.persistency == None ==> PersistencyKey !in m && !AsksEphemeral(m)
  {
    FlagIsByText(m, EphemeralKey);
    if PersistencyKey in m {
      assert Passes(ReadersFor(origin, quantity), origin, PersistencyKey, m[PersistencyKey]);
    }
  }

  /** What the settings of an accepted map are, by the texts in it. */
  lemma ParseMeans(origin: Origin, quantity: string -> Option<Int64>, m: StringMap, v: Volume)
    requires Parsed(ReadersFor(origin, quantity), origin, m, Some(v))
    ensures FlagMeans(m, EraseAfterKey, v.eraseAfter) && FlagMeans(m, KataKey, v.kata)
    ensures v.name == (if NameKey in m then Some(m[NameKey]) else None)
    ensures v.size == (if SizeKey in m then quantity(m[SizeKey]) else None)
    ensures ChoicesMean(m, v)
    ensures v.persistency == Some(Ephemeral) ==> AsksEphemeral(m)
    ensures v.persistency == Some(Normal) ==> PersistencyKey in m && m[PersistencyKey] in {"normal", "none"}
    ensures v.persistency == None ==> PersistencyKey !in m && !AsksEphemeral(m)
  {
    FlagIsByText(m, EraseAfterKey);
    FlagIsByText(m, KataKey);
    ChoicesAreByText(origin, quantity, m, v);
    PersistencyIsByText(origin, quantity, m, v);
  }

  /** The number that a text of decimal digits stands for. */
  function Decimal(s: string): Option<nat>
  {
    if s == [] then Some(0)
    else
      var (init, c) := (Decimal(s[..|s| - 1]), s[|s| - 1]);
      if init.None? || !('0' <= c <= '9') then None else Some(10 * init.value + (c as int - '0' as int))
  }

  function PlainInteger(s: string): Option<int>
  {
    if s == [] || s == "-" then None
    else
      var magnitude := if s[0] == '-' then Decimal(s[1..]) else Decimal(s);
      if magnitude.None? then None else
        var n: int := magnitude.value;
        Some(if s[0] == '-' then -n else n)
  }

  lemma {:induction false} DigitsAreDecimal(n: nat)
    ensures Digits(n) != [] && Decimal(Digits(n)) == Some(n) && Digits(n)[0] != '-'
  {
    var init := if n < 10 then "" else Digits(n / 10);
    var c := "0123456789"[n % 10];
    if n >= 10 { DigitsAreDecimal(n / 10); }
    assert Digits(n) == init + [c] && Digits(n)[..|Digits(n)| - 1] == init;
    DigitIs(n % 10);
  }

  lemma DigitIs(d: nat)
    requires d < 10
    ensures '0' <= "0123456789"[d] <= '9' && "0123456789"[d] as int - '0' as int == d
  {
  }

  lemma SignedText(s: string, n: nat)
    requires s != [] && Decimal(s) == Some(n) && s[0] != '-'
    ensures PlainInteger(s) == Some(n) && PlainInteger("-" + s) == Some(0 - n)
  {
    assert ("-" + s)[1..] == s && "-" + s != "-";
  }

  /** What is written for a size is its decimal number, so a reader of plain integers reads it back. */
  lemma FormatIntIsDecimal(n: Int64)
    ensures PlainInteger(FormatInt(n)) == Some(n)
  {
    var magnitude: nat := if n < 0 then 0 - n else n;
    DigitsAreDecimal(magnitude);
    SignedText(Digits(magnitude), magnitude);
  }

  // ------------------------------------------------------- round trips

  datatype Writers = Writers(
    flag: bool -> string,
    persistency: Persistency -> string,
    usage: Usage -> string,
    quantity: Int64 -> string,
    mode: DeviceMode -> string)

  const WRITERS := Writers(FormatBool, FormatPersistency, FormatUsage, FormatInt, FormatDeviceMode)

  /** What is written is read back, except that ephemeral persistency may be refused. */
  ghost predicate Inverse(rd: Readers, wr: Writers, acceptsEphemeral: bool)
  {
    && (forall b :: rd.flag(wr.flag(b)) == Some(b))
    && rd.persistency(wr.persistency(Normal)) == Some(Normal)
    && rd.persistency(wr.persistency(Ephemeral)) == (if acceptsEphemeral then Some(Ephemeral) else None)
    && (forall u :: rd.usage(wr.usage(u)) == Some(Some(u)))
    && (forall n: Int64 :: rd.quantity(wr.quantity(n)) == Some(n))
    && (forall m :: rd.mode(wr.mode(m)) == Some(m))
  }

  lemma RealInverse(origin: Origin, quantity: string -> Option<Int64>)
    requires ReadsIntegers(quantity)
    ensures Inverse(ReadersFor(origin, quantity), WRITERS, origin == NodeVolume)
  {
  }

  /** The text of a field that is set, by its key. */
  function FieldText(wr: Writers, v: Volume, key: Key): Option<string>
  {
    match key
    case EraseAfterKey => if v.eraseAfter.Some? then Some(wr.flag(v.eraseAfter.value)) else None
    case NameKey => v.name
    case PersistencyKey => if v.persistency.Some? then Some(wr.persistency(v.persistency.value)) else None
    case SizeKey => if v.size.Some? then Some(wr.quantity(v.size.value)) else None
    case KataKey => if v.kata.Some? then Some(wr.flag(v.kata.value)) else None
    case DeviceModeKey => if v.deviceMode.Some? then Some(wr.mode(v.deviceMode.value)) else None
    case UsageKey => if v.usage.Some? then Some(wr.usage(v.usage.value)) else None
    case _ => None
  }

  const FIELDS: set<Key> := {EraseAfterKey, NameKey, PersistencyKey, SizeKey, KataKey, DeviceModeKey, UsageKey}

  /** ToContext: each field that is set, under its key, and nothing else. */
  function ToContextWith(wr: Writers, v: Volume): (m: StringMap)
    ensures forall key :: key in m <==> FieldText(wr, v, key).Some?
    ensures forall key :: key in m ==> m[key] == FieldText(wr, v, key).value
  {
    map key | key in FIELDS && FieldText(wr, v, key).Some? :: FieldText(wr, v, key).value
  }

  function ToContext(v: Volume): StringMap
  {
    ToContextWith(WRITERS, v)
  }

  /** Entries that Kubernetes adds to a volume context and that set nothing. */
  ghost predicate Harmless(rd: Readers, extra: StringMap)
  {
    && (forall key :: key in extra ==> key.PodInfoKey? || key.ProvisionerKey? || key.EphemeralKey?)
    && (EphemeralKey in extra ==> rd.flag(extra[EphemeralKey]) == Some(false))
  }

  /** What is written for v is read back as v. */
  ghost predicate ReadsBack(rd: Readers, wr: Writers, v: Volume)
  {
    && (v.eraseAfter.Some? ==> rd.flag(wr.flag(v.eraseAfter.value)) == v.eraseAfter)
    && (v.kata.Some? ==> rd.flag(wr.flag(v.kata.value)) == v.kata)
    && (v.size.Some? ==> rd.quantity(wr.quantity(v.size.value)) == v.size)
    && (v.usage.Some? ==> rd.usage(wr.usage(v.usage.value)) == Some(v.usage))
    && (v.deviceMode.Some? ==> rd.mode(wr.mode(v.deviceMode.value)) == v.deviceMode)
    && (v.persistency.Some? ==> rd.persistency(wr.persistency(v.persistency.value)) == v.persistency)
  }

  lemma FieldsReadBack(rd: Readers, wr: Writers, acceptsEphemeral: bool, v: Volume)
    requires Inverse(rd, wr, acceptsEphemeral)
    requires v.persistency == Some(Ephemeral) ==> acceptsEphemeral
    ensures ReadsBack(rd, wr, v)
  {
    if v.eraseAfter.Some? { var b := v.eraseAfter.value; assert rd.flag(wr.flag(b)) == Some(b); }
    if v.kata.Some? { var b := v.kata.value; assert rd.flag(wr.flag(b)) == Some(b); }
    if v.size.Some? { var n := v.size.value; assert rd.quantity(wr.quantity(n)) == Some(n); }
    if v.persistency.Some? { assert v.persistency.value == Normal || v.persistency.value == Ephemeral; }
  }

  lemma FieldInContext(rd: Readers, wr: Writers, v: Volume, extra: StringMap, key: Key)
    requires Harmless(rd, extra) && !key.PodInfoKey? && !key.ProvisionerKey? && !key.EphemeralKey?
    ensures var m := ToContextWith(wr, v) + extra;
            (key in m <==> FieldText(wr, v, key).Some?) && (key in m ==> m[key] == FieldText(wr, v, key).value)
  {
  }

  lemma NotEphemeral(rd: Readers, wr: Writers, v: Volume, extra: StringMap)
    requires Harmless(rd, extra)
    ensures !SaysEphemeral(rd, ToContextWith(wr, v) + extra)
  {
  }

  /** What was written is what is read. */
  lemma ContextProduces(rd: Readers, wr: Writers, v: Volume, extra: StringMap)
    requires ReadsBack(rd, wr, v) && Harmless(rd, extra)
    ensures Produces(rd, ToContextWith(wr, v) + extra, v)
  {
    NotEphemeral(rd, wr, v, extra);
    FieldInContext(rd, wr, v, extra, EraseAfterKey);
    FieldInContext(rd, wr, v, extra, KataKey);
    FieldInContext(rd, wr, v, extra, NameKey);
    FieldInContext(rd, wr, v, extra, SizeKey);
    FieldInContext(rd, wr, v, extra, DeviceModeKey);
    FieldInContext(rd, wr, v, extra, UsageKey);
    FieldInContext(rd, wr, v, extra, PersistencyKey);
  }

  lemma OnlyOneProduced(rd: Readers, m: StringMap, v: Volume, w: Volume)
    requires Produces(rd, m, v) && Produces(rd, m, w) && !SaysEphemeral(rd, m)
    ensures v == w
  {
  }

  lemma ParsedContext(rd: Readers, wr: Writers, origin: Origin, v: Volume, extra: StringMap, r: Option<Volume>)
    requires ReadsBack(rd, wr, v) && Harmless(rd, extra) && Parsed(rd, origin, ToContextWith(wr, v) + extra, r)
    requires AllPass(rd, origin, ToContextWith(wr, v) + extra)
    ensures r == if Complete(origin, v) then Some(v) else None
  {
    var m := ToContextWith(wr, v) + extra;
    ContextProduces(rd, wr, v, extra);
    var w :| Produces(rd, m, w) && (if r.Some? then r.value == w && Complete(origin, w) else !Complete(origin, w));
    OnlyOneProduced(rd, m, v, w);
  }

  /**
   * A stored volume record parses back to the same settings exactly when they do not ask for Kata
   * Containers together with file I/O usage, which no parsed settings do.
   */
  lemma RecordRoundTrip(quantity: string -> Option<Int64>, v: Volume, r: Option<Volume>)
    requires ReadsIntegers(quantity)
    ensures Parsed(ReadersFor(NodeVolume, quantity), NodeVolume, ToContext(v), r) ==>
            r == if Sane(v) then Some(v) else None
  {
    var rd := ReadersFor(NodeVolume, quantity);
    RealInverse(NodeVolume, quantity);
    FieldsReadBack(rd, WRITERS, true, v);
    assert ToContext(v) + map[] == ToContext(v);
    RecordPasses(rd, WRITERS, v);
    if Parsed(rd, NodeVolume, ToContext(v), r) { ParsedContext(rd, WRITERS, NodeVolume, v, map[], r); }
  }

  lemma RecordPasses(rd: Readers, wr: Writers, v: Volume)
    requires ReadsBack(rd, wr, v)
    ensures AllPass(rd, NodeVolume, ToContextWith(wr, v))
  {
  }

  /**
   * A volume context, extended by what Kubernetes adds, is accepted when staging and publishing exactly when
   * neither size nor device mode is set and the volume is not ephemeral; it is then read as the same settings.
   */
  lemma ContextRoundTrip(quantity: string -> Option<Int64>, v: Volume, extra: StringMap, r: Option<Volume>)
    requires ReadsIntegers(quantity) && Harmless(ReadersFor(PersistentVolume, quantity), extra)
    requires Parsed(ReadersFor(PersistentVolume, quantity), PersistentVolume, ToContext(v) + extra, r)
    ensures r == if Sane(v) && v.size.None? && v.deviceMode.None?
            && v.persistency != Some(Ephemeral) then Some(v) else None
  {
    var rd := ReadersFor(PersistentVolume, quantity);
    RealInverse(PersistentVolume, quantity);
    ContextPasses(rd, WRITERS, v, extra);
    if v.size.None? && v.deviceMode.None? && v.persistency != Some(Ephemeral) {
      FieldsReadBack(rd, WRITERS, false, v);
      ParsedContext(rd, WRITERS, PersistentVolume, v, extra, r);
    }
  }

  lemma ContextPasses(rd: Readers, wr: Writers, v: Volume, extra: StringMap)
    requires Inverse(rd, wr, false) && Harmless(rd, extra)
    ensures AllPass(rd, PersistentVolume, ToContextWith(wr, v) + extra) <==>
            v.size.None? && v.deviceMode.None? && v.persistency != Some(Ephemeral)
  {
    var m := ToContextWith(wr, v) + extra;
    if v.size.Some? { assert SizeKey in m && !Passes(rd, PersistentVolume, SizeKey, m[SizeKey]); }
    if v.deviceMode.Some? {
      assert DeviceModeKey in m && !Passes(rd, PersistentVolume, DeviceModeKey, m[DeviceModeKey]);
    }
    if v.persistency == Some(Ephemeral) {
      assert PersistencyKey in m && m[PersistencyKey] == wr.persistency(Ephemeral);
      assert !Passes(rd, PersistentVolume, PersistencyKey, m[PersistencyKey]);
    }
    if v.size.None? && v.deviceMode.None? && v.persistency != Some(Ephemeral) {
      FieldsReadBack(rd, wr, false, v);
      forall key | key in m ensures Passes(rd, PersistentVolume, key, m[key]) {
        assert key in extra || FieldText(wr, v, key).Some?;
      }
    }
  }

  lemma CreateSetsNoSize(rd: Readers, m: StringMap, p: Volume)
    requires Parsed(rd, CreateVolume, m, Some(p))
    requires forall s :: rd.persistency(s) != Some(Ephemeral)
    ensures Sane(p) && p.size.None? && p.deviceMode.None? && p.persistency != Some(Ephemeral)
  {
  }

  lemma UsersSetNoSize(quantity: string -> Option<Int64>, m: StringMap, p: Volume)
    requires Parsed(ReadersFor(CreateVolume, quantity), CreateVolume, m, Some(p))
    ensures Sane(p) && p.size.None? && p.deviceMode.None? && p.persistency != Some(Ephemeral)
  {
    CreateSetsNoSize(ReadersFor(CreateVolume, quantity), m, p);
  }

  /** What the driver does with the parameters of CreateVolume: it stores them and it returns them. */
  lemma PersistentParametersSurvive(quantity: string -> Option<Int64>, m: StringMap, p: Volume, name: string,
        mode: DeviceMode, extra: StringMap, stored: Option<Volume>, published: Option<Volume>)
    requires ReadsIntegers(quantity) && Parsed(ReadersFor(CreateVolume, quantity), CreateVolume, m, Some(p))
    requires Harmless(ReadersFor(PersistentVolume, quantity), extra)
    requires Parsed(ReadersFor(NodeVolume, quantity), NodeVolume,
                    ToContext(p.(name := Some(name), deviceMode := Some(mode))), stored)
    requires Parsed(ReadersFor(PersistentVolume, quantity), PersistentVolume,
                    ToContext(p.(name := Some(name))) + extra, published)
    ensures stored == Some(p.(name := Some(name), deviceMode := Some(mode)))
    ensures published == Some(p.(name := Some(name)))
  {
    UsersSetNoSize(quantity, m, p);
    RecordRoundTrip(quantity, p.(name := Some(name), deviceMode := Some(mode)), stored);
    ContextRoundTrip(quantity, p.(name := Some(name)), extra, published);
  }

  /** What the driver does with the parameters of an ephemeral volume: it stores them, marked as ephemeral. */
  lemma EphemeralParametersSurvive(quantity: string -> Option<Int64>, m: StringMap, p: Volume, name: string,
        mode: DeviceMode, stored: Option<Volume>)
    requires ReadsIntegers(quantity) && Parsed(ReadersFor(EphemeralVolume, quantity), EphemeralVolume, m, Some(p))
    requires Parsed(ReadersFor(NodeVolume, quantity), NodeVolume,
                    ToContext(p.(name := Some(name), persistency := Some(Ephemeral), deviceMode := Some(mode))), stored)
    ensures p.size.Some?
    ensures stored == Some(p.(name := Some(name), persistency := Some(Ephemeral), deviceMode := Some(mode)))
  {
    RecordRoundTrip(quantity, p.(name := Some(name), persistency := Some(Ephemeral), deviceMode := Some(mode)), stored);
  }
}

