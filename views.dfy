/** `WireGuardInterface` and `WireGuardPeer` of server/src/WireGuardConfig.js: typed
    accessors over one live section. A view holds a reference to the section, not a copy,
    so every setter changes the document's own section storage. */
module Views {
  import opened Wrappers
  import opened JsString
  import opened Ini

  const InterfaceSectionName := "Interface"
  const AddressKey := "Address"
  const ListenPortKey := "ListenPort"
  const PrivateKeyKey := "PrivateKey"
  const DnsKey := "DNS"
  const TableKey := "Table"
  const MtuKey := "MTU"
  const PreUpKey := "PreUp"
  const PostUpKey := "PostUp"
  const PreDownKey := "PreDown"
  const PostDownKey := "PostDown"
  const SaveConfigKey := "SaveConfig"
  const HostMetaKey := "Host"

  const PeerSectionName := "Peer"
  const EndpointKey := "Endpoint"
  const AllowedIpsKey := "AllowedIPs"
  const PublicKeyKey := "PublicKey"
  const PersistentKeepaliveKey := "PersistentKeepalive"
  const PresharedKeyKey := "PresharedKey"
  const PeerPrivateKeyMetaKey := "privateKey"
  const NameMetaKey := "Name"

  /** `section.getOne(key).value`: the value of the first configuration entry of `key`.
      The source reads `.value` of `undefined`, and so throws, when there is none; that
      case is `None` here. */
  function ConfigValue(s: Section, key: string): (r: Option<string>)
    reads s
    ensures r.Some? <==> s.Has(key)
    ensures r.Some? ==> s.Get(key)[0] == Config(key, r.value)
  {
    match s.GetOne(key)
    case None => None
    case Some(e) => Some(e.value)
  }

  /** `section.getOneMetadata(key).value`, with `None` where the source throws. */
  function MetaValue(s: Section, key: string): (r: Option<string>)
    reads s
    ensures r.Some? <==> exists v :: Meta(key, v) in s.entries
    ensures r.Some? ==> s.GetMetadata(key)[0] == Meta(key, r.value)
  {
    match s.GetOneMetadata(key)
    case None =>
      assert forall v :: Meta(key, v) in s.entries ==> Meta(key, v) in s.GetMetadata(key);
      None
    case Some(e) => Some(e.value)
  }

  /** `get(key).map((entry) => entry.value)`: every value of `key`, in order. */
  function AllValues(s: Section, key: string): (r: seq<string>)
    reads s
    ensures forall v :: v in r <==> Config(key, v) in s.entries
  {
    var found := s.Get(key);
    assert forall v :: v in Values(found) ==> Config(key, v) in found by {
      forall v | v in Values(found) ensures Config(key, v) in found {
        var i :| 0 <= i < |found| && Values(found)[i] == v;
        assert found[i] in found;
      }
    }
    assert forall v :: Config(key, v) in found ==> v in Values(found) by {
      forall v | Config(key, v) in found ensures v in Values(found) {
        var i :| 0 <= i < |found| && found[i] == Config(key, v);
        assert Values(found)[i] == v;
      }
    }
    Values(found)
  }

  /** A list the comma-list accessors give back unchanged: at least one item, each
      trimmed and without commas. */
  predicate IsPlainList(items: seq<string>) {
    |items| >= 1 && forall i :: 0 <= i < |items| ==> IsTrimmed(items[i]) && ',' !in items[i]
  }

  /** The comma-list getter pattern: `None` where the source throws. */
  function ListValue(s: Section, key: string): (r: Option<seq<string>>)
    reads s
    ensures r.Some? <==> s.Has(key)
    ensures r.Some? ==> IsPlainList(r.value)
    ensures r.Some? ==> r.value == UnCommaSeparated(ConfigValue(s, key).value)
  {
    match ConfigValue(s, key)
    case None => None
    case Some(v) => Some(UnCommaSeparated(v))
  }

  /** `set(key, value)` followed by the matching getter returns the value. */
  lemma SetOneThenValue(s: Section, before: seq<Entry>, key: string, value: string)
    requires s.entries == Assign(before, ConfigSpace, key, [value])
    ensures ConfigValue(s, key) == Some(value)
  {
    AssignOneThenFind(before, ConfigSpace, key, value);
  }

  /** `setMetadata(key, value)` followed by the matching getter returns the value, and
      no configuration entry has changed. */
  lemma SetOneThenMetaValue(s: Section, before: seq<Entry>, key: string, value: string)
    requires s.entries == Assign(before, MetaSpace, key, [value])
    ensures MetaValue(s, key) == Some(value)
    ensures Filter(s.entries, SpaceOf(ConfigSpace)) == Filter(before, SpaceOf(ConfigSpace))
  {
    AssignOneThenFind(before, MetaSpace, key, value);
    AssignOtherSpace(before, MetaSpace, key, [value], ConfigSpace);
  }

  /** `set(key, ...values)` followed by `get(key)` returns the values. */
  lemma SetThenAllValues(s: Section, before: seq<Entry>, key: string, values: seq<string>)
    requires s.entries == Assign(before, ConfigSpace, key, values)
    ensures AllValues(s, key) == values
  {
    AssignThenSelect(before, ConfigSpace, key, values);
  }

  /** A comma list written by a setter reads back unchanged. */
  lemma SetListThenValue(s: Section, before: seq<Entry>, key: string, items: seq<string>)
    requires s.entries == Assign(before, ConfigSpace, key, [CommaSeparated(items)])
    requires IsPlainList(items)
    ensures ListValue(s, key) == Some(items)
  {
    SetOneThenValue(s, before, key, CommaSeparated(items));
    CommaRoundTrip(items);
  }

  /** `WireGuardInterface`: the node's own settings, over the `[Interface]` section. */
  class WireGuardInterface {
    const section: Section

    constructor (section: Section)
      ensures this.section == section
    {
      this.section := section;
    }

    /** `WireGuardInterface.create()`: a view over a new, empty `Interface` section. */
    constructor Create()
      ensures fresh(section) && section.name == Some(InterfaceSectionName) && section.entries == []
    {
      section := new Section(Some(InterfaceSectionName));
    }

    method ToJson() returns (r: Result<SectionJson, JsonError>)
      ensures r.Success? <==> forall e :: e in section.entries && !e.Comment? ==> e.key !in InheritedKeys
      ensures r.Success? ==> IsJsonOf(r.value, section.entries)
      ensures r.Failure? ==> r.error.key in InheritedKeys
                             && exists e :: e in section.entries && !e.Comment? && e.key == r.error.key
    {
      r := section.ToJson();
    }

    /** `getAddresses()`: the comma-separated `Address` list. */
    function GetAddresses(): (r: Option<seq<string>>)
      reads section
      ensures r.Some? <==> section.Has(AddressKey)
      ensures r.Some? ==> IsPlainList(r.value)
      ensures r.Some? ==> r.value == UnCommaSeparated(ConfigValue(section, AddressKey).value)
    {
      ListValue(section, AddressKey)
    }

    method SetAddresses(addresses: seq<string>)
      modifies section
      ensures section.name == old(section.name)
      ensures section.entries == Assign(old(section.entries), ConfigSpace, AddressKey, [CommaSeparated(addresses)])
      ensures IsPlainList(addresses) ==> GetAddresses() == Some(addresses)
    {
      section.Set(AddressKey, [CommaSeparated(addresses)]);
      if IsPlainList(addresses) {
        SetListThenValue(section, old(section.entries), AddressKey, addresses);
      }
    }

    /** `getListenPort()`: `ListenPort` read as a decimal number. */
    function GetListenPort(): (r: Option<nat>)
      reads section
      ensures !section.Has(ListenPortKey) ==> r.None?
      ensures section.Has(ListenPortKey) ==> r == ParseDecimal(ConfigValue(section, ListenPortKey).value)
    {
      match ConfigValue(section, ListenPortKey)
      case None => None
      case Some(v) => ParseDecimal(v)
    }

    /** `setListenPort(port)`: the port, a safe integer, is stored as a number and
        serialises in plain decimal digits. */
    method SetListenPort(port: SafeInteger)
      modifies section
      ensures section.name == old(section.name)
      ensures section.entries == Assign(old(section.entries), ConfigSpace, ListenPortKey, [DecimalString(port)])
      ensures GetListenPort() == Some(port)
    {
      section.Set(ListenPortKey, [DecimalString(port)]);
      SetOneThenValue(section, old(section.entries), ListenPortKey, DecimalString(port));
      DecimalRoundTrip(port);
    }

    function GetPrivateKey(): (r: Option<string>)
      reads section
      ensures r.Some? <==> section.Has(PrivateKeyKey)
      ensures r.Some? ==> section.Get(PrivateKeyKey)[0] == Config(PrivateKeyKey, r.value)
    {
      ConfigValue(section, PrivateKeyKey)
    }

    method SetPrivateKey(key: string)
      modifies section
      ensures section.name == old(section.name)
      ensures section.entries == Assign(old(section.entries), ConfigSpace, PrivateKeyKey, [key])
      ensures GetPrivateKey() == Some(key)
    {
      section.Set(PrivateKeyKey, [key]);
      SetOneThenValue(section, old(section.entries), PrivateKeyKey, key);
    }

    /** `getDNS()`: the comma-separated `DNS` list. */
    function GetDns(): (r: Option<seq<string>>)
      reads section
      ensures r.Some? <==> section.Has(DnsKey)
      ensures r.Some? ==> IsPlainList(r.value)
      ensures r.Some? ==> r.value == UnCommaSeparated(ConfigValue(section, DnsKey).value)
    {
      ListValue(section, DnsKey)
    }

    method SetDns(servers: seq<string>)
      modifies section
      ensures section.name == old(section.name)
      ensures section.entries == Assign(old(section.entries), ConfigSpace, DnsKey, [CommaSeparated(servers)])
      ensures IsPlainList(servers) ==> GetDns() == Some(servers)
    {
      section.Set(DnsKey, [CommaSeparated(servers)]);
      if IsPlainList(servers) {
        SetListThenValue(section, old(section.entries), DnsKey, servers);
      }
    }

    function GetTable(): (r: Option<string>)
      reads section
      ensures r.Some? <==> section.Has(TableKey)
      ensures r.Some? ==> section.Get(TableKey)[0] == Config(TableKey, r.value)
    {
      ConfigValue(section, TableKey)
    }

    method SetTable(table: string)
      modifies section
      ensures section.name == old(section.name)
      ensures section.entries == Assign(old(section.entries), ConfigSpace, TableKey, [table])
      ensures GetTable() == Some(table)
    {
      section.Set(TableKey, [table]);
      SetOneThenValue(section, old(section.entries), TableKey, table);
    }

    /** `setMTU(mtu)`: stored as a number. (The source's `getMTU` is not modelled.) */
    method SetMtu(mtu: SafeInteger)
      modifies section
      ensures section.name == old(section.name)
      ensures section.entries == Assign(old(section.entries), ConfigSpace, MtuKey, [DecimalString(mtu)])
      ensures ConfigValue(section, MtuKey) == Some(DecimalString(mtu))
    {
      section.Set(MtuKey, [DecimalString(mtu)]);
      SetOneThenValue(section, old(section.entries), MtuKey, DecimalString(mtu));
    }

    /** `setPreUp(...cmds)`: replaces every `PreUp` line. (The source's `getPreUp` is not
        modelled.) */
    method SetPreUp(commands: seq<string>)
      modifies section
      ensures section.name == old(section.name)
      ensures section.entries == Assign(old(section.entries), ConfigSpace, PreUpKey, commands)
      ensures AllValues(section, PreUpKey) == commands
    {
      section.Set(PreUpKey, commands);
      SetThenAllValues(section, old(section.entries), PreUpKey, commands);
    }

    /** `getPostUp()`: every `PostUp` command, in file order. */
    function GetPostUp(): (r: seq<string>)
      reads section
      ensures forall v :: v in r <==> Config(PostUpKey, v) in section.entries
    {
      AllValues(section, PostUpKey)
    }

    method SetPostUp(commands: seq<string>)
      modifies section
      ensures section.name == old(section.name)
      ensures section.entries == Assign(old(section.entries), ConfigSpace, PostUpKey, commands)
      ensures GetPostUp() == commands
    {
      section.Set(PostUpKey, commands);
      SetThenAllValues(section, old(section.entries), PostUpKey, commands);
    }

    /** `getPreDown()`: every `PreDown` command, in file order. */
    function GetPreDown(): (r: seq<string>)
      reads section
      ensures forall v :: v in r <==> Config(PreDownKey, v) in section.entries
    {
      AllValues(section, PreDownKey)
    }

    method SetPreDown(commands: seq<string>)
      modifies section
      ensures section.name == old(section.name)
      ensures section.entries == Assign(old(section.entries), ConfigSpace, PreDownKey, commands)
      ensures GetPreDown() == commands
    {
      section.Set(PreDownKey, commands);
      SetThenAllValues(section, old(section.entries), PreDownKey, commands);
    }

    /** `getPostDown()`: every `PostDown` command, in file order. */
    function GetPostDown(): (r: seq<string>)
      reads section
      ensures forall v :: v in r <==> Config(PostDownKey, v) in section.entries
    {
      AllValues(section, PostDownKey)
    }

    method SetPostDown(commands: seq<string>)
      modifies section
      ensures section.name == old(section.name)
      ensures section.entries == Assign(old(section.entries), ConfigSpace, PostDownKey, commands)
      ensures GetPostDown() == commands
    {
      section.Set(PostDownKey, commands);
      SetThenAllValues(section, old(section.entries), PostDownKey, commands);
    }

    /** `getSaveConfig()`: true exactly when the value is the literal `true`. */
    function GetSaveConfig(): (r: Option<bool>)
      reads section
      ensures r.Some? <==> section.Has(SaveConfigKey)
      ensures r == Some(true) <==> ConfigValue(section, SaveConfigKey) == Some("true")
    {
      match ConfigValue(section, SaveConfigKey)
      case None => None
      case Some(v) => Some(v == "true")
    }

    /** `setSaveConfig(what)`: stored as the literal `true` or `false`. */
    method SetSaveConfig(what: bool)
      modifies section
      ensures section.name == old(section.name)
      ensures section.entries == Assign(old(section.entries), ConfigSpace, SaveConfigKey, [if what then "true" else "false"])
      ensures GetSaveConfig() == Some(what)
    {
      section.Set(SaveConfigKey, [if what then "true" else "false"]);
      SetOneThenValue(section, old(section.entries), SaveConfigKey, if what then "true" else "false");
    }

    /** `setHostAddress(host)`: the `Host` metadata entry; configuration entries are left
        alone. (The source's `getHostAddress` is not modelled.) */
    method SetHostAddress(host: string)
      modifies section
      ensures section.name == old(section.name)
      ensures section.entries == Assign(old(section.entries), MetaSpace, HostMetaKey, [host])
      ensures MetaValue(section, HostMetaKey) == Some(host)
      ensures Filter(section.entries, SpaceOf(ConfigSpace)) == Filter(old(section.entries), SpaceOf(ConfigSpace))
    {
      section.SetMetadata(HostMetaKey, [host]);
      SetOneThenMetaValue(section, old(section.entries), HostMetaKey, host);
    }
  }

  /** `WireGuardPeer`: one remote party, over a `[Peer]` section. */
  class WireGuardPeer {
    const section: Section

    constructor (section: Section)
      ensures this.section == section
    {
      this.section := section;
    }

    /** `WireGuardPeer.create()`: a view over a new, empty `Peer` section. */
    constructor Create()
      ensures fresh(section) && section.name == Some(PeerSectionName) && section.entries == []
    {
      section := new Section(Some(PeerSectionName));
    }

    method ToJson() returns (r: Result<SectionJson, JsonError>)
      ensures r.Success? <==> forall e :: e in section.entries && !e.Comment? ==> e.key !in InheritedKeys
      ensures r.Success? ==> IsJsonOf(r.value, section.entries)
      ensures r.Failure? ==> r.error.key in InheritedKeys
                             && exists e :: e in section.entries && !e.Comment? && e.key == r.error.key
    {
      r := section.ToJson();
    }

    function GetEndpoint(): (r: Option<string>)
      reads section
      ensures r.Some? <==> section.Has(EndpointKey)
      ensures r.Some? ==> section.Get(EndpointKey)[0] == Config(EndpointKey, r.value)
    {
      ConfigValue(section, EndpointKey)
    }

    method SetEndpoint(endpoint: string)
      modifies section
      ensures section.name == old(section.name)
      ensures section.entries == Assign(old(section.entries), ConfigSpace, EndpointKey, [endpoint])
      ensures GetEndpoint() == Some(endpoint)
    {
      section.Set(EndpointKey, [endpoint]);
      SetOneThenValue(section, old(section.entries), EndpointKey, endpoint);
    }

    /** `getAllowedIPs()`: the comma-separated `AllowedIPs` list. */
    function GetAllowedIps(): (r: Option<seq<string>>)
      reads section
      ensures r.Some? <==> section.Has(AllowedIpsKey)
      ensures r.Some? ==> IsPlainList(r.value)
      ensures r.Some? ==> r.value == UnCommaSeparated(ConfigValue(section, AllowedIpsKey).value)
    {
      ListValue(section, AllowedIpsKey)
    }

    method SetAllowedIps(ranges: seq<string>)
      modifies section
      ensures section.name == old(section.name)
      ensures section.entries == Assign(old(section.entries), ConfigSpace, AllowedIpsKey, [CommaSeparated(ranges)])
      ensures IsPlainList(ranges) ==> GetAllowedIps() == Some(ranges)
    {
      section.Set(AllowedIpsKey, [CommaSeparated(ranges)]);
      if IsPlainList(ranges) {
        SetListThenValue(section, old(section.entries), AllowedIpsKey, ranges);
      }
    }

    function GetPublicKey(): (r: Option<string>)
      reads section
      ensures r.Some? <==> section.Has(PublicKeyKey)
      ensures r.Some? ==> section.Get(PublicKeyKey)[0] == Config(PublicKeyKey, r.value)
    {
      ConfigValue(section, PublicKeyKey)
    }

    method SetPublicKey(key: string)
      modifies section
      ensures section.name == old(section.name)
      ensures section.entries == Assign(old(section.entries), ConfigSpace, PublicKeyKey, [key])
      ensures GetPublicKey() == Some(key)
    {
      section.Set(PublicKeyKey, [key]);
      SetOneThenValue(section, old(section.entries), PublicKeyKey, key);
    }

    /** `getPersistentKeepalive()`: read as a decimal number of seconds. */
    function GetPersistentKeepalive(): (r: Option<nat>)
      reads section
      ensures !section.Has(PersistentKeepaliveKey) ==> r.None?
      ensures section.Has(PersistentKeepaliveKey) ==> r == ParseDecimal(ConfigValue(section, PersistentKeepaliveKey).value)
    {
      match ConfigValue(section, PersistentKeepaliveKey)
      case None => None
      case Some(v) => ParseDecimal(v)
    }

    method SetPersistentKeepalive(seconds: SafeInteger)
      modifies section
      ensures section.name == old(section.name)
      ensures section.entries == Assign(old(section.entries), ConfigSpace, PersistentKeepaliveKey, [DecimalString(seconds)])
      ensures GetPersistentKeepalive() == Some(seconds)
    {
      section.Set(PersistentKeepaliveKey, [DecimalString(seconds)]);
      SetOneThenValue(section, old(section.entries), PersistentKeepaliveKey, DecimalString(seconds));
      DecimalRoundTrip(seconds);
    }

    function GetPresharedKey(): (r: Option<string>)
      reads section
      ensures r.Some? <==> section.Has(PresharedKeyKey)
      ensures r.Some? ==> section.Get(PresharedKeyKey)[0] == Config(PresharedKeyKey, r.value)
    {
      ConfigValue(section, PresharedKeyKey)
    }

    method SetPresharedKey(key: string)
      modifies section
      ensures section.name == old(section.name)
      ensures section.entries == Assign(old(section.entries), ConfigSpace, PresharedKeyKey, [key])
      ensures GetPresharedKey() == Some(key)
    {
      section.Set(PresharedKeyKey, [key]);
      SetOneThenValue(section, old(section.entries), PresharedKeyKey, key);
    }

    /** `getPrivateKey()`: the peer's own private key, kept in the `privateKey` metadata
        entry, never in a configuration line. */
    function GetPrivateKey(): (r: Option<string>)
      reads section
      ensures r.Some? <==> exists v :: Meta(PeerPrivateKeyMetaKey, v) in section.entries
      ensures r.Some? ==> section.GetMetadata(PeerPrivateKeyMetaKey)[0] == Meta(PeerPrivateKeyMetaKey, r.value)
    {
      MetaValue(section, PeerPrivateKeyMetaKey)
    }

    method SetPrivateKey(key: string)
      modifies section
      ensures section.name == old(section.name)
      ensures section.entries == Assign(old(section.entries), MetaSpace, PeerPrivateKeyMetaKey, [key])
      ensures GetPrivateKey() == Some(key)
      ensures Filter(section.entries, SpaceOf(ConfigSpace)) == Filter(old(section.entries), SpaceOf(ConfigSpace))
    {
      section.SetMetadata(PeerPrivateKeyMetaKey, [key]);
      SetOneThenMetaValue(section, old(section.entries), PeerPrivateKeyMetaKey, key);
    }

    /** `getName()`: the display label, kept in the `Name` metadata entry. */
    function GetName(): (r: Option<string>)
      reads section
      ensures r.Some? <==> exists v :: Meta(NameMetaKey, v) in section.entries
      ensures r.Some? ==> section.GetMetadata(NameMetaKey)[0] == Meta(NameMetaKey, r.value)
    {
      MetaValue(section, NameMetaKey)
    }

    method SetName(name: string)
      modifies section
      ensures section.name == old(section.name)
      ensures section.entries == Assign(old(section.entries), MetaSpace, NameMetaKey, [name])
      ensures GetName() == Some(name)
      ensures Filter(section.entries, SpaceOf(ConfigSpace)) == Filter(old(section.entries), SpaceOf(ConfigSpace))
    {
      section.SetMetadata(NameMetaKey, [name]);
      SetOneThenMetaValue(section, old(section.entries), NameMetaKey, name);
    }
  }
}
