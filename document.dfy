/** `WireGuardConfig` of server/src/WireGuardConfig.js: the list of sections read from a
    configuration file, the interface and peer views over it, lookup of a peer by public
    key, the lines written back, and the steps of `loadExisting`. */
module Document {
  import opened Wrappers
  import opened JsString
  import opened Ini
  import opened ConfigText
  import opened Views

  /** The values of a list of live sections, in order. */
  function ValuesOf(ss: seq<Section>): (r: seq<SectionValue>)
    reads ss
    ensures |r| == |ss|
  {
    seq(|ss|, i requires 0 <= i < |ss| reads ss => ss[i].Value())
  }

  // Selecting sections by name.

  /** The test of `getInterfaceSection` and `getPeerSections`: a name that is present and
      not empty (JavaScript treats `null` and `""` as false) and equals `target` once both
      are upper-cased. */
  predicate IsNamed(s: SectionValue, target: string) {
    s.name.Some? && s.name.value != "" && ToUpper(s.name.value) == ToUpper(target)
  }

  /** The selection ignores the case of the name it looks for, and only a present name of
      the target's length can match. */
  lemma NamedIgnoresCase(s: SectionValue, target: string)
    ensures IsNamed(s, target) == IsNamed(s, ToUpper(target))
    ensures IsNamed(s, target) ==> s.name.Some? && |s.name.value| == |target| > 0
  {
    ToUpperIdempotent(target);
  }

  /** `find`: the position of the first section named `target`, if any. */
  function FirstNamed(vs: seq<SectionValue>, target: string): (r: Option<nat>)
    ensures r.Some? ==> r.value < |vs| && IsNamed(vs[r.value], target)
    ensures r.Some? ==> forall j :: 0 <= j < r.value ==> !IsNamed(vs[j], target)
    ensures r.None? ==> forall j :: 0 <= j < |vs| ==> !IsNamed(vs[j], target)
    decreases |vs|
  {
    if |vs| == 0 then None
    else if IsNamed(vs[0], target) then Some(0)
    else
      match FirstNamed(vs[1..], target)
      case None => None
      case Some(j) => Some(j + 1)
  }

  /** `filter`: the positions of the sections named `target`, in increasing order. */
  function NamedIndices(vs: seq<SectionValue>, target: string): (r: seq<nat>)
    ensures forall k :: 0 <= k < |r| ==> r[k] < |vs|
    ensures forall j :: 0 <= j < |vs| ==> (j in r <==> IsNamed(vs[j], target))
    ensures forall a, b :: 0 <= a < b < |r| ==> r[a] < r[b]
    decreases |vs|
  {
    if |vs| == 0 then []
    else
      var n := |vs| - 1;
      var init := NamedIndices(vs[..n], target);
      assert forall j :: 0 <= j < n ==> vs[..n][j] == vs[j];
      init + (if IsNamed(vs[n], target) then [n] else [])
  }

  /** `find` returns the first of the sections `filter` would return. */
  lemma FindIsFirstOfFilter(vs: seq<SectionValue>, target: string)
    ensures var found := NamedIndices(vs, target);
      FirstNamed(vs, target) == if found == [] then None else Some(found[0])
  {
    var found := NamedIndices(vs, target);
    var first := FirstNamed(vs, target);
    if first.Some? {
      FirstIsFound(found, first.value, vs, target);
    } else {
      FoundAreNamed(found, vs, target);
    }
  }

  lemma FoundAreNamed(found: seq<nat>, vs: seq<SectionValue>, target: string)
    requires forall i :: 0 <= i < |found| ==> found[i] < |vs|
    requires forall j :: 0 <= j < |vs| ==> (j in found <==> IsNamed(vs[j], target))
    ensures forall i :: 0 <= i < |found| ==> IsNamed(vs[found[i]], target)
  {
    forall i | 0 <= i < |found| ensures IsNamed(vs[found[i]], target) {
      assert found[i] in found;
    }
  }

  lemma FirstIsFound(found: seq<nat>, k: nat, vs: seq<SectionValue>, target: string)
    requires k < |vs| && IsNamed(vs[k], target)
    requires forall j :: 0 <= j < k ==> !IsNamed(vs[j], target)
    requires forall i :: 0 <= i < |found| ==> found[i] < |vs|
    requires forall j :: 0 <= j < |vs| ==> (j in found <==> IsNamed(vs[j], target))
    requires forall a, b :: 0 <= a < b < |found| ==> found[a] < found[b]
    ensures found != [] && found[0] == k
  {
    assert k in found;
    FoundAreNamed(found, vs, target);
    SortedStartsLeast(found);
  }

  lemma SortedStartsLeast(found: seq<nat>)
    requires forall a, b :: 0 <= a < b < |found| ==> found[a] < found[b]
    ensures forall i :: 0 <= i < |found| ==> found[0] <= found[i]
  {
    forall i | 0 < i < |found| ensures found[0] <= found[i] {
      assert found[0] < found[i];
    }
  }

  /** The section names `toUpperCase` makes equal to `Interface` and `Peer`: comparison
      ignores ASCII case. */
  lemma NamesIgnoreCase()
    ensures IsNamed(SectionValue(Some("interface"), []), InterfaceSectionName)
    ensures IsNamed(SectionValue(Some("PEER"), []), PeerSectionName)
    ensures !IsNamed(SectionValue(Some(""), []), PeerSectionName)
    ensures !IsNamed(SectionValue(Some("null"), []), InterfaceSectionName)
    ensures !IsNamed(SectionValue(Some("null"), []), PeerSectionName)
  {
    assert ToUpper("interface") == "INTERFACE";
    assert ToUpper(InterfaceSectionName) == "INTERFACE";
    assert ToUpper("PEER") == "PEER";
    assert ToUpper(PeerSectionName) == "PEER";
    assert ToUpper("null") == "NULL";
  }

  // What the debug lines of `loadExisting` demand.

  ghost predicate HasConfig(s: SectionValue, key: string) {
    exists v :: Config(key, v) in s.entries
  }

  ghost predicate HasMeta(s: SectionValue, key: string) {
    exists v :: Meta(key, v) in s.entries
  }

  /** The position, among the sections listed by `idx`, of the first one without `Name`
      metadata. */
  ghost function FirstUnnamed(vs: seq<SectionValue>, idx: seq<nat>): (r: Option<nat>)
    requires forall k :: 0 <= k < |idx| ==> idx[k] < |vs|
    ensures r.Some? ==> r.value < |idx| && !HasMeta(vs[idx[r.value]], NameMetaKey)
    ensures r.Some? ==> forall k :: 0 <= k < r.value ==> HasMeta(vs[idx[k]], NameMetaKey)
    ensures r.None? ==> forall k :: 0 <= k < |idx| ==> HasMeta(vs[idx[k]], NameMetaKey)
    decreases |idx|
  {
    if |idx| == 0 then None
    else if !HasMeta(vs[idx[0]], NameMetaKey) then Some(0)
    else
      match FirstUnnamed(vs, idx[1..])
      case None => None
      case Some(k) => Some(k + 1)
  }

  lemma FirstUnnamedNone(vs: seq<SectionValue>, idx: seq<nat>)
    requires forall k :: 0 <= k < |idx| ==> idx[k] < |vs|
    requires forall k :: 0 <= k < |idx| ==> HasMeta(vs[idx[k]], NameMetaKey)
    ensures FirstUnnamed(vs, idx) == None
  {
  }

  /** Why `loadExisting` throws once the sections are in place. */
  datatype LoadError =
    | ParseFailed(error: ParseError)
    | NoInterfaceSection
    | MissingAddress
    | MissingListenPort
    | PeerWithoutName(index: nat)

  /** What the first debug line of `loadExisting` makes of the loaded sections: it reads
      the interface's `Address` and then its `ListenPort`; reading `.value` of a missing
      entry throws, as does calling a getter on the view over a missing interface
      section. */
  ghost function CheckInterface(vs: seq<SectionValue>): Outcome<LoadError> {
    match FirstNamed(vs, InterfaceSectionName)
    case None => Fail(NoInterfaceSection)
    case Some(k) =>
      if !HasConfig(vs[k], AddressKey) then Fail(MissingAddress)
      else if !HasConfig(vs[k], ListenPortKey) then Fail(MissingListenPort)
      else Pass
  }

  /** What the second debug line makes of them: it reads every peer's `Name` metadata, in
      order, and throws at the first peer without it. */
  ghost function CheckPeers(vs: seq<SectionValue>): Outcome<LoadError> {
    match FirstUnnamed(vs, NamedIndices(vs, PeerSectionName))
    case Some(p) => Fail(PeerWithoutName(p))
    case None => Pass
  }

  /** What the debug lines of `loadExisting` make of the loaded sections, in order. */
  ghost function CheckLoaded(vs: seq<SectionValue>): Outcome<LoadError> {
    if CheckInterface(vs).Fail? then CheckInterface(vs) else CheckPeers(vs)
  }

  /** What `loadExisting` makes of the loaded sections, case by case. It passes exactly
      when the first section named `Interface` has an `Address` and a `ListenPort` and
      every section named `Peer` has `Name` metadata. It fails for want of an interface
      exactly when no section is named `Interface`, for want of an address or a port when
      the first such section lacks one, and otherwise at the first peer without a name. */
  lemma CheckLoadedMeans(vs: seq<SectionValue>)
    ensures var first := FirstNamed(vs, InterfaceSectionName);
      CheckLoaded(vs) == Pass <==>
        first.Some? && HasConfig(vs[first.value], AddressKey) && HasConfig(vs[first.value], ListenPortKey)
        && forall k :: 0 <= k < |vs| && IsNamed(vs[k], PeerSectionName) ==> HasMeta(vs[k], NameMetaKey)
    ensures CheckLoaded(vs) == Fail(NoInterfaceSection) <==>
      forall k :: 0 <= k < |vs| ==> !IsNamed(vs[k], InterfaceSectionName)
    ensures var first := FirstNamed(vs, InterfaceSectionName);
      CheckLoaded(vs) == Fail(MissingAddress) <==>
        first.Some? && !HasConfig(vs[first.value], AddressKey)
    ensures var first := FirstNamed(vs, InterfaceSectionName);
      CheckLoaded(vs) == Fail(MissingListenPort) <==>
        first.Some? && HasConfig(vs[first.value], AddressKey) && !HasConfig(vs[first.value], ListenPortKey)
    ensures CheckLoaded(vs).Fail? && CheckLoaded(vs).error.PeerWithoutName? ==>
      var idx := NamedIndices(vs, PeerSectionName);
      var p := CheckLoaded(vs).error.index;
      p < |idx| && !HasMeta(vs[idx[p]], NameMetaKey)
      && forall q :: 0 <= q < p ==> HasMeta(vs[idx[q]], NameMetaKey)
  {
    CheckLoadedPass(vs);
    CheckLoadedInterface(vs);
    CheckLoadedPeer(vs);
  }

  /** The passing case of `CheckLoadedMeans`. */
  lemma CheckLoadedPass(vs: seq<SectionValue>)
    ensures var first := FirstNamed(vs, InterfaceSectionName);
      CheckLoaded(vs) == Pass <==>
        first.Some? && HasConfig(vs[first.value], AddressKey) && HasConfig(vs[first.value], ListenPortKey)
        && forall k :: 0 <= k < |vs| && IsNamed(vs[k], PeerSectionName) ==> HasMeta(vs[k], NameMetaKey)
  {
    var idx := NamedIndices(vs, PeerSectionName);
    if CheckLoaded(vs) == Pass {
      forall j | 0 <= j < |vs| && IsNamed(vs[j], PeerSectionName) ensures HasMeta(vs[j], NameMetaKey) {
        assert j in idx;
        var m :| 0 <= m < |idx| && idx[m] == j;
      }
    }
    if CheckInterface(vs) == Pass
       && forall k :: 0 <= k < |vs| && IsNamed(vs[k], PeerSectionName) ==> HasMeta(vs[k], NameMetaKey) {
      forall k | 0 <= k < |idx| ensures HasMeta(vs[idx[k]], NameMetaKey) {
        assert idx[k] in idx;
      }
      FirstUnnamedNone(vs, idx);
    }
  }

  /** The interface failures of `CheckLoadedMeans`. */
  lemma CheckLoadedInterface(vs: seq<SectionValue>)
    ensures CheckLoaded(vs) == Fail(NoInterfaceSection) <==>
      forall k :: 0 <= k < |vs| ==> !IsNamed(vs[k], InterfaceSectionName)
    ensures var first := FirstNamed(vs, InterfaceSectionName);
      CheckLoaded(vs) == Fail(MissingAddress) <==>
        first.Some? && !HasConfig(vs[first.value], AddressKey)
    ensures var first := FirstNamed(vs, InterfaceSectionName);
      CheckLoaded(vs) == Fail(MissingListenPort) <==>
        first.Some? && HasConfig(vs[first.value], AddressKey) && !HasConfig(vs[first.value], ListenPortKey)
  {
  }

  /** The peer failure of `CheckLoadedMeans`. */
  lemma CheckLoadedPeer(vs: seq<SectionValue>)
    ensures CheckLoaded(vs).Fail? && CheckLoaded(vs).error.PeerWithoutName? ==>
      var idx := NamedIndices(vs, PeerSectionName);
      var p := CheckLoaded(vs).error.index;
      p < |idx| && !HasMeta(vs[idx[p]], NameMetaKey)
      && forall q :: 0 <= q < p ==> HasMeta(vs[idx[q]], NameMetaKey)
  {
  }

  /** Whether `loadExisting` got as far as assigning the peers. */
  predicate ReachedPeers(o: Outcome<LoadError>) {
    o.Pass? || o.error.PeerWithoutName?
  }

  /** A missing name is written as `[null]`, which neither selection matches. */
  lemma ReloadedNamedAlike(s: SectionValue)
    ensures IsNamed(Reloaded(s), InterfaceSectionName) == IsNamed(s, InterfaceSectionName)
    ensures IsNamed(Reloaded(s), PeerSectionName) == IsNamed(s, PeerSectionName)
  {
    if s.name.None? {
      NamesIgnoreCase();
      assert Reloaded(s).name == Some("null");
    }
  }

  /** Saving and reloading changes nothing `loadExisting` checks. */
  lemma ReloadedChecksAlike(vs: seq<SectionValue>)
    ensures CheckLoaded(AllReloaded(vs)) == CheckLoaded(vs)
  {
    var ws := AllReloaded(vs);
    forall j | 0 <= j < |vs|
      ensures IsNamed(ws[j], InterfaceSectionName) == IsNamed(vs[j], InterfaceSectionName)
      ensures IsNamed(ws[j], PeerSectionName) == IsNamed(vs[j], PeerSectionName)
      ensures ws[j].entries == vs[j].entries
    {
      ReloadedNamedAlike(vs[j]);
    }
    SelectionsAlike(ws, vs);
  }

  /** Two lists of sections that agree on entries and on which names match select the
      same positions. */
  lemma SelectionsAlike(ws: seq<SectionValue>, vs: seq<SectionValue>)
    requires |ws| == |vs|
    requires forall j :: 0 <= j < |vs| ==>
      IsNamed(ws[j], InterfaceSectionName) == IsNamed(vs[j], InterfaceSectionName)
      && IsNamed(ws[j], PeerSectionName) == IsNamed(vs[j], PeerSectionName)
      && ws[j].entries == vs[j].entries
    ensures CheckLoaded(ws) == CheckLoaded(vs)
  {
    FirstNamedAlike(ws, vs, InterfaceSectionName);
    NamedIndicesAlike(ws, vs, PeerSectionName);
    var idx := NamedIndices(vs, PeerSectionName);
    FirstUnnamedAlike(ws, vs, idx);
  }

  lemma {:induction false} FirstNamedAlike(ws: seq<SectionValue>, vs: seq<SectionValue>, target: string)
    requires |ws| == |vs|
    requires forall j :: 0 <= j < |vs| ==> IsNamed(ws[j], target) == IsNamed(vs[j], target)
    ensures FirstNamed(ws, target) == FirstNamed(vs, target)
    decreases |vs|
  {
    if |vs| > 0 {
      FirstNamedAlike(ws[1..], vs[1..], target);
    }
  }

  lemma {:induction false} NamedIndicesAlike(ws: seq<SectionValue>, vs: seq<SectionValue>, target: string)
    requires |ws| == |vs|
    requires forall j :: 0 <= j < |vs| ==> IsNamed(ws[j], target) == IsNamed(vs[j], target)
    ensures NamedIndices(ws, target) == NamedIndices(vs, target)
    decreases |vs|
  {
    if |vs| > 0 {
      var n := |vs| - 1;
      NamedIndicesAlike(ws[..n], vs[..n], target);
    }
  }

  lemma {:induction false} FirstUnnamedAlike(ws: seq<SectionValue>, vs: seq<SectionValue>, idx: seq<nat>)
    requires |ws| == |vs|
    requires forall j :: 0 <= j < |vs| ==> ws[j].entries == vs[j].entries
    requires forall k :: 0 <= k < |idx| ==> idx[k] < |vs|
    ensures FirstUnnamed(ws, idx) == FirstUnnamed(vs, idx)
    decreases |idx|
  {
    if |idx| > 0 {
      FirstUnnamedAlike(ws, vs, idx[1..]);
    }
  }

  /** A file that loads saves to text that loads to the same sections (a leading unnamed
      block renamed `null`), and `loadExisting` judges both alike. */
  lemma LoadSaveLoadChecks(contents: string)
    requires Load(contents).Success?
    ensures var vs := Load(contents).value;
      Load(SaveText(vs)) == Success(AllReloaded(vs))
      && CheckLoaded(Load(SaveText(vs)).value) == CheckLoaded(vs)
  {
    LoadSaveLoad(contents);
    ReloadedChecksAlike(Load(contents).value);
  }

  // Looking a peer up by public key.

  datatype LookupError = PeerWithoutPublicKey(index: nat)

  /** The public key of each peer, in order (`None` where a peer has none). */
  function PublicKeysOf(ps: seq<WireGuardPeer>): (r: seq<Option<string>>)
    reads set j | 0 <= j < |ps| :: ps[j].section
    ensures |r| == |ps|
  {
    seq(|ps|, j requires 0 <= j < |ps| reads set k | 0 <= k < |ps| :: ps[k].section =>
          ps[j].GetPublicKey())
  }

  /** The keys from `from` up to `to` are all present, and none is `publicKey`. */
  predicate KeyedOtherwise(keys: seq<Option<string>>, publicKey: string, from: nat, to: nat)
    requires from <= to <= |keys|
  {
    forall j :: from <= j < to ==> keys[j].Some? && keys[j].value != publicKey
  }

  /** `peers.find((peer) => peer.getPublicKey() == publicKey)` over the peers' keys, from
      position `i` on: the first position holding that key, or `None`; reading the key of a
      peer that has none throws, so a missing key before any match is an error. */
  function FindKeyFrom(keys: seq<Option<string>>, publicKey: string, i: nat)
    : (r: Result<Option<nat>, LookupError>)
    requires i <= |keys|
    ensures r.Success? && r.value.Some? ==>
      i <= r.value.value < |keys| && keys[r.value.value] == Some(publicKey)
      && KeyedOtherwise(keys, publicKey, i, r.value.value)
    ensures r == Success(None) ==> KeyedOtherwise(keys, publicKey, i, |keys|)
    ensures r.Failure? ==>
      i <= r.error.index < |keys| && keys[r.error.index].None?
      && KeyedOtherwise(keys, publicKey, i, r.error.index)
    decreases |keys| - i
  {
    if i == |keys| then Success(None)
    else
      match keys[i]
      case None => Failure(PeerWithoutPublicKey(i))
      case Some(key) =>
        if key == publicKey then Success(Some(i)) else FindKeyFrom(keys, publicKey, i + 1)
  }

  /** The first section named `Interface`, if any: what `getInterfaceSection()` returns. */
  function InterfaceSectionOf(ss: seq<Section>): (r: Option<Section>)
    reads ss
    ensures r.Some? ==> r.value in ss && IsNamed(r.value.Value(), InterfaceSectionName)
    ensures r.Some? ==>
      exists k :: (0 <= k < |ss| && ss[k] == r.value
                   && forall j :: 0 <= j < k ==> !IsNamed(ss[j].Value(), InterfaceSectionName))
    ensures r.None? ==> forall s :: s in ss ==> !IsNamed(s.Value(), InterfaceSectionName)
  {
    var vs := ValuesOf(ss);
    match FirstNamed(vs, InterfaceSectionName)
    case None =>
      assert forall j :: 0 <= j < |ss| ==> vs[j] == ss[j].Value();
      None
    case Some(k) =>
      assert forall j :: 0 <= j < |ss| ==> vs[j] == ss[j].Value();
      Some(ss[k])
  }

  /** The sections named `Peer`, in order: what `getPeerSections()` returns. */
  function PeerSectionsOf(ss: seq<Section>): (r: seq<Section>)
    reads ss
    ensures forall s :: s in r ==> s in ss && IsNamed(s.Value(), PeerSectionName)
    ensures forall s :: s in ss && IsNamed(s.Value(), PeerSectionName) ==> s in r
    ensures var idx := NamedIndices(ValuesOf(ss), PeerSectionName);
      |r| == |idx| && forall k :: 0 <= k < |r| ==> idx[k] < |ss| && r[k] == ss[idx[k]]
  {
    var vs := ValuesOf(ss);
    var idx := NamedIndices(vs, PeerSectionName);
    var r := seq(|idx|, k requires 0 <= k < |idx| => ss[idx[k]]);
    assert (forall s :: s in r ==> s in ss && IsNamed(s.Value(), PeerSectionName))
      && (forall s :: s in ss && IsNamed(s.Value(), PeerSectionName) ==> s in r) by {
      forall s | s in r ensures s in ss && IsNamed(s.Value(), PeerSectionName) {
        var k :| 0 <= k < |r| && r[k] == s;
        assert idx[k] in idx;
        assert vs[idx[k]] == s.Value();
      }
      forall s | s in ss && IsNamed(s.Value(), PeerSectionName) ensures s in r {
        var j :| 0 <= j < |ss| && ss[j] == s;
        assert vs[j] == s.Value();
        assert j in idx;
        var k :| 0 <= k < |idx| && idx[k] == j;
        assert r[k] == s;
      }
    }
    r
  }

  /** The interface view is over the interface section, and absent without one. */
  predicate InterfaceViewed(ss: seq<Section>, w: Option<WireGuardInterface>)
    reads ss
  {
    match w
    case None => InterfaceSectionOf(ss).None?
    case Some(view) => InterfaceSectionOf(ss) == Some(view.section)
  }

  /** The peer views are over the peer sections, in order. */
  predicate PeersViewed(ss: seq<Section>, ps: seq<WireGuardPeer>)
    reads ss
  {
    var idx := NamedIndices(ValuesOf(ss), PeerSectionName);
    |ps| == |idx| && forall k :: 0 <= k < |ps| ==> ps[k].section == ss[idx[k]]
  }

  /** No section among the first `n` listed by `idx` lacks `Name` metadata. */
  ghost predicate NoneUnnamedBefore(vs: seq<SectionValue>, idx: seq<nat>, n: nat)
    requires forall k :: 0 <= k < |idx| ==> idx[k] < |vs|
  {
    FirstUnnamed(vs, idx).None? || FirstUnnamed(vs, idx).value >= n
  }

  /** Reading the `i`-th peer's name, with none missing before it: a missing name is the
      first one, and a present name moves the search on. */
  lemma PeerNamedStep(ss: seq<Section>, ps: seq<WireGuardPeer>, i: nat)
    requires PeersViewed(ss, ps) && i < |ps|
    requires NoneUnnamedBefore(ValuesOf(ss), NamedIndices(ValuesOf(ss), PeerSectionName), i)
    ensures var idx := NamedIndices(ValuesOf(ss), PeerSectionName);
      ps[i].GetName().None? ==> FirstUnnamed(ValuesOf(ss), idx) == Some(i)
    ensures var idx := NamedIndices(ValuesOf(ss), PeerSectionName);
      ps[i].GetName().Some? ==> NoneUnnamedBefore(ValuesOf(ss), idx, i + 1)
  {
    var vs := ValuesOf(ss);
    var idx := NamedIndices(vs, PeerSectionName);
    assert ps[i].section == ss[idx[i]];
    assert vs[idx[i]] == ps[i].section.Value();
  }

  class WireGuardConfig {
    var sections: seq<Section>
    var wgInterface: Option<WireGuardInterface>
    var peers: seq<WireGuardPeer>

    /** A configuration with nothing loaded. */
    constructor ()
      ensures sections == [] && wgInterface.None? && peers == []
    {
      sections := [];
      wgInterface := None;
      peers := [];
    }

    /** `parseSections()` over the lines `readFile()` returned: each line is decided by
        `Classify`; it fails exactly as the scan does, and otherwise returns sections
        holding what the scan produced. */
    method ParseSections(lines: seq<string>) returns (r: Result<seq<Section>, ParseError>)
      ensures r.Success? ==> ParseLines(lines) == Success(ValuesOf(r.value))
      ensures r.Failure? ==> ParseLines(lines) == Failure(r.error)
    {
      var configSections: seq<Section> := [];
      var current := new Section(None);
      ghost var done: seq<SectionValue> := [];
      ghost var kinds := Kinds(lines);
      for i := 0 to |lines|
        invariant fresh(current) && current !in configSections
        invariant |done| == |configSections|
        invariant forall j :: 0 <= j < |done| ==> done[j] == configSections[j].Value()
        invariant ScanAt(kinds, i, current.Value(), done) == ParseLines(lines)
      {
        ghost var cur := current.Value();
        KindsAt(lines, i);
        match Classify(lines[i])
        case Blank =>
        case CommentLine(text) =>
          current.AddComment(text);
        case Header(sectionName) =>
          if !current.IsEmpty() {
            configSections := configSections + [current];
            done := done + [cur];
          }
          current := new Section(Some(sectionName));
        case Setting(key, value) =>
          current.Add(key, value);
        case Malformed(line) =>
          return Failure(InvalidLine(i, line));
      }
      if !current.IsEmpty() {
        configSections := configSections + [current];
        done := done + [current.Value()];
      }
      assert ValuesOf(configSections) == done;
      return Success(configSections);
    }

    /** `getInterfaceSection()`. */
    function GetInterfaceSection(): (r: Option<Section>)
      reads this, sections
      ensures r.None? <==> FirstNamed(ValuesOf(sections), InterfaceSectionName).None?
      ensures r.Some? ==>
        (FirstNamed(ValuesOf(sections), InterfaceSectionName).value < |sections|
         && r.value == sections[FirstNamed(ValuesOf(sections), InterfaceSectionName).value])
    {
      InterfaceSectionOf(sections)
    }

    /** `getPeerSections()`. */
    function GetPeerSections(): (r: seq<Section>)
      reads this, sections
      ensures forall s :: s in r ==> s in sections && IsNamed(s.Value(), PeerSectionName)
      ensures forall s :: s in sections && IsNamed(s.Value(), PeerSectionName) ==> s in r
      ensures var idx := NamedIndices(ValuesOf(sections), PeerSectionName);
        |r| == |idx| && forall k :: 0 <= k < |r| ==> r[k] == sections[idx[k]]
    {
      PeerSectionsOf(sections)
    }

    /** `parseInterface()`: a view over the interface section; the source builds a view
        over `undefined` when there is none, which is `None` here. */
    method ParseInterface() returns (wgi: Option<WireGuardInterface>)
      ensures InterfaceViewed(sections, wgi) && (wgi.Some? ==> fresh(wgi.value))
      ensures ValuesOf(sections) == old(ValuesOf(sections))
    {
      var section := GetInterfaceSection();
      if section.None? {
        return None;
      }
      var view := new WireGuardInterface(section.value);
      return Some(view);
    }

    /** `parsePeers()`: one new view per peer section, in order. */
    method ParsePeers() returns (ps: seq<WireGuardPeer>)
      ensures PeersViewed(sections, ps) && forall p :: p in ps ==> fresh(p)
      ensures ValuesOf(sections) == old(ValuesOf(sections))
      ensures InterfaceSectionOf(sections) == old(InterfaceSectionOf(sections))
    {
      var ss := GetPeerSections();
      ps := [];
      for k := 0 to |ss|
        invariant |ps| == k
        invariant forall j :: 0 <= j < k ==> fresh(ps[j]) && ps[j].section == ss[j]
      {
        var peer := new WireGuardPeer(ss[k]);
        ps := ps + [peer];
      }
    }

    /** `getPeer(publicKey)`: the first peer whose public key is `publicKey`, if any; a
        peer without one before any match makes the lookup throw. */
    function GetPeer(publicKey: string): (r: Result<Option<WireGuardPeer>, LookupError>)
      reads this, set j | 0 <= j < |peers| :: peers[j].section
      ensures r.Success? && r.value.Some? ==>
        r.value.value in peers && r.value.value.GetPublicKey() == Some(publicKey)
      ensures r.Success? && r.value.Some? ==>
        exists k :: 0 <= k < |peers| && peers[k] == r.value.value
          && KeyedOtherwise(PublicKeysOf(peers), publicKey, 0, k)
      ensures r == Success(None) ==> KeyedOtherwise(PublicKeysOf(peers), publicKey, 0, |peers|)
      ensures r.Failure? ==>
        r.error.index < |peers| && peers[r.error.index].GetPublicKey().None?
        && KeyedOtherwise(PublicKeysOf(peers), publicKey, 0, r.error.index)
    {
      match FindKeyFrom(PublicKeysOf(peers), publicKey, 0)
      case Failure(e) => Failure(e)
      case Success(None) => Success(None)
      case Success(Some(k)) => Success(Some(peers[k]))
    }

    /** `toLines()`: every section's lines followed by an empty line, then one more. */
    method ToLines() returns (lines: seq<string>)
      ensures lines == DocumentLines(ValuesOf(sections))
    {
      lines := [];
      for i := 0 to |sections|
        invariant lines == SectionsLines(ValuesOf(sections[..i]))
      {
        var sectionLines := sections[i].ToLines();
        assert ValuesOf(sections[..i + 1]) == ValuesOf(sections[..i]) + [sections[i].Value()];
        lines := lines + sectionLines + [""];
      }
      assert sections[..|sections|] == sections;
      lines := lines + [""];
    }

    /** `save()`: the text written to the file, the lines joined with newlines. */
    method Save() returns (text: string)
      ensures text == SaveText(ValuesOf(sections))
    {
      var lines := ToLines();
      text := Join(lines, '\n');
    }

    /** `loadExisting()` on a file with text `contents`. A malformed file leaves everything
        as it was. Otherwise the sections are replaced by ones holding what the file holds,
        and the views are set up as `LoadViews` says. */
    method LoadExisting(contents: string) returns (outcome: Outcome<LoadError>)
      modifies this
      ensures Load(contents).Failure? ==>
        outcome == Fail(ParseFailed(Load(contents).error))
        && sections == old(sections) && wgInterface == old(wgInterface) && peers == old(peers)
      ensures Load(contents).Success? ==> ValuesOf(sections) == Load(contents).value
      ensures Load(contents).Success? ==> outcome == CheckLoaded(ValuesOf(sections))
      ensures Load(contents).Success? ==> InterfaceViewed(sections, wgInterface)
      ensures Load(contents).Success? && ReachedPeers(outcome) ==>
        PeersViewed(sections, peers) && forall p :: p in peers ==> fresh(p)
      ensures Load(contents).Success? && !ReachedPeers(outcome) ==> peers == old(peers)
    {
      var parsed := ParseSections(ReadLines(contents));
      if parsed.Failure? {
        return Fail(ParseFailed(parsed.error));
      }
      sections := parsed.value;
      outcome := LoadViews();
    }

    /** The rest of `loadExisting()` once the sections are in place: the interface view is
        set; the first debug line throws as `CheckInterface` says; otherwise the peer views
        are set and the second debug line throws as `CheckPeers` says. */
    method LoadViews() returns (outcome: Outcome<LoadError>)
      modifies this
      ensures sections == old(sections) && ValuesOf(sections) == old(ValuesOf(sections))
      ensures outcome == CheckLoaded(ValuesOf(sections))
      ensures InterfaceViewed(sections, wgInterface)
      ensures ReachedPeers(outcome) ==> PeersViewed(sections, peers) && forall p :: p in peers ==> fresh(p)
      ensures !ReachedPeers(outcome) ==> peers == old(peers)
    {
      wgInterface := ParseInterface();
      outcome := DescribeInterface();
      if outcome.Fail? {
        return;
      }
      outcome := LoadPeers();
    }

    /** The peer views are set, then the second debug line reads every peer's name. */
    method LoadPeers() returns (outcome: Outcome<LoadError>)
      modifies this
      ensures sections == old(sections) && wgInterface == old(wgInterface)
      ensures ValuesOf(sections) == old(ValuesOf(sections))
      ensures outcome == CheckPeers(ValuesOf(sections))
      ensures PeersViewed(sections, peers) && forall p :: p in peers ==> fresh(p)
    {
      peers := ParsePeers();
      var unnamed := FirstPeerWithoutName();
      if unnamed.Some? {
        return Fail(PeerWithoutName(unnamed.value));
      }
      return Pass;
    }

    /** The first debug line of `loadExisting()`: `getAddresses()` and then
        `getListenPort()` of the interface view. */
    method DescribeInterface() returns (outcome: Outcome<LoadError>)
      requires InterfaceViewed(sections, wgInterface)
      ensures outcome == CheckInterface(ValuesOf(sections))
    {
      ghost var vs := ValuesOf(sections);
      if wgInterface.None? {
        return Fail(NoInterfaceSection);
      }
      var iface := wgInterface.value;
      ghost var k := FirstNamed(vs, InterfaceSectionName).value;
      assert iface.section.Value() == vs[k];
      if iface.GetAddresses().None? {
        return Fail(MissingAddress);
      }
      if !iface.section.Has(ListenPortKey) {
        return Fail(MissingListenPort);
      }
      return Pass;
    }

    /** The second debug line of `loadExisting()`: `getName()` of every peer in order,
        which throws at the first peer without `Name` metadata; its position, if any. */
    method FirstPeerWithoutName() returns (r: Option<nat>)
      requires PeersViewed(sections, peers)
      ensures r == FirstUnnamed(ValuesOf(sections), NamedIndices(ValuesOf(sections), PeerSectionName))
    {
      ghost var vs := ValuesOf(sections);
      ghost var idx := NamedIndices(vs, PeerSectionName);
      var i := 0;
      while i < |peers|
        invariant i <= |peers| == |idx|
        invariant NoneUnnamedBefore(vs, idx, i)
      {
        PeerNamedStep(sections, peers, i);
        if peers[i].GetName().None? {
          return Some(i);
        }
        i := i + 1;
      }
      return None;
    }
  }
}
