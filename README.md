# wg-easy configuration document, in Dafny

This project models the configuration-document layer of wg-easy
(`server/src/WireGuardConfig.js`). That layer reads, edits and writes the
WireGuard interface file `wg0.conf`, an INI-like format of `[Interface]` and
`[Peer]` sections with `key = value` lines. wg-easy keeps its own per-peer
data (name, private key, host) in the same file as metadata comments
`#!key = value`.

The model has four layers, one module each, plus two support modules:

- `Ini` (ini.dfy) covers `IniEntry` and `IniSection`.
  - An entry is one of three kinds: a comment, a metadata pair or a
    configuration pair.
  - A section is a `class` whose name and entry list the methods update in
    place: `add`, `set`, `addMetadata`, `setMetadata` and `addComment`.
  - The queries (`get`, `getOne`, `has`, `getMetadata`, `getComments`) are
    functions that filter the list.
  - `set` is a loop proved against `Assign`, which removes a key and appends
    the new values.
- `Views` (views.dfy) covers `WireGuardInterface` and `WireGuardPeer`.
  - Each is a class holding a reference to a live `Section`, so every setter
    changes the document's own section.
  - A getter returns `None` where the source reads `.value` of `undefined` and
    throws.
- `ConfigText` (config_text.dfy) covers the file text.
  - `Classify` decides each trimmed line: blank, comment, header, setting or
    malformed.
  - `ScanAt` and `ParseLines` are the scan of `parseSections` as a function.
  - `SectionLines`, `DocumentLines` and `SaveText` are the lines `toLines`
    writes.
  - The save/load round trip is proved over these.
- `Document` (document.dfy) covers `WireGuardConfig`.
  - `ParseSections` is the scanning loop over `Section` objects, proved equal
    to `ParseLines`.
  - Selection of the `Interface` and `Peer` sections is included, with
    `ASCII` upper-casing.
  - `parseInterface` and `parsePeers` build views over the live sections.
  - `getPeer`, `toLines` and `save` are included.
  - `loadExisting` is included, together with the errors its debug lines
    throw once the new sections are in place.
- `JsString` (js_string.dfy) covers the JavaScript string operations the
  source relies on: `trim`, one-character `split` and `join`, `indexOf`,
  ASCII `toUpperCase`, and decimal `parseInt` and `String(n)`.
- `Wrappers` (wrappers.dfy) defines `Option`, `Result` and `Outcome`.
  - `undefined` and thrown errors become explicit values of these types.

File reading and writing are parameters and results:
- `ParseSections` takes the lines `readFile()` returned.
- `LoadExisting` takes the file's text.
- `Save` returns the text `writeToConfig` would write.

`isEmpty()` tests `this.name`, a field that is never assigned, since the
name lives in `sectionName`. So a section counts as empty whenever it has no
entries, named or not, and `parseSections` drops a named section without
entries. The method's name and its test of a name suggest "no name and no
entries", but the code tests only the entries, and the model follows the code:
- `Ini.Section.IsEmpty` looks only at the entries;
- `ConfigText.Close` keeps only sections with entries;
- `ConfigText.EmptySectionDropped` shows a saved `[name]` with no entries
  loading back as nothing.

## Model

| member | source | states |
|---|---|---|
| Ini.MakeEntry | server/src/WireGuardConfig.js:9-21 | building an entry succeeds exactly for the three tags `_comment_`, `_meta_`, `_entry_`, keeping tag, key and value; any other tag is the `Invalid IniEntry type` error |
| Ini.MakeEntryRoundTrip | server/src/WireGuardConfig.js:9-34 | every entry is rebuilt from its own tag, key and value |
| Ini.Filter | server/src/WireGuardConfig.js:56-58 | `filter` keeps exactly the accepted entries and never more than it was given |
| Ini.Find | server/src/WireGuardConfig.js:64-66 | `find` is the head of what `filter` returns with the same test, or `undefined` |
| Ini.FilterAppend | server/src/WireGuardConfig.js:56-58 | filtering keeps order: it distributes over concatenation |
| Ini.FilterFilter | server/src/WireGuardConfig.js:136-151 | filtering by a weaker then a stronger test is filtering by the stronger one |
| Ini.Section.constructor | server/src/WireGuardConfig.js:40-43 | a new section has the given name, which `getName()` returns, and no entries |
| Ini.Section.SetName | server/src/WireGuardConfig.js:45-50 | after `setName(n)`, `getName()` returns `n`; the entries are unchanged |
| Ini.Section.Get | server/src/WireGuardConfig.js:56-58 | `get(key)` holds exactly the configuration entries of `key` |
| Ini.Section.GetOne | server/src/WireGuardConfig.js:64-66 | `getOne(key)` is the first entry of `get(key)`, a configuration entry of `key` |
| Ini.Section.Has | server/src/WireGuardConfig.js:68-70 | `has(key)` holds exactly when some configuration entry has `key` |
| Ini.Section.Add | server/src/WireGuardConfig.js:72-74 | `add` appends one configuration entry and changes nothing else |
| Ini.Section.Set | server/src/WireGuardConfig.js:76-79 | `set(key, ...values)` leaves the name and makes the entries `Assign(old, config, key, values)` |
| Ini.Section.GetMetadata | server/src/WireGuardConfig.js:81-83 | `getMetadata(key)` holds exactly the metadata entries of `key` |
| Ini.Section.GetOneMetadata | server/src/WireGuardConfig.js:85-87 | `getOneMetadata(key)` is the first of `getMetadata(key)` |
| Ini.Section.AddMetadata | server/src/WireGuardConfig.js:89-91 | `addMetadata` appends one metadata entry and changes nothing else |
| Ini.Section.SetMetadata | server/src/WireGuardConfig.js:93-96 | `setMetadata` is `Assign` over the metadata namespace |
| Ini.Section.AddComment | server/src/WireGuardConfig.js:98-107 | `addComment` appends the decoded entry and changes nothing else |
| Ini.DecodeComment | server/src/WireGuardConfig.js:98-107 | text is metadata exactly when it starts with `!` and holds `=`; then key and value are trimmed and the key has no `=`; otherwise it is a verbatim comment |
| Ini.DecodeMetaAt | server/src/WireGuardConfig.js:98-104 | for text `!k=v` whose first `=` is at `eq`, the decoded entry is metadata with key the trimmed text between `!` and `eq` and value the trimmed text after `eq` |
| Ini.DecodeMetaText | server/src/WireGuardConfig.js:98-107 | the text `!key =` followed by anything that trims to `value` decodes to `Meta(key, value)` |
| Ini.Section.GetComments | server/src/WireGuardConfig.js:112-114 | `getComments()` holds exactly the comment entries |
| Ini.Section.IsEmpty | server/src/WireGuardConfig.js:116-118 | a section is empty exactly when it has no comments, no configuration entry and no metadata of any key, whatever its name |
| Ini.AssignThenSelect | server/src/WireGuardConfig.js:56-79 | after `set(k, v1..vn)`, `get(k)` yields exactly `v1..vn` in order, and they are the last n entries of the section |
| Ini.AssignKeepsRest | server/src/WireGuardConfig.js:76-79 | `set` keeps every other entry in its relative order |
| Ini.AssignOtherKey | server/src/WireGuardConfig.js:56-96 | `set` of one key leaves what `get`/`getMetadata` return for every other key unchanged |
| Ini.AssignOtherSpace | server/src/WireGuardConfig.js:76-96 | `setMetadata` never touches configuration entries, `set` never touches metadata, neither touches comments |
| Ini.AssignNothingRemoves | server/src/WireGuardConfig.js:68-79 | `set(k)` with no values makes `has(k)` false |
| Ini.AssignOneThenFind | server/src/WireGuardConfig.js:64-79 | `set(k, v)` makes `getOne(k)` the new entry |
| Ini.AddThenSelect | server/src/WireGuardConfig.js:56-74 | `add(k, v)` appends `v` to `get(k)` and leaves every other key's entries alone |
| Ini.Section.ToLines | server/src/WireGuardConfig.js:120-134 | `toLines()` is the header line then one line per entry, in order |
| Ini.GroupOfGroups | server/src/WireGuardConfig.js:137-145 | after any prefix, every key present maps to all of its entries in order, and no other key is present |
| Ini.Group | server/src/WireGuardConfig.js:137-145 | `group` throws exactly when some item's key names an inherited `Object.prototype` member, at the first such item; otherwise it maps each key present to all of its entries, in order, and no other key |
| Ini.GroupStep | server/src/WireGuardConfig.js:140-142 | one step of `group` groups one more item |
| Ini.Section.ToJson | server/src/WireGuardConfig.js:136-151 | `toJson()` throws exactly when a configuration or metadata key names an inherited `Object.prototype` member, naming such a key; otherwise it groups configuration entries and metadata by key (each group is what `get`/`getMetadata` returns) and lists the comments |
| Ini.ClearKeys | server/src/WireGuardConfig.js:146-150 | when neither grouping throws, no keyed entry of the section has an inherited key |
| Ini.GroupingOfSpace | server/src/WireGuardConfig.js:146-150 | grouping the filtered entries of one namespace groups the whole list |
| Ini.UnCommaSeparated | server/src/WireGuardConfig.js:157-159 | `unCommaSeparated` returns at least one piece, each trimmed and comma-free; a value without a comma is the one trimmed piece |
| Ini.CommaSeparated | server/src/WireGuardConfig.js:165-167 | `commaSeparated` of comma-free items splits back at the commas into exactly those items; no items give the empty string |
| Ini.CommaRoundTrip | server/src/WireGuardConfig.js:157-167 | `unCommaSeparated(commaSeparated(xs)) == xs` for a non-empty list of trimmed, comma-free items |
| Ini.CommaEmptyList | server/src/WireGuardConfig.js:157-167 | the empty list does not round-trip: it reads back as one empty item |
| Ini.UnCommaIdempotent | server/src/WireGuardConfig.js:157-167 | reading a comma list, writing it and reading it again gives the first reading |
| JsString.TrimIsTrimmed | server/src/WireGuardConfig.js:529 | `trim` leaves no whitespace at either end and is the identity on trimmed text |
| JsString.IndexOf | server/src/WireGuardConfig.js:545 | `indexOf` finds the first occurrence: the character is there and not before |
| JsString.Split | server/src/WireGuardConfig.js:518 | `split` returns at least one piece and no piece holds the separator |
| JsString.SplitJoin | server/src/WireGuardConfig.js:518 | splitting the joined lines gives them back when none holds the separator |
| JsString.JoinSplit | server/src/WireGuardConfig.js:610-612 | joining the split text gives the text back |
| JsString.DecimalRoundTrip | server/src/WireGuardConfig.js:236-241 | reading back the decimal rendering of a safe integer, the only numbers the setters take, gives that number, as `parseInt` does for them |
| Views.ConfigValue | server/src/WireGuardConfig.js:247-249 | `getOne(key).value` exists exactly when `has(key)`, and is the first `get(key)` entry's value |
| Views.MetaValue | server/src/WireGuardConfig.js:427-429 | `getOneMetadata(key).value` exists exactly when a metadata entry of `key` does, and is the first one's value |
| Views.AllValues | server/src/WireGuardConfig.js:293-295 | `get(key).map(value)` holds exactly the values of `key`'s entries |
| Views.ListValue | server/src/WireGuardConfig.js:226-228 | a comma-list getter succeeds exactly when the key is present and returns `unCommaSeparated` of the first value, a clean list |
| Views.SetListThenValue | server/src/WireGuardConfig.js:226-231 | a clean list written by a comma-list setter reads back unchanged |
| Views.SetOneThenMetaValue | server/src/WireGuardConfig.js:430-432 | `setMetadata(k, v)` makes the metadata getter return `v` and leaves configuration entries unchanged |
| Views.WireGuardInterface.constructor | server/src/WireGuardConfig.js:207-209 | the view is over the section it was given |
| Views.WireGuardInterface.Create | server/src/WireGuardConfig.js:211-213 | a new, empty section named `Interface` |
| Views.WireGuardInterface.ToJson | server/src/WireGuardConfig.js:215-217 | the view's `toJson` is its section's: it throws exactly for an inherited key, and otherwise groups the section's entries |
| Views.WireGuardInterface.GetAddresses | server/src/WireGuardConfig.js:226-228 | `Address` read as a comma list: present exactly when the section has `Address`, and then `unCommaSeparated` of its first value |
| Views.WireGuardInterface.SetAddresses | server/src/WireGuardConfig.js:229-231 | one `Address` line holding the comma-joined list; a clean list reads back unchanged |
| Views.WireGuardInterface.GetListenPort | server/src/WireGuardConfig.js:236-238 | absent without `ListenPort`; otherwise `parseInt` of the first `ListenPort` value |
| Views.WireGuardInterface.SetListenPort | server/src/WireGuardConfig.js:239-241 | the port, a safe integer, stored in decimal; `getListenPort()` then returns it |
| Views.WireGuardInterface.GetPrivateKey | server/src/WireGuardConfig.js:247-249 | the first `PrivateKey` value, present exactly when the key is |
| Views.WireGuardInterface.SetPrivateKey | server/src/WireGuardConfig.js:250-252 | `PrivateKey` replaced; the getter returns the new key |
| Views.WireGuardInterface.GetDns | server/src/WireGuardConfig.js:257-259 | `DNS` read as a comma list, present exactly when the key is, and then `unCommaSeparated` of its first value |
| Views.WireGuardInterface.SetDns | server/src/WireGuardConfig.js:260-262 | one `DNS` line; a clean list reads back unchanged |
| Views.WireGuardInterface.GetTable | server/src/WireGuardConfig.js:264-266 | the first `Table` value, present exactly when the key is |
| Views.WireGuardInterface.SetTable | server/src/WireGuardConfig.js:267-269 | `Table` replaced; the getter returns it |
| Views.WireGuardInterface.SetMtu | server/src/WireGuardConfig.js:277-279 | `MTU`, a safe integer, stored in decimal as the only `MTU` entry |
| Views.WireGuardInterface.SetPreUp | server/src/WireGuardConfig.js:287-289 | every `PreUp` line replaced by the commands, which `get` then returns in order |
| Views.WireGuardInterface.GetPostUp | server/src/WireGuardConfig.js:293-295 | exactly the `PostUp` values |
| Views.WireGuardInterface.SetPostUp | server/src/WireGuardConfig.js:296-298 | `PostUp` lines replaced; `getPostUp()` returns the commands in order |
| Views.WireGuardInterface.GetPreDown | server/src/WireGuardConfig.js:302-304 | exactly the `PreDown` values |
| Views.WireGuardInterface.SetPreDown | server/src/WireGuardConfig.js:305-307 | `PreDown` lines replaced; `getPreDown()` returns the commands in order |
| Views.WireGuardInterface.GetPostDown | server/src/WireGuardConfig.js:311-313 | exactly the `PostDown` values |
| Views.WireGuardInterface.SetPostDown | server/src/WireGuardConfig.js:314-316 | `PostDown` lines replaced; `getPostDown()` returns the commands in order |
| Views.WireGuardInterface.GetSaveConfig | server/src/WireGuardConfig.js:321-323 | true exactly when the `SaveConfig` value is the literal `true`; absent exactly when the key is |
| Views.WireGuardInterface.SetSaveConfig | server/src/WireGuardConfig.js:327-329 | stored as `true`/`false`; `getSaveConfig()` then returns the flag |
| Views.WireGuardInterface.SetHostAddress | server/src/WireGuardConfig.js:342-344 | `Host` metadata replaced and readable; configuration entries unchanged |
| Views.WireGuardPeer.constructor | server/src/WireGuardConfig.js:364-366 | the view is over the section it was given |
| Views.WireGuardPeer.Create | server/src/WireGuardConfig.js:368-370 | a new, empty section named `Peer` |
| Views.WireGuardPeer.ToJson | server/src/WireGuardConfig.js:372-374 | the view's `toJson` is its section's: it throws exactly for an inherited key, and otherwise groups the section's entries |
| Views.WireGuardPeer.GetEndpoint | server/src/WireGuardConfig.js:380-382 | the first `Endpoint` value, present exactly when the key is |
| Views.WireGuardPeer.SetEndpoint | server/src/WireGuardConfig.js:383-385 | `Endpoint` replaced; the getter returns it |
| Views.WireGuardPeer.GetAllowedIps | server/src/WireGuardConfig.js:387-389 | `AllowedIPs` read as a comma list, present exactly when the key is, and then `unCommaSeparated` of its first value |
| Views.WireGuardPeer.SetAllowedIps | server/src/WireGuardConfig.js:390-392 | one `AllowedIPs` line; a clean list reads back unchanged |
| Views.WireGuardPeer.GetPublicKey | server/src/WireGuardConfig.js:394-396 | the first `PublicKey` value, present exactly when the key is |
| Views.WireGuardPeer.SetPublicKey | server/src/WireGuardConfig.js:397-399 | `PublicKey` replaced; the getter returns it |
| Views.WireGuardPeer.GetPersistentKeepalive | server/src/WireGuardConfig.js:405-407 | absent without `PersistentKeepalive`; otherwise `parseInt` of the first `PersistentKeepalive` value |
| Views.WireGuardPeer.SetPersistentKeepalive | server/src/WireGuardConfig.js:411-413 | the number, a safe integer, stored in decimal; the getter then returns it |
| Views.WireGuardPeer.GetPresharedKey | server/src/WireGuardConfig.js:416-418 | the first `PresharedKey` value, present exactly when the key is |
| Views.WireGuardPeer.SetPresharedKey | server/src/WireGuardConfig.js:419-421 | `PresharedKey` replaced; the getter returns it |
| Views.WireGuardPeer.GetPrivateKey | server/src/WireGuardConfig.js:427-429 | the `privateKey` metadata value, present exactly when such metadata is |
| Views.WireGuardPeer.SetPrivateKey | server/src/WireGuardConfig.js:430-432 | `privateKey` metadata replaced and readable; configuration entries unchanged |
| Views.WireGuardPeer.GetName | server/src/WireGuardConfig.js:434-436 | the `Name` metadata value, present exactly when such metadata is |
| Views.WireGuardPeer.SetName | server/src/WireGuardConfig.js:437-439 | `Name` metadata replaced and readable; configuration entries unchanged |
| ConfigText.Classify | server/src/WireGuardConfig.js:529-549 | a line is blank exactly when it trims to nothing; a comment is `#` and its text; a header is `[name]`; a setting has trimmed key and value and no `=` in the key; a malformed line is the trimmed line and has no `=` |
| ConfigText.ScanOutcome | server/src/WireGuardConfig.js:528-553 | the scan fails exactly when a malformed line remains, at the first one; otherwise it only adds sections that hold entries |
| ConfigText.ParseLines | server/src/WireGuardConfig.js:524-556 | `parseSections` throws exactly when some line is malformed, naming the first by its 0-based index and trimmed text; otherwise no returned section is empty |
| ConfigText.KindsAt | server/src/WireGuardConfig.js:524-556 | the scan decides every line on its own: the decision at position `i` is that of line `i` |
| ConfigText.ClassifySetting | server/src/WireGuardConfig.js:541-548 | a non-comment, non-header line with `=` splits at its first `=` |
| ConfigText.ClassifyMalformed | server/src/WireGuardConfig.js:542-544 | a non-comment, non-header line without `=` is malformed |
| ConfigText.EntryLineClassifies | server/src/WireGuardConfig.js:120-134 | the line written for a well-formed entry is read as that entry's decision |
| ConfigText.EntryKindAddsEntry | server/src/WireGuardConfig.js:533-548 | that decision adds the same entry back |
| ConfigText.HeaderLineClassifies | server/src/WireGuardConfig.js:121 | a written header is read as a header of the same name, `null` for a missing one |
| ConfigText.SectionsLinesClassify | server/src/WireGuardConfig.js:597-605 | the lines of all written sections classify line by line as the sections' decisions |
| ConfigText.SectionsScan | server/src/WireGuardConfig.js:528-550 | scanning the written sections pushes each of them in turn |
| ConfigText.EmptyFileHasNoSections | server/src/WireGuardConfig.js:517-556 | an empty file parses to no sections |
| ConfigText.EmptySectionDropped | server/src/WireGuardConfig.js:116-118 | a saved named section without entries loads back as nothing |
| ConfigText.SaveLoadRoundTrip | server/src/WireGuardConfig.js:597-618 | loading the saved text gives back the same sections and entries in order, a missing name as `null`, for sections with entries and without newlines or untrimmed values |
| ConfigText.SaveLoadNamed | server/src/WireGuardConfig.js:597-618 | with every section named, save then load is the identity |
| ConfigText.LoadedWellFormed | server/src/WireGuardConfig.js:524-556 | every section a file loads to meets the round trip's conditions |
| ConfigText.LoadSaveLoad | server/src/WireGuardConfig.js:524-618 | whatever a file loads to saves and loads back to itself |
| Document.FirstNamed | server/src/WireGuardConfig.js:561-563 | the first section passing the selection test, none before it; none when no section passes |
| Document.NamedIgnoresCase | server/src/WireGuardConfig.js:561-579 | the section-name test gives the same answer for a target and its upper-cased form, and passes only a present name as long as a non-empty target |
| Document.NamedIndices | server/src/WireGuardConfig.js:577-579 | exactly the positions passing the selection test, in increasing order |
| Document.FindIsFirstOfFilter | server/src/WireGuardConfig.js:561-579 | `getInterfaceSection`'s `find` returns the first of what the matching `filter` returns |
| Document.InterfaceSectionOf | server/src/WireGuardConfig.js:561-563 | `getInterfaceSection()` is a section named `Interface` with none before it, `undefined` when there is none |
| Document.PeerSectionsOf | server/src/WireGuardConfig.js:577-579 | `getPeerSections()` holds exactly the sections named `Peer`, in document order |
| Document.WireGuardConfig.GetInterfaceSection | server/src/WireGuardConfig.js:561-563 | undefined exactly when no section is named `Interface`; otherwise the first such section of the document |
| Document.WireGuardConfig.GetPeerSections | server/src/WireGuardConfig.js:577-579 | exactly the document's sections named `Peer`, in document order |
| Document.WireGuardConfig.constructor | server/src/WireGuardConfig.js:446-454 | nothing loaded: no sections, no interface, no peers |
| Document.WireGuardConfig.ParseSections | server/src/WireGuardConfig.js:524-556 | the scanning loop over `IniSection` objects fails exactly as `ParseLines` does, and otherwise returns sections holding what it returns |
| Document.WireGuardConfig.ParseInterface | server/src/WireGuardConfig.js:568-572 | a fresh view over the interface section, none without one; the sections are unchanged |
| Document.WireGuardConfig.ParsePeers | server/src/WireGuardConfig.js:584-591 | one fresh view per peer section, in order; the sections are unchanged |
| Document.FindKeyFrom | server/src/WireGuardConfig.js:485-487 | `find` by public key: the first matching position with every earlier peer keyed otherwise; none when no peer matches; an error at the first peer without a key before any match |
| Document.WireGuardConfig.GetPeer | server/src/WireGuardConfig.js:485-487 | `getPeer(pk)` returns the first peer whose `PublicKey` is `pk`, none when every peer has another key, and throws at a peer without one before a match |
| Document.WireGuardConfig.ToLines | server/src/WireGuardConfig.js:597-605 | every section's lines and an empty line after each, then one more |
| Document.WireGuardConfig.Save | server/src/WireGuardConfig.js:610-618 | the written text is those lines joined with newlines |
| Document.CheckLoadedMeans | server/src/WireGuardConfig.js:456-464 | loading passes exactly when the first section named `Interface` has `Address` and `ListenPort` and every `Peer` section has `Name` metadata; it fails for want of an interface exactly when no section is named `Interface`, for want of an address or a port exactly when that first section lacks it, and otherwise at the first peer without `Name` |
| Document.WireGuardConfig.LoadExisting | server/src/WireGuardConfig.js:456-464 | a malformed file changes nothing; otherwise the sections hold what the file holds, the views are over them, and the outcome is what the debug lines make of them |
| Document.WireGuardConfig.LoadViews | server/src/WireGuardConfig.js:460-464 | the interface view is set first; peers are set only when the interface checks pass |
| Document.WireGuardConfig.LoadPeers | server/src/WireGuardConfig.js:463-464 | peer views set over the peer sections, then the first peer without `Name` fails the load |
| Document.WireGuardConfig.DescribeInterface | server/src/WireGuardConfig.js:462 | `getAddresses()` then `getListenPort()` throw exactly as `CheckInterface` says |
| Document.WireGuardConfig.FirstPeerWithoutName | server/src/WireGuardConfig.js:464 | the position of the first peer whose `getName()` throws, if any |
| Document.ReloadedChecksAlike | server/src/WireGuardConfig.js:456-464 | saving and reloading changes nothing the load checks look at |
| Document.LoadSaveLoadChecks | server/src/WireGuardConfig.js:456-618 | a file that loads saves to text that loads to the same sections, and the load checks judge both alike |

## Left out

- File I/O is not modelled: `readFile`, `writeToConfig`, `configExists`, `getPath`, `getBackupPath`, `getLatestBackupPath`, `backupFSCopy`, `readLatestBackup`, `revert`. The file's text is a parameter and the written text a result.
- `generateBackupTag` depends on the clock and on locale formatting.
- The `debug` output text is not modelled. Only whether the debug lines of `loadExisting` throw is modelled.
- The constructor's `fileName`, `folder` and `backups` are used only for file paths.
- `getInterface()` and `getPeers()` only return a field. The model reads the `wgInterface` and `peers` fields directly.
- `IniEntry.isComment`, `isMeta` and `isEntry` are the `Entry` datatype's discriminators `Comment?`, `Meta?` and `Config?`.
- A comment entry carries no key, where the source stores `null`.
- `getMTU`, `getPreUp` and `getHostAddress` are not modelled, because they do not work in the source:
  - `getMTU` takes `.value` of a number;
  - `getPreUp` takes `.value` of an array;
  - `getHostAddress` has no `return`.
  Their setters are modelled.
- Views.WireGuardInterface.GetListenPort: models `parseInt` only over strings of decimal digits. Any other value gives `None`, where the source parses a numeric prefix or yields `NaN`. Digit strings above 2^53 - 1 give their exact value, where `parseInt` rounds to the nearest double.
- Views.WireGuardPeer.GetPersistentKeepalive: same restriction to decimal-digit strings as `GetListenPort`. Digit strings above 2^53 - 1 give their exact value, where `parseInt` rounds to the nearest double.
- JsString.DecimalRoundTrip: is stated for every natural number, but it matches `parseInt` only for safe integers; above 2^53 - 1 `parseInt` rounds to the nearest double.
- Views.WireGuardInterface.SetListenPort: takes a safe integer, a whole number from 0 to 2^53 - 1. The source stores whatever it is given. Larger numbers, which JavaScript holds inexactly and writes in exponent form from 10^21 on, negative numbers and fractions are not modelled.
- Views.WireGuardInterface.SetMtu: same restriction to safe integers as `SetListenPort`.
- Views.WireGuardPeer.SetPersistentKeepalive: same restriction to safe integers as `SetListenPort`.
- Ini.InheritedKeys: lists the inherited members of `Object.prototype` in current Node.js. Keys that other engines or later versions add there are not modelled.
- Upper-casing for the section-name test covers ASCII letters only. Full Unicode `toUpperCase` is not modelled.
- Document.WireGuardConfig.ParseInterface: returns `None` without an `Interface` section. The source builds a view over `undefined`, and the first getter call on it throws. `DescribeInterface` models that throw as `NoInterfaceSection`.
- Getters return `None` where the source reads `.value` of `undefined` and throws.
- `getPeer` compares keys with string equality; the source uses `==`, which is the same on two strings.
- Document.WireGuardConfig.ParseSections: does not state that the returned section objects are freshly allocated and pairwise distinct.
- The key order of the objects `toJson` builds is not modelled. The result is a map.
- Entry values are strings. The source can also hold the numbers the setters store, which render as their decimal digits while they are safe integers.
