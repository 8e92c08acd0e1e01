/** `IniEntry` and `IniSection` of server/src/WireGuardConfig.js: the entries of one
    section of a WireGuard configuration file, and the section that owns them. */
module Ini {
  import opened Wrappers
  import opened JsString

  // The three tags an `IniEntry` may carry.
  const CommentTag := "_comment_"
  const MetaTag := "_meta_"
  const EntryTag := "_entry_"

  /** One line of a section: a free comment, an application metadata pair hidden in
      comment syntax (`#!key = value`), or a configuration pair (`key = value`).
      A comment carries no key. */
  datatype Entry =
    | Comment(value: string)
    | Meta(key: string, value: string)
    | Config(key: string, value: string)

  /** The error `IniEntry.assertIsType` throws for an unknown tag. */
  datatype InvalidKind = InvalidKind(tag: string)

  function TagOf(e: Entry): string {
    match e
    case Comment(_) => CommentTag
    case Meta(_, _) => MetaTag
    case Config(_, _) => EntryTag
  }

  function KeyOf(e: Entry): string {
    if e.Comment? then "" else e.key
  }

  /** `new IniEntry(type, key, value)`: succeeds exactly for the three known tags and
      keeps the tag, key and value it was given. */
  function MakeEntry(tag: string, key: string, value: string): (r: Result<Entry, InvalidKind>)
    ensures r.Success? <==> tag == CommentTag || tag == MetaTag || tag == EntryTag
    ensures r.Success? ==> TagOf(r.value) == tag && r.value.value == value
    ensures r.Success? && tag != CommentTag ==> r.value.key == key
    ensures r.Failure? ==> r.error == InvalidKind(tag)
  {
    if tag == CommentTag then Success(Comment(value))
    else if tag == MetaTag then Success(Meta(key, value))
    else if tag == EntryTag then Success(Config(key, value))
    else Failure(InvalidKind(tag))
  }

  /** Every entry can be rebuilt from its own tag, key and value. */
  lemma MakeEntryRoundTrip(e: Entry)
    ensures MakeEntry(TagOf(e), KeyOf(e), e.value) == Success(e)
  {
    match e
    case Comment(_) =>
    case Meta(_, _) => assert MetaTag != CommentTag;
    case Config(_, _) => assert EntryTag != CommentTag && EntryTag != MetaTag;
  }

  /** The two key namespaces sharing one entry list: configuration keys and metadata keys. */
  datatype Namespace = ConfigSpace | MetaSpace

  predicate InSpace(e: Entry, ns: Namespace) {
    match e
    case Comment(_) => false
    case Meta(_, _) => ns == MetaSpace
    case Config(_, _) => ns == ConfigSpace
  }

  /** `e` is an entry of namespace `ns` under key `key`. */
  predicate Keyed(e: Entry, ns: Namespace, key: string) {
    InSpace(e, ns) && e.key == key
  }

  /** The entry `add` (or `addMetadata`) pushes. */
  function Make(ns: Namespace, key: string, value: string): Entry {
    if ns == ConfigSpace then Config(key, value) else Meta(key, value)
  }

  // The filter predicates the source passes to `filter` and `find`.
  function KeyedIn(ns: Namespace, key: string): Entry -> bool {
    e => Keyed(e, ns, key)
  }

  function NotKeyedIn(ns: Namespace, key: string): Entry -> bool {
    e => !Keyed(e, ns, key)
  }

  function SpaceOf(ns: Namespace): Entry -> bool {
    e => InSpace(e, ns)
  }

  const IsComment: Entry -> bool := (e: Entry) => e.Comment?

  /** `es.filter(keep)`: the entries `keep` accepts, in their order. */
  function Filter(es: seq<Entry>, keep: Entry -> bool): (r: seq<Entry>)
    ensures |r| <= |es|
    ensures forall e :: e in r <==> e in es && keep(e)
    decreases |es|
  {
    if |es| == 0 then [] else (if keep(es[0]) then [es[0]] else []) + Filter(es[1..], keep)
  }

  /** `es.find(keep)` is the head of `es.filter(keep)`, or `undefined` when that is empty. */
  function Find(es: seq<Entry>, keep: Entry -> bool): (r: Option<Entry>)
    ensures r == if Filter(es, keep) == [] then None else Some(Filter(es, keep)[0])
    decreases |es|
  {
    if |es| == 0 then None
    else if keep(es[0]) then Some(es[0])
    else Find(es[1..], keep)
  }

  /** Filtering distributes over concatenation: order is kept. */
  lemma {:induction false} FilterAppend(a: seq<Entry>, b: seq<Entry>, keep: Entry -> bool)
    ensures Filter(a + b, keep) == Filter(a, keep) + Filter(b, keep)
    decreases |a|
  {
    if |a| == 0 {
      assert a + b == b;
    } else {
      assert (a + b)[0] == a[0];
      assert (a + b)[1..] == a[1..] + b;
      FilterAppend(a[1..], b, keep);
    }
  }

  /** A filter that accepts every entry keeps the whole list. */
  lemma {:induction false} FilterAll(es: seq<Entry>, keep: Entry -> bool)
    requires forall e :: e in es ==> keep(e)
    ensures Filter(es, keep) == es
    decreases |es|
  {
    if |es| > 0 {
      FilterAll(es[1..], keep);
      assert [es[0]] + es[1..] == es;
    }
  }

  /** A filter that rejects every entry keeps nothing. */
  lemma FilterNone(es: seq<Entry>, keep: Entry -> bool)
    requires forall e :: e in es ==> !keep(e)
    ensures Filter(es, keep) == []
  {
  }

  /** Filtering by `p` and then by a stronger `q` is filtering by `q`. */
  lemma {:induction false} FilterFilter(es: seq<Entry>, p: Entry -> bool, q: Entry -> bool)
    requires forall e :: q(e) ==> p(e)
    ensures Filter(Filter(es, p), q) == Filter(es, q)
    decreases |es|
  {
    if |es| > 0 {
      FilterFilter(es[1..], p, q);
      var head := if p(es[0]) then [es[0]] else [];
      FilterAppend(head, Filter(es[1..], p), q);
      if p(es[0]) {
        assert Filter(head, q) == (if q(es[0]) then [es[0]] else []) + Filter([], q);
      } else {
        assert head == [];
      }
    }
  }

  /** The values of a list of entries (`entries.map((entry) => entry.value)`). */
  function Values(es: seq<Entry>): seq<string> {
    seq(|es|, i requires 0 <= i < |es| => es[i].value)
  }

  /** The entries `set(key, ...values)` appends, one per value, in order. */
  function Added(ns: Namespace, key: string, values: seq<string>): seq<Entry> {
    seq(|values|, i requires 0 <= i < |values| => Make(ns, key, values[i]))
  }

  /** The entry list after `set(key, ...values)` (or `setMetadata`): every entry of `key`
      in `ns` removed, then one fresh entry per value appended at the end. */
  function Assign(es: seq<Entry>, ns: Namespace, key: string, values: seq<string>): seq<Entry> {
    Filter(es, NotKeyedIn(ns, key)) + Added(ns, key, values)
  }

  lemma AddedKeyed(ns: Namespace, key: string, values: seq<string>)
    ensures forall e :: e in Added(ns, key, values) ==> Keyed(e, ns, key)
  {
    forall e | e in Added(ns, key, values) ensures Keyed(e, ns, key) {
      var i :| 0 <= i < |values| && Added(ns, key, values)[i] == e;
    }
  }

  /** After `set(key, ...values)`, `get(key)` yields exactly `values` in order, and they
      are the last `|values|` entries of the section. */
  lemma AssignThenSelect(es: seq<Entry>, ns: Namespace, key: string, values: seq<string>)
    ensures Filter(Assign(es, ns, key, values), KeyedIn(ns, key)) == Added(ns, key, values)
    ensures Values(Added(ns, key, values)) == values
    ensures var r := Assign(es, ns, key, values);
      |r| >= |values| && r[|r| - |values|..] == Added(ns, key, values)
  {
    var kept := Filter(es, NotKeyedIn(ns, key));
    FilterAppend(kept, Added(ns, key, values), KeyedIn(ns, key));
    FilterNone(kept, KeyedIn(ns, key));
    AddedKeyed(ns, key, values);
    FilterAll(Added(ns, key, values), KeyedIn(ns, key));
  }

  /** `set` leaves every entry that is not of `key` in `ns` where it was, relative to the
      others: removing `key` from the result gives what removing it from the input gave. */
  lemma AssignKeepsRest(es: seq<Entry>, ns: Namespace, key: string, values: seq<string>)
    ensures Filter(Assign(es, ns, key, values), NotKeyedIn(ns, key)) == Filter(es, NotKeyedIn(ns, key))
  {
    var kept := Filter(es, NotKeyedIn(ns, key));
    FilterAppend(kept, Added(ns, key, values), NotKeyedIn(ns, key));
    FilterAll(kept, NotKeyedIn(ns, key));
    AddedKeyed(ns, key, values);
    FilterNone(Added(ns, key, values), NotKeyedIn(ns, key));
  }

  /** `set` of one key does not change what `get` returns for any other key, in either
      namespace. */
  lemma AssignOtherKey(es: seq<Entry>, ns: Namespace, key: string, values: seq<string>,
                       otherNs: Namespace, otherKey: string)
    requires otherNs != ns || otherKey != key
    ensures Filter(Assign(es, ns, key, values), KeyedIn(otherNs, otherKey))
         == Filter(es, KeyedIn(otherNs, otherKey))
  {
    var kept := Filter(es, NotKeyedIn(ns, key));
    FilterAppend(kept, Added(ns, key, values), KeyedIn(otherNs, otherKey));
    FilterFilter(es, NotKeyedIn(ns, key), KeyedIn(otherNs, otherKey));
    AddedKeyed(ns, key, values);
    FilterNone(Added(ns, key, values), KeyedIn(otherNs, otherKey));
  }

  /** Namespace separation: `setMetadata` never touches configuration entries, `set` never
      touches metadata, and neither touches comments. */
  lemma AssignOtherSpace(es: seq<Entry>, ns: Namespace, key: string, values: seq<string>,
                         otherNs: Namespace)
    requires otherNs != ns
    ensures Filter(Assign(es, ns, key, values), SpaceOf(otherNs)) == Filter(es, SpaceOf(otherNs))
    ensures Filter(Assign(es, ns, key, values), IsComment) == Filter(es, IsComment)
  {
    var kept := Filter(es, NotKeyedIn(ns, key));
    AddedKeyed(ns, key, values);
    FilterAppend(kept, Added(ns, key, values), SpaceOf(otherNs));
    FilterFilter(es, NotKeyedIn(ns, key), SpaceOf(otherNs));
    FilterNone(Added(ns, key, values), SpaceOf(otherNs));
    FilterAppend(kept, Added(ns, key, values), IsComment);
    FilterFilter(es, NotKeyedIn(ns, key), IsComment);
    FilterNone(Added(ns, key, values), IsComment);
  }

  /** `set(key)` with no values removes the key: `has(key)` becomes false. */
  lemma AssignNothingRemoves(es: seq<Entry>, ns: Namespace, key: string)
    ensures Find(Assign(es, ns, key, []), KeyedIn(ns, key)) == None
  {
    AssignThenSelect(es, ns, key, []);
  }

  /** `set(key, value)` makes `getOne(key)` the new entry. */
  lemma AssignOneThenFind(es: seq<Entry>, ns: Namespace, key: string, value: string)
    ensures Find(Assign(es, ns, key, [value]), KeyedIn(ns, key)) == Some(Make(ns, key, value))
  {
    AssignThenSelect(es, ns, key, [value]);
  }

  /** `add(key, value)` appends to what `get(key)` returns and leaves every other key's
      entries alone: repeated keys come back in insertion order. */
  lemma AddThenSelect(es: seq<Entry>, ns: Namespace, key: string, value: string,
                      otherNs: Namespace, otherKey: string)
    ensures Filter(es + [Make(ns, key, value)], KeyedIn(ns, key))
         == Filter(es, KeyedIn(ns, key)) + [Make(ns, key, value)]
    ensures otherNs != ns || otherKey != key ==>
      Filter(es + [Make(ns, key, value)], KeyedIn(otherNs, otherKey)) == Filter(es, KeyedIn(otherNs, otherKey))
  {
    var added := Make(ns, key, value);
    FilterAppend(es, [added], KeyedIn(ns, key));
    FilterAppend(es, [added], KeyedIn(otherNs, otherKey));
    assert Filter([added], KeyedIn(ns, key)) == [added] + Filter([], KeyedIn(ns, key));
    if otherNs != ns || otherKey != key {
      assert Filter([added], KeyedIn(otherNs, otherKey)) == Filter([], KeyedIn(otherNs, otherKey));
    }
  }

  /** `addComment(text)`: text that starts with `!` and contains `=` is a metadata pair,
      split at its first `=` into a trimmed key (without the `!`) and a trimmed value;
      any other text is a comment kept verbatim. */
  function DecodeComment(text: string): (r: Entry)
    ensures r.Meta? <==> |text| > 0 && text[0] == '!' && '=' in text
    ensures !r.Meta? ==> r == Comment(text)
    ensures r.Meta? ==> IsTrimmed(r.key) && IsTrimmed(r.value) && '=' !in r.key
  {
    if |text| > 0 && text[0] == '!' && '=' in text then
      var eq := IndexOf(text, '=');
      var key := Trim(text[1..eq]);
      var value := Trim(text[eq + 1..]);
      TrimIsTrimmed(text[1..eq]);
      TrimIsTrimmed(text[eq + 1..]);
      assert '=' !in text[1..eq] by {
        forall j | 0 <= j < eq - 1 ensures text[1..eq][j] != '=' {
          assert text[1..eq][j] == text[..eq][j + 1];
        }
      }
      TrimKeepsAbsence(text[1..eq], '=');
      Meta(key, value)
    else
      Comment(text)
  }

  /** Any comment text `!k=v`, whatever its spacing, decodes by its first `=`: the key
      is the trimmed text between the `!` and that `=`, the value the trimmed rest. */
  lemma DecodeMetaAt(text: string, eq: nat)
    requires 0 < eq < |text| && text[0] == '!' && text[eq] == '=' && '=' !in text[..eq]
    ensures DecodeComment(text) == Meta(Trim(text[1..eq]), Trim(text[eq + 1..]))
  {
    IndexOfUnique(text, '=', eq);
  }

  /** The text of a metadata line `#!key = value` (after its `#`), whatever whitespace
      follows the `=`, decodes to the metadata pair again. */
  lemma DecodeMetaText(key: string, value: string, tail: string)
    requires IsTrimmed(key) && '=' !in key
    requires Trim(tail) == value
    ensures DecodeComment("!" + key + " =" + tail) == Meta(key, value)
  {
    var text := "!" + key + " =" + tail;
    var eq := |key| + 2;
    MetaTextParts(key, tail);
    DecodeMetaAt(text, eq);
    TrimPaddedRight(key);
  }

  /** Where the parts of a metadata text sit: the key between the `!` and the padding, the
      first `=` right after it. */
  lemma MetaTextParts(key: string, tail: string)
    requires '=' !in key
    ensures var text := "!" + key + " =" + tail;
      var eq := |key| + 2;
      eq < |text| && text[0] == '!' && text[eq] == '=' && '=' !in text[..eq]
      && text[1..eq] == key + " " && text[eq + 1..] == tail
  {
    var text := "!" + key + " =" + tail;
    var eq := |key| + 2;
    assert text[..eq] == "!" + key + " ";
    assert text[1..eq] == key + " ";
    assert text[eq + 1..] == tail;
  }

  /** The line a serialised entry occupies. */
  function EntryLine(e: Entry): string {
    match e
    case Comment(text) => "#" + text
    case Meta(k, v) => "#!" + k + " = " + v
    case Config(k, v) => k + " = " + v
  }

  function EntryLines(es: seq<Entry>): seq<string> {
    seq(|es|, i requires 0 <= i < |es| => EntryLine(es[i]))
  }

  /** The header line: a missing name renders as `null`, as a template literal does. */
  function HeaderLine(name: Option<string>): string {
    "[" + (if name.Some? then name.value else "null") + "]"
  }

  /** The value of a section: its name (absent for a leading block before any header) and
      its entries in order. */
  datatype SectionValue = SectionValue(name: Option<string>, entries: seq<Entry>)

  /** `IniSection.toLines()` as a value: the header, then one line per entry. */
  function SectionLines(s: SectionValue): seq<string> {
    [HeaderLine(s.name)] + EntryLines(s.entries)
  }

  /** A grouping of entries by key (the `group` helper of `toJson`): a key is present exactly
      when some entry of `ns` has it, and maps to all of that key's entries in order. */
  ghost predicate IsGrouping(groups: map<string, seq<Entry>>, es: seq<Entry>, ns: Namespace) {
    groups.Keys == KeysIn(es, ns)
    && forall k :: k in groups ==> groups[k] == Filter(es, KeyedIn(ns, k))
  }

  /** The keys the entries of `ns` use. */
  ghost function KeysIn(es: seq<Entry>, ns: Namespace): set<string> {
    set e | e in es && InSpace(e, ns) :: e.key
  }

  /** The object `toJson` returns. */
  datatype SectionJson = SectionJson(entries: map<string, seq<Entry>>, comments: seq<Entry>,
                                     metadata: map<string, seq<Entry>>)

  ghost predicate IsJsonOf(json: SectionJson, es: seq<Entry>) {
    IsGrouping(json.entries, es, ConfigSpace)
    && json.comments == Filter(es, IsComment)
    && IsGrouping(json.metadata, es, MetaSpace)
  }

  /** The properties every plain JavaScript object inherits from `Object.prototype`. On
      such a key `group`'s `res[key] ?? []` finds the inherited function or object instead
      of `undefined`, and the `push` that follows throws a `TypeError`. */
  const InheritedKeys: set<string> := {
    "constructor", "hasOwnProperty", "isPrototypeOf", "propertyIsEnumerable",
    "toLocaleString", "toString", "valueOf", "__proto__",
    "__defineGetter__", "__defineSetter__", "__lookupGetter__", "__lookupSetter__"
  }

  /** Why `toJson` throws: an entry key that names an inherited property. */
  datatype JsonError = InheritedKey(key: string)

  /** No keyed item before position `n` has an inherited key. */
  predicate ClearBefore(items: seq<Entry>, n: nat)
    requires n <= |items|
  {
    forall j :: 0 <= j < n ==> items[j].Comment? || items[j].key !in InheritedKeys
  }

  /** An inherited key at `i` means the whole list is not clear. */
  lemma Unclear(items: seq<Entry>, i: nat)
    requires i < |items| && !items[i].Comment? && items[i].key in InheritedKeys
    ensures !ClearBefore(items, |items|)
  {
  }

  lemma ClearExtend(items: seq<Entry>, i: nat)
    requires i < |items| && ClearBefore(items, i)
    requires !items[i].Comment? && items[i].key !in InheritedKeys
    ensures ClearBefore(items, i + 1)
  {
  }

  /** The object `group` builds from keyed items, one push at a time. */
  ghost function GroupOf(items: seq<Entry>, ns: Namespace): map<string, seq<Entry>>
    requires forall i :: 0 <= i < |items| ==> InSpace(items[i], ns)
    decreases |items|
  {
    if |items| == 0 then map[]
    else
      var groups := GroupOf(items[..|items| - 1], ns);
      var item := items[|items| - 1];
      assert InSpace(item, ns);
      groups[item.key := (if item.key in groups then groups[item.key] else []) + [item]]
  }

  /** Pushing every item of a namespace onto its key's list groups the items by key. */
  lemma {:induction false} GroupOfGroups(items: seq<Entry>, ns: Namespace)
    requires forall i :: 0 <= i < |items| ==> InSpace(items[i], ns)
    ensures IsGrouping(GroupOf(items, ns), items, ns)
    decreases |items|
  {
    if |items| == 0 {
      GroupStart(items, ns);
      assert items[..0] == items;
    } else {
      var front := items[..|items| - 1];
      GroupOfGroups(front, ns);
      GroupStep(GroupOf(front, ns), front, items[|items| - 1], ns);
      assert front + [items[|items| - 1]] == items;
    }
  }

  /** `group(collection, (entry) => entry.key)` over entries of one namespace: it throws
      (`error` is set) at the first item whose key is inherited, and otherwise groups every
      item by key. */
  method Group(items: seq<Entry>, ns: Namespace) returns (groups: map<string, seq<Entry>>, error: Option<JsonError>)
    requires forall i :: 0 <= i < |items| ==> InSpace(items[i], ns)
    ensures error.None? <==> ClearBefore(items, |items|)
    ensures error.None? ==> IsGrouping(groups, items, ns)
    ensures error.Some? ==> exists i :: 0 <= i < |items| && ClearBefore(items, i) && !items[i].Comment?
                                      && items[i].key == error.value.key && error.value.key in InheritedKeys
  {
    groups := map[];
    var i := 0;
    while i < |items| && items[i].key !in InheritedKeys
      invariant 0 <= i <= |items|
      invariant groups == GroupOf(items[..i], ns)
      invariant ClearBefore(items, i)
    {
      var item := items[i];
      ClearExtend(items, i);
      assert items[..i + 1][..i] == items[..i];
      groups := groups[item.key := (if item.key in groups then groups[item.key] else []) + [item]];
      i := i + 1;
    }
    if i < |items| {
      Unclear(items, i);
      assert ClearBefore(items, i) && !items[i].Comment? && items[i].key in InheritedKeys;
      return groups, Some(InheritedKey(items[i].key));
    }
    assert items[..|items|] == items;
    GroupOfGroups(items, ns);
    return groups, None;
  }

  lemma GroupStart(items: seq<Entry>, ns: Namespace)
    ensures IsGrouping(map[], items[..0], ns)
  {
    assert items[..0] == [];
  }

  /** One step of `group`: pushing an item onto its key's list groups one more item. */
  lemma GroupStep(groups: map<string, seq<Entry>>, done: seq<Entry>, item: Entry, ns: Namespace)
    requires IsGrouping(groups, done, ns) && InSpace(item, ns)
    ensures IsGrouping(groups[item.key := (if item.key in groups then groups[item.key] else []) + [item]],
                       done + [item], ns)
  {
    var after := groups[item.key := (if item.key in groups then groups[item.key] else []) + [item]];
    GroupStepKeys(groups, done, item, ns);
    GroupStepLists(groups, done, item, ns);
  }

  /** Pushing an item adds its key to the keys of the grouping. */
  lemma GroupStepKeys(groups: map<string, seq<Entry>>, done: seq<Entry>, item: Entry, ns: Namespace)
    requires groups.Keys == KeysIn(done, ns) && InSpace(item, ns)
    ensures groups[item.key := (if item.key in groups then groups[item.key] else []) + [item]].Keys
            == KeysIn(done + [item], ns)
  {
    KeysInSnoc(done, item, ns);
  }

  /** Pushing an item keeps every key's list the filter of the entries seen so far. */
  lemma GroupStepLists(groups: map<string, seq<Entry>>, done: seq<Entry>, item: Entry, ns: Namespace)
    requires IsGrouping(groups, done, ns) && InSpace(item, ns)
    ensures var after := groups[item.key := (if item.key in groups then groups[item.key] else []) + [item]];
            forall k :: k in after ==> after[k] == Filter(done + [item], KeyedIn(ns, k))
  {
    var after := groups[item.key := (if item.key in groups then groups[item.key] else []) + [item]];
    forall k | k in after ensures after[k] == Filter(done + [item], KeyedIn(ns, k)) {
      GroupStepAt(groups, done, item, ns, k);
    }
  }

  /** The list one key maps to after pushing an item. */
  lemma GroupStepAt(groups: map<string, seq<Entry>>, done: seq<Entry>, item: Entry, ns: Namespace, k: string)
    requires IsGrouping(groups, done, ns) && InSpace(item, ns)
    requires k in groups[item.key := (if item.key in groups then groups[item.key] else []) + [item]]
    ensures groups[item.key := (if item.key in groups then groups[item.key] else []) + [item]][k]
            == Filter(done + [item], KeyedIn(ns, k))
  {
    FilterSnoc(done, item, KeyedIn(ns, k));
    if k == item.key {
      assert KeyedIn(ns, k)(item);
      if k !in groups {
        KeysInAbsent(done, ns, k);
      }
    } else {
      assert !KeyedIn(ns, k)(item);
    }
  }

  lemma KeysInSnoc(done: seq<Entry>, item: Entry, ns: Namespace)
    requires InSpace(item, ns)
    ensures KeysIn(done + [item], ns) == KeysIn(done, ns) + {item.key}
  {
  }

  lemma KeysInAbsent(es: seq<Entry>, ns: Namespace, key: string)
    requires key !in KeysIn(es, ns)
    ensures Filter(es, KeyedIn(ns, key)) == []
  {
    forall e | e in es ensures !KeyedIn(ns, key)(e) {
      if InSpace(e, ns) {
        assert e.key in KeysIn(es, ns);
      }
    }
    FilterNone(es, KeyedIn(ns, key));
  }

  lemma FilterSnoc(es: seq<Entry>, item: Entry, keep: Entry -> bool)
    ensures Filter(es + [item], keep) == Filter(es, keep) + (if keep(item) then [item] else [])
  {
    FilterAppend(es, [item], keep);
    assert Filter([item], keep) == (if keep(item) then [item] else []) + Filter([], keep);
  }

  /** `IniSection`: a named, ordered list of entries, updated in place. */
  class Section {
    var name: Option<string>
    var entries: seq<Entry>

    /** `new IniSection(sectionName)`: a named section without entries. */
    constructor (name: Option<string>)
      ensures GetName() == name && entries == []
    {
      this.name := name;
      entries := [];
    }

    function Value(): SectionValue
      reads this
    {
      SectionValue(name, entries)
    }

    function GetName(): Option<string>
      reads this
    {
      name
    }

    /** `setName(name)`: `getName()` then returns the new name; the entries stay. */
    method SetName(name: Option<string>)
      modifies this
      ensures GetName() == name && entries == old(entries)
    {
      this.name := name;
    }

    /** `get(key)`: the configuration entries of `key`, in order. */
    function Get(key: string): (r: seq<Entry>)
      reads this
      ensures forall e :: e in r <==> e in entries && e.Config? && e.key == key
    {
      Filter(entries, KeyedIn(ConfigSpace, key))
    }

    /** `getOne(key)`: the first configuration entry of `key`. */
    function GetOne(key: string): (r: Option<Entry>)
      reads this
      ensures r == if Get(key) == [] then None else Some(Get(key)[0])
      ensures r.Some? ==> r.value in entries && r.value.Config? && r.value.key == key
    {
      Find(entries, KeyedIn(ConfigSpace, key))
    }

    /** `has(key)`: some configuration entry has `key`. */
    predicate Has(key: string)
      reads this
      ensures Has(key) <==> exists v :: Config(key, v) in entries
    {
      GetOne(key).Some?
    }

    /** `add(key, value)`: a configuration entry pushed at the end. */
    method Add(key: string, value: string)
      modifies this
      ensures name == old(name) && entries == old(entries) + [Config(key, value)]
    {
      entries := entries + [Config(key, value)];
    }

    /** `set(key, ...values)`: every entry of `key` removed, then one per value appended. */
    method Set(key: string, values: seq<string>)
      modifies this
      ensures name == old(name) && entries == Assign(old(entries), ConfigSpace, key, values)
    {
      entries := Filter(entries, NotKeyedIn(ConfigSpace, key));
      for i := 0 to |values|
        invariant name == old(name)
        invariant entries == Filter(old(entries), NotKeyedIn(ConfigSpace, key)) + Added(ConfigSpace, key, values[..i])
      {
        assert Added(ConfigSpace, key, values[..i + 1]) == Added(ConfigSpace, key, values[..i]) + [Config(key, values[i])];
        Add(key, values[i]);
      }
      assert values[..|values|] == values;
    }

    /** `getMetadata(key)`: the metadata entries of `key`, in order. */
    function GetMetadata(key: string): (r: seq<Entry>)
      reads this
      ensures forall e :: e in r <==> e in entries && e.Meta? && e.key == key
    {
      Filter(entries, KeyedIn(MetaSpace, key))
    }

    /** `getOneMetadata(key)`: the first metadata entry of `key`. */
    function GetOneMetadata(key: string): (r: Option<Entry>)
      reads this
      ensures r == if GetMetadata(key) == [] then None else Some(GetMetadata(key)[0])
      ensures r.Some? ==> r.value in entries && r.value.Meta? && r.value.key == key
    {
      Find(entries, KeyedIn(MetaSpace, key))
    }

    /** `addMetadata(key, value)`: a metadata entry pushed at the end. */
    method AddMetadata(key: string, value: string)
      modifies this
      ensures name == old(name) && entries == old(entries) + [Meta(key, value)]
    {
      entries := entries + [Meta(key, value)];
    }

    /** `setMetadata(key, ...values)`: `set` over the metadata namespace. */
    method SetMetadata(key: string, values: seq<string>)
      modifies this
      ensures name == old(name) && entries == Assign(old(entries), MetaSpace, key, values)
    {
      entries := Filter(entries, NotKeyedIn(MetaSpace, key));
      for i := 0 to |values|
        invariant name == old(name)
        invariant entries == Filter(old(entries), NotKeyedIn(MetaSpace, key)) + Added(MetaSpace, key, values[..i])
      {
        assert Added(MetaSpace, key, values[..i + 1]) == Added(MetaSpace, key, values[..i]) + [Meta(key, values[i])];
        AddMetadata(key, values[i]);
      }
      assert values[..|values|] == values;
    }

    /** `addComment(text)`: the decoded comment or metadata entry pushed at the end. */
    method AddComment(text: string)
      modifies this
      ensures name == old(name) && entries == old(entries) + [DecodeComment(text)]
    {
      entries := entries + [DecodeComment(text)];
    }

    /** `getComments()`: the comment entries, in order. */
    function GetComments(): (r: seq<Entry>)
      reads this
      ensures forall e :: e in r <==> e in entries && e.Comment?
    {
      Filter(entries, IsComment)
    }

    /** `isEmpty()`. The source tests `this.name`, a field that is never assigned (the name
        lives in `sectionName`), so only the entries decide. */
    predicate IsEmpty()
      reads this
      ensures IsEmpty() <==> GetComments() == [] && forall k :: !Has(k) && GetMetadata(k) == []
    {
      assert |entries| > 0 ==> entries[0] in entries && match entries[0]
        case Comment(_) => entries[0] in GetComments()
        case Config(k, _) => Has(k)
        case Meta(k, _) => entries[0] in GetMetadata(k);
      |entries| == 0
    }

    /** `toLines()`: the header line, then one line per entry in order. */
    method ToLines() returns (lines: seq<string>)
      ensures lines == SectionLines(Value())
    {
      lines := [HeaderLine(name)];
      for i := 0 to |entries|
        invariant lines == [HeaderLine(name)] + EntryLines(entries[..i])
      {
        lines := lines + [EntryLine(entries[i])];
      }
      assert entries[..|entries|] == entries;
    }

    /** `toJson()`: configuration entries grouped by key, the comments, and metadata
        entries grouped by key; `entries[k]` is what `get(k)` returns. It throws when a
        configuration or metadata key is an inherited property name. */
    method ToJson() returns (r: Result<SectionJson, JsonError>)
      ensures r.Success? <==> forall e :: e in entries && !e.Comment? ==> e.key !in InheritedKeys
      ensures r.Success? ==> IsJsonOf(r.value, entries)
      ensures r.Failure? ==> r.error.key in InheritedKeys
                             && exists e :: e in entries && !e.Comment? && e.key == r.error.key
    {
      var configs := Filter(entries, SpaceOf(ConfigSpace));
      assert forall i :: 0 <= i < |configs| ==> configs[i] in configs;
      var grouped, configError := Group(configs, ConfigSpace);
      if configError.Some? {
        var i :| 0 <= i < |configs| && configs[i].key == configError.value.key;
        assert configs[i] in entries;
        return Failure(configError.value);
      }
      var metas := Filter(entries, SpaceOf(MetaSpace));
      assert forall i :: 0 <= i < |metas| ==> metas[i] in metas;
      var metaGrouped, metaError := Group(metas, MetaSpace);
      if metaError.Some? {
        var i :| 0 <= i < |metas| && metas[i].key == metaError.value.key;
        assert metas[i] in entries;
        return Failure(metaError.value);
      }
      ClearKeys(entries, configs, metas);
      r := Success(SectionJson(grouped, Filter(entries, IsComment), metaGrouped));
      GroupingOfSpace(entries, ConfigSpace, grouped);
      GroupingOfSpace(entries, MetaSpace, metaGrouped);
    }
  }

  /** With neither namespace holding an inherited key, no keyed entry does. */
  lemma ClearKeys(es: seq<Entry>, configs: seq<Entry>, metas: seq<Entry>)
    requires configs == Filter(es, SpaceOf(ConfigSpace)) && metas == Filter(es, SpaceOf(MetaSpace))
    requires ClearBefore(configs, |configs|) && ClearBefore(metas, |metas|)
    ensures forall e :: e in es && !e.Comment? ==> e.key !in InheritedKeys
  {
    forall e | e in es && !e.Comment? ensures e.key !in InheritedKeys {
      if e.Config? {
        assert e in configs;
      } else {
        assert e in metas;
      }
    }
  }

  /** Grouping the entries of one namespace is grouping the whole list by that namespace. */
  lemma GroupingOfSpace(es: seq<Entry>, ns: Namespace, groups: map<string, seq<Entry>>)
    requires IsGrouping(groups, Filter(es, SpaceOf(ns)), ns)
    ensures IsGrouping(groups, es, ns)
  {
    forall k ensures Filter(Filter(es, SpaceOf(ns)), KeyedIn(ns, k)) == Filter(es, KeyedIn(ns, k)) {
      FilterFilter(es, SpaceOf(ns), KeyedIn(ns, k));
    }
  }

  /** `IniSection.commaSeparated(values)`: the items joined by commas, which split back
      into exactly those items when none holds a comma; no items make the empty string. */
  function CommaSeparated(values: seq<string>): (r: string)
    ensures |values| >= 1 && (forall i :: 0 <= i < |values| ==> ',' !in values[i]) ==>
      Split(r, ',') == values
    ensures values == [] ==> r == ""
  {
    CommaJoinSplits(values);
    Join(values, ',')
  }

  /** Comma-free items joined by commas split back into those items. */
  lemma CommaJoinSplits(values: seq<string>)
    ensures |values| >= 1 && (forall i :: 0 <= i < |values| ==> ',' !in values[i]) ==>
      Split(Join(values, ','), ',') == values
  {
    if |values| >= 1 && (forall i :: 0 <= i < |values| ==> ',' !in values[i]) {
      SplitJoin(values, ',');
    }
  }

  /** `IniSection.unCommaSeparated(value)`: split at every comma, each piece trimmed. It
      returns at least one piece, each trimmed and free of commas, and a value without a
      comma is one piece. */
  function UnCommaSeparated(value: string): (r: seq<string>)
    ensures |r| >= 1
    ensures forall i :: 0 <= i < |r| ==> IsTrimmed(r[i]) && ',' !in r[i]
    ensures ',' !in value ==> r == [Trim(value)]
  {
    var parts := Split(value, ',');
    TrimmedPieces(parts);
    CommaFreeSplit(value);
    seq(|parts|, i requires 0 <= i < |parts| => Trim(parts[i]))
  }

  /** A value without a comma splits into itself alone. */
  lemma CommaFreeSplit(value: string)
    ensures ',' !in value ==> Split(value, ',') == [value]
  {
    if ',' !in value {
      SplitWithout(value, ',');
    }
  }

  /** Comma-free pieces stay comma-free once trimmed. */
  lemma TrimmedPieces(parts: seq<string>)
    requires forall i :: 0 <= i < |parts| ==> ',' !in parts[i]
    ensures forall i :: 0 <= i < |parts| ==> IsTrimmed(Trim(parts[i])) && ',' !in Trim(parts[i])
  {
    forall i | 0 <= i < |parts|
      ensures IsTrimmed(Trim(parts[i])) && ',' !in Trim(parts[i])
    {
      TrimIsTrimmed(parts[i]);
      TrimKeepsAbsence(parts[i], ',');
    }
  }

  /** A non-empty list of trimmed, comma-free items survives `commaSeparated` followed by
      `unCommaSeparated`. */
  lemma CommaRoundTrip(values: seq<string>)
    requires |values| >= 1
    requires forall i :: 0 <= i < |values| ==> IsTrimmed(values[i]) && ',' !in values[i]
    ensures UnCommaSeparated(CommaSeparated(values)) == values
  {
    SplitJoin(values, ',');
    forall i | 0 <= i < |values| ensures Trim(values[i]) == values[i] {
      TrimIsTrimmed(values[i]);
    }
  }

  /** An empty list does not survive: it is written as an empty string, which reads back as
      one empty item. */
  lemma CommaEmptyList()
    ensures UnCommaSeparated(CommaSeparated([])) == [""]
  {
    assert Split("", ',') == [""];
  }

  /** Reading a comma list, writing it and reading it again gives the first reading. */
  lemma UnCommaIdempotent(value: string)
    ensures UnCommaSeparated(CommaSeparated(UnCommaSeparated(value))) == UnCommaSeparated(value)
  {
    CommaRoundTrip(UnCommaSeparated(value));
  }
}
