/** The text of a WireGuard configuration file as `WireGuardConfig` in
    server/src/WireGuardConfig.js reads and writes it: how the line scanner of
    `parseSections` classifies one line, the sections it produces, the lines `toLines`
    writes, and the round trip between the two. */
module ConfigText {
  import opened Wrappers
  import opened JsString
  import opened Ini

  /** What one raw line is, once trimmed. */
  datatype LineKind =
    | Blank
    | CommentLine(text: string)
    | Header(name: string)
    | Setting(key: string, value: string)
    | Malformed(line: string)

  /** The scanner's decision for one raw line: trimmed first; blank lines are skipped; a
      leading `#` makes a comment whose text follows the `#`; `[` ... `]` is a header;
      anything else must hold an `=`, and splits at the first one into a trimmed key and
      a trimmed value. */
  function Classify(raw: string): (k: LineKind)
    ensures k.Blank? <==> Trim(raw) == ""
    ensures k.CommentLine? ==> Trim(raw) == "#" + k.text
    ensures k.Header? ==> Trim(raw) == HeaderLine(Some(k.name))
    ensures k.Setting? ==> IsTrimmed(k.key) && IsTrimmed(k.value) && '=' !in k.key
    ensures k.Malformed? ==> k.line == Trim(raw) && '=' !in k.line
  {
    var line := Trim(raw);
    if |line| == 0 then Blank
    else if line[0] == '#' then
      assert line == "#" + line[1..];
      CommentLine(line[1..])
    else if line[0] == '[' && line[|line| - 1] == ']' then
      assert line == "[" + line[1..|line| - 1] + "]";
      Header(line[1..|line| - 1])
    else if '=' !in line then Malformed(line)
    else
      var eq := IndexOf(line, '=');
      TrimIsTrimmed(line[..eq]);
      TrimIsTrimmed(line[eq + 1..]);
      TrimKeepsAbsence(line[..eq], '=');
      Setting(Trim(line[..eq]), Trim(line[eq + 1..]))
  }

  /** The error `parseSections` throws: the 0-based index of the offending line, and the
      line as trimmed. */
  datatype ParseError = InvalidLine(index: nat, line: string)

  /** The entry a comment or setting line adds to the current section. */
  function LineEntry(k: LineKind): Entry
    requires k.CommentLine? || k.Setting?
  {
    if k.CommentLine? then DecodeComment(k.text) else Config(k.key, k.value)
  }

  /** Ending the current section: it is kept unless `isEmpty()` holds, and `isEmpty()`
      only looks at the entries (see `Ini.Section.IsEmpty`). */
  function Close(done: seq<SectionValue>, cur: SectionValue): seq<SectionValue> {
    if |cur.entries| == 0 then done else done + [cur]
  }

  /** The decision for every line of a file, in order. */
  function Kinds(lines: seq<string>): (r: seq<LineKind>)
    ensures |r| == |lines|
  {
    if |lines| == 0 then [] else Kinds(lines[..|lines| - 1]) + [Classify(lines[|lines| - 1])]
  }

  /** Every line is decided on its own: the decision at `i` is that of line `i`. */
  lemma {:induction false} KindsAt(lines: seq<string>, i: nat)
    requires i < |lines|
    ensures Kinds(lines)[i] == Classify(lines[i])
    decreases |lines|
  {
    if i < |lines| - 1 {
      KindsAt(lines[..|lines| - 1], i);
    }
  }

  lemma KindsAll(lines: seq<string>)
    ensures forall j :: 0 <= j < |lines| ==> Kinds(lines)[j] == Classify(lines[j])
  {
    forall j | 0 <= j < |lines| {
      KindsAt(lines, j);
    }
  }

  lemma {:induction false} KindsAppend(a: seq<string>, b: seq<string>)
    ensures Kinds(a + b) == Kinds(a) + Kinds(b)
    decreases |b|
  {
    if |b| == 0 {
      assert a + b == a;
    } else {
      var front := b[..|b| - 1];
      assert (a + b)[..|a + b| - 1] == a + front;
      KindsAppend(a, front);
    }
  }

  /** `e` reports the first malformed line at or after `from`. */
  predicate IsFirstMalformed(kinds: seq<LineKind>, from: nat, e: ParseError) {
    from <= e.index < |kinds| && kinds[e.index] == Malformed(e.line)
    && forall j :: from <= j < e.index ==> !kinds[j].Malformed?
  }

  /** `ss` is `done` followed by sections that hold at least one entry each. */
  predicate Extends(ss: seq<SectionValue>, done: seq<SectionValue>) {
    |ss| >= |done| && ss[..|done|] == done
    && forall j :: |done| <= j < |ss| ==> |ss[j].entries| > 0
  }

  /** The scan of `parseSections` from line `i` on, over the decisions for the lines, with
      the current section `cur` and the sections `done` already pushed. */
  function ScanAt(kinds: seq<LineKind>, i: nat, cur: SectionValue, done: seq<SectionValue>)
    : Result<seq<SectionValue>, ParseError>
    requires i <= |kinds|
    decreases |kinds| - i
  {
    if i == |kinds| then Success(Close(done, cur))
    else
      match kinds[i]
      case Blank => ScanAt(kinds, i + 1, cur, done)
      case Header(n) => ScanAt(kinds, i + 1, SectionValue(Some(n), []), Close(done, cur))
      case Malformed(line) => Failure(InvalidLine(i, line))
      case _ => ScanAt(kinds, i + 1, SectionValue(cur.name, cur.entries + [LineEntry(kinds[i])]), done)
  }

  /** The scan fails at the first malformed line, and only then; otherwise it only appends
      non-empty sections to those already pushed. */
  lemma {:induction false} ScanOutcome(kinds: seq<LineKind>, i: nat, cur: SectionValue,
                                       done: seq<SectionValue>)
    requires i <= |kinds|
    ensures var r := ScanAt(kinds, i, cur, done);
      (r.Success? <==> forall j :: i <= j < |kinds| ==> !kinds[j].Malformed?)
      && (r.Failure? ==> IsFirstMalformed(kinds, i, r.error))
      && (r.Success? ==> Extends(r.value, done))
    decreases |kinds| - i
  {
    if i < |kinds| {
      match kinds[i]
      case Blank => ScanOutcome(kinds, i + 1, cur, done);
      case Header(n) =>
        ScanOutcome(kinds, i + 1, SectionValue(Some(n), []), Close(done, cur));
        var r := ScanAt(kinds, i + 1, SectionValue(Some(n), []), Close(done, cur));
        if r.Success? {
          assert r.value[..|done|] == Close(done, cur)[..|done|];
        }
      case Malformed(line) =>
      case _ =>
        ScanOutcome(kinds, i + 1, SectionValue(cur.name, cur.entries + [LineEntry(kinds[i])]), done);
    }
  }

  /** `parseSections` over the lines of a file: fails exactly when some line is malformed,
      naming the first one and giving it trimmed; otherwise no section it returns is empty,
      named or not. */
  function ParseLines(lines: seq<string>): (r: Result<seq<SectionValue>, ParseError>)
    ensures r.Success? <==> forall j :: 0 <= j < |lines| ==> !Classify(lines[j]).Malformed?
    ensures r.Failure? ==>
      var i := r.error.index;
      i < |lines| && Classify(lines[i]).Malformed? && r.error.line == Trim(lines[i])
      && forall j :: 0 <= j < i ==> !Classify(lines[j]).Malformed?
    ensures r.Success? ==> forall s :: s in r.value ==> |s.entries| > 0
  {
    var kinds := Kinds(lines);
    KindsAll(lines);
    ScanOutcome(kinds, 0, SectionValue(None, []), []);
    ScanAt(kinds, 0, SectionValue(None, []), [])
  }

  /** `readFile()`: the file's text split at every newline. */
  function ReadLines(contents: string): seq<string> {
    Split(contents, '\n')
  }

  /** Reading and scanning a file's text. */
  function Load(contents: string): Result<seq<SectionValue>, ParseError> {
    ParseLines(ReadLines(contents))
  }

  /** The lines of each section, each followed by an empty line. */
  function SectionsLines(ss: seq<SectionValue>): seq<string> {
    if |ss| == 0 then [] else SectionsLines(ss[..|ss| - 1]) + SectionLines(ss[|ss| - 1]) + [""]
  }

  /** `WireGuardConfig.toLines()` as a value: every section's lines and an empty line
      after each, then one more empty line. */
  function DocumentLines(ss: seq<SectionValue>): seq<string> {
    SectionsLines(ss) + [""]
  }

  /** The text `save()` writes: the document's lines joined with newlines. */
  function SaveText(ss: seq<SectionValue>): string {
    Join(DocumentLines(ss), '\n')
  }

  /** An entry whose line reads back as the same entry. */
  predicate WellFormedEntry(e: Entry) {
    match e
    case Comment(t) =>
      '\n' !in t && (|t| == 0 || !IsWhitespace(t[|t| - 1]))
      && !(|t| > 0 && t[0] == '!' && '=' in t)
    case Meta(k, v) =>
      '\n' !in k && '\n' !in v && IsTrimmed(k) && IsTrimmed(v) && '=' !in k
    case Config(k, v) =>
      '\n' !in k && '\n' !in v && IsTrimmed(k) && IsTrimmed(v) && '=' !in k
      && (|k| > 0 ==> k[0] != '#')
      && !(|k| > 0 && k[0] == '[' && |v| > 0 && v[|v| - 1] == ']')
  }

  /** A section whose lines read back as one section: writable, with at least one entry. */
  predicate WellFormedSection(s: SectionValue) {
    Writable(s) && |s.entries| > 0
  }

  /** A section whose lines read back line by line: a name without newlines (if any) and
      well-formed entries. */
  predicate Writable(s: SectionValue) {
    (s.name.Some? ==> '\n' !in s.name.value)
    && forall e :: e in s.entries ==> WellFormedEntry(e)
  }

  /** A section as it reads back: a missing name was written as `[null]`. */
  function Reloaded(s: SectionValue): SectionValue {
    SectionValue(Some(if s.name.Some? then s.name.value else "null"), s.entries)
  }

  function AllReloaded(ss: seq<SectionValue>): seq<SectionValue> {
    seq(|ss|, i requires 0 <= i < |ss| => Reloaded(ss[i]))
  }

  // Trimming the line `k = v`.

  function Head(k: string): string {
    if k == "" then "" else k + " "
  }

  function Tail(v: string): string {
    if v == "" then "" else " " + v
  }

  /** The leading part of the line `k = v` that `trim` keeps: all of it, or, for an empty
      key, everything after the first space. */
  lemma TrimStartPair(k: string, v: string)
    requires IsTrimmed(k)
    ensures TrimStart(k + " = " + v) == Head(k) + "= " + v
  {
    var s := k + " = " + v;
    var rest := Head(k) + "= " + v;
    if k == "" {
      assert s[1..] == rest;
      TrimStartKeeps(rest);
    } else {
      assert s == rest;
      TrimStartKeeps(s);
    }
  }

  lemma TrimEndPair(m: string, v: string)
    requires |m| > 0 && !IsWhitespace(m[|m| - 1]) && IsTrimmed(v)
    ensures TrimEnd(m + " " + v) == m + Tail(v)
  {
    if v == "" {
      assert m + " " + v == m + " ";
      TrimEndDropsSpace(m);
      TrimEndKeeps(m);
    } else {
      assert m + " " + v == m + Tail(v);
      TrimEndKeeps(m + Tail(v));
    }
  }

  /** The line `k = v` trims to `k =` followed by ` v`, without the spaces around `=` that
      have nothing on their other side. */
  lemma TrimPair(k: string, v: string)
    requires IsTrimmed(k) && IsTrimmed(v)
    ensures Trim(k + " = " + v) == Head(k) + "=" + Tail(v)
  {
    var m := Head(k) + "=";
    TrimStartPair(k, v);
    assert Head(k) + "= " + v == m + " " + v;
    TrimEndPair(m, v);
  }

  lemma TrimHead(k: string)
    requires IsTrimmed(k)
    ensures Trim(Head(k)) == k
  {
    if k != "" {
      TrimPaddedRight(k);
    }
  }

  lemma TrimTail(v: string)
    requires IsTrimmed(v)
    ensures Trim(Tail(v)) == v
  {
    if v != "" {
      TrimPaddedLeft(v);
    }
  }

  /** A line that trims to neither a comment nor a header, and holds an `=`, is a setting
      of what surrounds its first `=`. */
  lemma ClassifySetting(raw: string, line: string, eq: nat, k: string, v: string)
    requires Trim(raw) == line && |line| > 0 && line[0] != '#'
    requires !(line[0] == '[' && line[|line| - 1] == ']') && '=' in line
    requires IndexOf(line, '=') == eq && Trim(line[..eq]) == k && Trim(line[eq + 1..]) == v
    ensures Classify(raw) == Setting(k, v)
  {
  }

  /** A line that trims to neither a blank, a comment nor a header, and has no `=`, is
      malformed. */
  lemma ClassifyMalformed(raw: string, line: string)
    requires Trim(raw) == line && |line| > 0 && line[0] != '#'
    requires !(line[0] == '[' && line[|line| - 1] == ']') && '=' !in line
    ensures Classify(raw) == Malformed(line)
  {
  }

  /** The trimmed line `k = v` splits at its first `=` into `k` and `v` again. */
  lemma PairLineSplits(k: string, v: string, line: string)
    requires IsTrimmed(k) && IsTrimmed(v) && '=' !in k
    requires line == Head(k) + "=" + Tail(v)
    ensures '=' in line && IndexOf(line, '=') == |Head(k)|
    ensures Trim(line[..|Head(k)|]) == k && Trim(line[|Head(k)| + 1..]) == v
  {
    var eq := |Head(k)|;
    assert line[eq] == '=';
    assert line[..eq] == Head(k);
    assert line[eq + 1..] == Tail(v);
    IndexOfUnique(line, '=', eq);
    TrimHead(k);
    TrimTail(v);
  }

  /** A well-formed configuration line is a setting of the same key and value. */
  lemma ConfigLineClassifies(k: string, v: string)
    requires WellFormedEntry(Config(k, v))
    ensures Classify(EntryLine(Config(k, v))) == Setting(k, v)
  {
    var line := Head(k) + "=" + Tail(v);
    ConfigLineEnds(k, v, line);
    TrimPair(k, v);
    PairLineSplits(k, v, line);
    ClassifySetting(EntryLine(Config(k, v)), line, |Head(k)|, k, v);
  }

  /** The trimmed line of a well-formed configuration entry starts neither a comment nor a
      header. */
  lemma ConfigLineEnds(k: string, v: string, line: string)
    requires WellFormedEntry(Config(k, v))
    requires line == Head(k) + "=" + Tail(v)
    ensures |line| > 0 && line[0] != '#' && !(line[0] == '[' && line[|line| - 1] == ']')
    ensures '=' in line
  {
    var first := if k == "" then '=' else k[0];
    var last := if v == "" then '=' else v[|v| - 1];
    assert line[0] == first;
    assert line[|line| - 1] == last;
    assert line[|Head(k)|] == '=';
  }

  /** A line that trims to `#` followed by `text` is a comment line of `text`. */
  lemma ClassifyComment(raw: string, line: string, text: string)
    requires Trim(raw) == line && line == "#" + text
    ensures Classify(raw) == CommentLine(text)
  {
    assert line[1..] == text;
  }

  /** A line that trims to `[name]` is a header of `name`. */
  lemma ClassifyHeader(raw: string, line: string, name: string)
    requires Trim(raw) == line && line == "[" + name + "]"
    ensures Classify(raw) == Header(name)
  {
    assert line[1..|line| - 1] == name;
  }

  /** The metadata line `#!k = v` is `#` followed by `!k =` and the value. */
  lemma MetaLineShape(k: string, v: string, x: string, text: string)
    requires WellFormedEntry(Meta(k, v))
    requires x == "#!" + k && text == "!" + k + " =" + Tail(v)
    ensures IsTrimmed(x) && EntryLine(Meta(k, v)) == x + " = " + v
    ensures Head(x) + "=" + Tail(v) == "#" + text
  {
    assert x[|x| - 1] == if k == "" then '!' else k[|k| - 1];
    MetaText(k, v);
  }

  lemma MetaText(k: string, v: string)
    ensures Head("#!" + k) + "=" + Tail(v) == "#" + ("!" + k + " =" + Tail(v))
  {
    var t := Tail(v);
    assert Head("#!" + k) == "#!" + k + " ";
    assert "!" + k + " =" + t == "!" + (k + (" =" + t));
    assert "#!" + k + " " + "=" + t == "#" + ("!" + (k + (" =" + t)));
  }

  /** A well-formed metadata line is a comment line of its text after the `#`. */
  lemma MetaLineClassifies(k: string, v: string)
    requires WellFormedEntry(Meta(k, v))
    ensures Classify(EntryLine(Meta(k, v))) == CommentLine("!" + k + " =" + Tail(v))
  {
    var x := "#!" + k;
    var text := "!" + k + " =" + Tail(v);
    MetaLineShape(k, v, x, text);
    TrimPair(x, v);
    ClassifyComment(EntryLine(Meta(k, v)), "#" + text, text);
  }

  /** A well-formed comment line is a comment line with the same text. */
  lemma CommentLineClassifies(t: string)
    requires WellFormedEntry(Comment(t))
    ensures Classify(EntryLine(Comment(t))) == CommentLine(t)
  {
    var line := "#" + t;
    assert line[0] == '#';
    assert line[|line| - 1] == if t == "" then '#' else t[|t| - 1];
    TrimIsTrimmed(line);
    ClassifyComment(EntryLine(Comment(t)), line, t);
  }

  /** The decision the scanner takes on the line of a well-formed entry. */
  function EntryKind(e: Entry): LineKind {
    match e
    case Comment(t) => CommentLine(t)
    case Meta(k, v) => CommentLine("!" + k + " =" + Tail(v))
    case Config(k, v) => Setting(k, v)
  }

  /** Every well-formed entry's line classifies as `EntryKind` of it. */
  lemma EntryLineClassifies(e: Entry)
    requires WellFormedEntry(e)
    ensures Classify(EntryLine(e)) == EntryKind(e)
  {
    match e
    case Comment(t) => CommentLineClassifies(t);
    case Meta(k, v) => MetaLineClassifies(k, v);
    case Config(k, v) => ConfigLineClassifies(k, v);
  }

  /** The line of a well-formed entry adds that entry back to the current section. */
  lemma EntryKindAddsEntry(e: Entry)
    requires WellFormedEntry(e)
    ensures (EntryKind(e).CommentLine? || EntryKind(e).Setting?) && LineEntry(EntryKind(e)) == e
  {
    if e.Meta? {
      TrimTail(e.value);
      DecodeMetaText(e.key, e.value, Tail(e.value));
    } else if e.Comment? {
      assert DecodeComment(e.value) == Comment(e.value);
    }
  }

  /** A header line written for a name without newlines is a header of that name again,
      `[null]` for a missing one. */
  lemma HeaderLineClassifies(name: Option<string>)
    requires name.Some? ==> '\n' !in name.value
    ensures Classify(HeaderLine(name)) == Header(Reloaded(SectionValue(name, [])).name.value)
  {
    var text := Reloaded(SectionValue(name, [])).name.value;
    var line := HeaderLine(name);
    assert line == "[" + text + "]";
    assert line[0] == '[' && line[|line| - 1] == ']';
    TrimIsTrimmed(line);
    ClassifyHeader(line, line, text);
  }

  // The decisions on the lines `toLines` writes.

  function EntriesKinds(es: seq<Entry>): seq<LineKind> {
    seq(|es|, j requires 0 <= j < |es| => EntryKind(es[j]))
  }

  /** A written section and the empty line after it: its header, its entries, a blank. */
  function SectionKinds(s: SectionValue): seq<LineKind> {
    [Header(Reloaded(s).name.value)] + EntriesKinds(s.entries) + [Blank]
  }

  function SectionsKinds(ss: seq<SectionValue>): seq<LineKind> {
    if |ss| == 0 then [] else SectionsKinds(ss[..|ss| - 1]) + SectionKinds(ss[|ss| - 1])
  }

  lemma BlankLine()
    ensures Classify("") == Blank
  {
    assert Trim("") == "";
  }

  /** Line `j` of a writable section, or the empty line after it, classifies as the
      section's `j`-th decision. */
  lemma SectionLineClassifies(s: SectionValue, j: nat)
    requires Writable(s) && j < |SectionLines(s)| + 1
    ensures |SectionKinds(s)| == |SectionLines(s)| + 1
    ensures Classify((SectionLines(s) + [""])[j]) == SectionKinds(s)[j]
  {
    var lines := SectionLines(s) + [""];
    var kinds := SectionKinds(s);
    if j == 0 {
      HeaderLineClassifies(s.name);
    } else if j < |lines| - 1 {
      var e := s.entries[j - 1];
      assert e in s.entries;
      assert lines[j] == EntryLine(e);
      assert kinds[j] == EntryKind(e);
      EntryLineClassifies(e);
    } else {
      BlankLine();
    }
  }

  /** The lines of a writable section, and the empty line after it, classify line by
      line. */
  lemma SectionLinesClassify(s: SectionValue)
    requires Writable(s)
    ensures Kinds(SectionLines(s) + [""]) == SectionKinds(s)
  {
    var lines := SectionLines(s) + [""];
    var kinds := SectionKinds(s);
    assert |lines| == |kinds|;
    KindsAll(lines);
    forall j | 0 <= j < |lines| ensures Kinds(lines)[j] == kinds[j] {
      SectionLineClassifies(s, j);
    }
  }

  lemma {:induction false} SectionsLinesClassify(ss: seq<SectionValue>)
    requires forall s :: s in ss ==> Writable(s)
    ensures Kinds(SectionsLines(ss)) == SectionsKinds(ss)
    decreases |ss|
  {
    if |ss| > 0 {
      var init := ss[..|ss| - 1];
      var last := ss[|ss| - 1];
      assert last in ss;
      assert forall s :: s in init ==> s in ss;
      SectionsLinesClassify(init);
      SectionLinesClassify(last);
      assert SectionsLines(ss) == SectionsLines(init) + (SectionLines(last) + [""]);
      KindsAppend(SectionsLines(init), SectionLines(last) + [""]);
    }
  }

  /** A slice that equals `x + y` splits into a slice equal to `x` and one equal to `y`. */
  lemma SliceSplit(kinds: seq<LineKind>, i: nat, x: seq<LineKind>, y: seq<LineKind>)
    requires i + |x| + |y| <= |kinds| && kinds[i..i + |x| + |y|] == x + y
    ensures kinds[i..i + |x|] == x && kinds[i + |x|..i + |x| + |y|] == y
  {
    assert kinds[i..i + |x|] == kinds[i..i + |x| + |y|][..|x|];
    assert kinds[i + |x|..i + |x| + |y|] == kinds[i..i + |x| + |y|][|x|..];
  }

  /** The first of the entry lines, and the rest. */
  lemma EntriesUncons(kinds: seq<LineKind>, i: nat, es: seq<Entry>)
    requires |es| > 0 && i + |es| <= |kinds| && kinds[i..i + |es|] == EntriesKinds(es)
    ensures kinds[i] == EntryKind(es[0]) && kinds[i + 1..i + |es|] == EntriesKinds(es[1..])
  {
    assert EntriesKinds(es) == [EntryKind(es[0])] + EntriesKinds(es[1..]);
    SliceSplit(kinds, i, [EntryKind(es[0])], EntriesKinds(es[1..]));
    assert kinds[i..i + 1][0] == kinds[i];
  }

  /** Scanning the line of one well-formed entry adds the entry to the current section. */
  lemma EntryScan(kinds: seq<LineKind>, i: nat, e: Entry, cur: SectionValue, done: seq<SectionValue>)
    requires i < |kinds| && kinds[i] == EntryKind(e) && WellFormedEntry(e)
    ensures ScanAt(kinds, i, cur, done)
      == ScanAt(kinds, i + 1, SectionValue(cur.name, cur.entries + [e]), done)
  {
    EntryKindAddsEntry(e);
  }

  /** Scanning the lines of well-formed entries adds those entries to the current
      section. */
  lemma {:induction false} EntriesScan(kinds: seq<LineKind>, i: nat, es: seq<Entry>,
                                       cur: SectionValue, done: seq<SectionValue>)
    requires i + |es| <= |kinds| && kinds[i..i + |es|] == EntriesKinds(es)
    requires forall e :: e in es ==> WellFormedEntry(e)
    ensures ScanAt(kinds, i, cur, done)
      == ScanAt(kinds, i + |es|, SectionValue(cur.name, cur.entries + es), done)
    decreases |es|
  {
    if |es| == 0 {
      assert cur.entries + es == cur.entries;
    } else {
      assert es[0] in es;
      assert forall e :: e in es[1..] ==> e in es;
      EntriesUncons(kinds, i, es);
      EntryScan(kinds, i, es[0], cur, done);
      var cur' := SectionValue(cur.name, cur.entries + [es[0]]);
      EntriesScan(kinds, i + 1, es[1..], cur', done);
      assert cur'.entries + es[1..] == cur.entries + es;
    }
  }

  /** Where the header, the entry lines and the empty line of a written section sit. */
  lemma SectionSlices(kinds: seq<LineKind>, i: nat, s: SectionValue)
    requires i + |SectionKinds(s)| <= |kinds| && kinds[i..i + |SectionKinds(s)|] == SectionKinds(s)
    ensures |SectionKinds(s)| == |s.entries| + 2
    ensures kinds[i] == Header(Reloaded(s).name.value)
    ensures kinds[i + 1..i + 1 + |s.entries|] == EntriesKinds(s.entries)
    ensures kinds[i + 1 + |s.entries|] == Blank
  {
    var name := Reloaded(s).name.value;
    var body := EntriesKinds(s.entries);
    assert SectionKinds(s) == [Header(name)] + body + [Blank];
    SliceSplit(kinds, i, [Header(name)] + body, [Blank]);
    SliceSplit(kinds, i, [Header(name)], body);
    assert kinds[i..i + 1][0] == kinds[i];
    var j := i + 1 + |body|;
    assert kinds[j..j + 1][0] == kinds[j];
  }

  /** Scanning one written section and the empty line after it closes the current section
      and makes the written one current. */
  lemma SectionScan(kinds: seq<LineKind>, i: nat, s: SectionValue,
                    cur: SectionValue, done: seq<SectionValue>)
    requires i + |SectionKinds(s)| <= |kinds| && kinds[i..i + |SectionKinds(s)|] == SectionKinds(s)
    requires Writable(s)
    ensures ScanAt(kinds, i, cur, done)
      == ScanAt(kinds, i + |SectionKinds(s)|, Reloaded(s), Close(done, cur))
  {
    SectionSlices(kinds, i, s);
    var named := SectionValue(Reloaded(s).name, []);
    var j := i + 1 + |s.entries|;
    calc {
      ScanAt(kinds, i, cur, done);
      ScanAt(kinds, i + 1, named, Close(done, cur));
      { EntriesScan(kinds, i + 1, s.entries, named, Close(done, cur));
        assert named.entries + s.entries == s.entries; }
      ScanAt(kinds, j, Reloaded(s), Close(done, cur));
      ScanAt(kinds, j + 1, Reloaded(s), Close(done, cur));
    }
  }

  /** The lines of all written sections but the last, and those of the last. */
  lemma SectionsUnsnoc(kinds: seq<LineKind>, i: nat, ss: seq<SectionValue>)
    requires |ss| >= 1
    requires i + |SectionsKinds(ss)| <= |kinds| && kinds[i..i + |SectionsKinds(ss)|] == SectionsKinds(ss)
    ensures var n := |SectionsKinds(ss[..|ss| - 1])|;
      kinds[i..i + n] == SectionsKinds(ss[..|ss| - 1])
      && i + n + |SectionKinds(ss[|ss| - 1])| == i + |SectionsKinds(ss)|
      && kinds[i + n..i + |SectionsKinds(ss)|] == SectionKinds(ss[|ss| - 1])
  {
    SliceSplit(kinds, i, SectionsKinds(ss[..|ss| - 1]), SectionKinds(ss[|ss| - 1]));
  }

  lemma AllReloadedSnoc(ss: seq<SectionValue>)
    requires |ss| >= 1
    ensures AllReloaded(ss) == AllReloaded(ss[..|ss| - 1]) + [Reloaded(ss[|ss| - 1])]
  {
  }

  /** Closing the reloaded last section after the others appends it to them. */
  lemma ClosePushed(front: seq<SectionValue>, ss: seq<SectionValue>)
    requires |ss| >= 1 && |ss[|ss| - 1].entries| > 0
    ensures Close(front + AllReloaded(ss[..|ss| - 1]), Reloaded(ss[|ss| - 1])) == front + AllReloaded(ss)
  {
    AllReloadedSnoc(ss);
    var before := AllReloaded(ss[..|ss| - 1]);
    assert front + before + [Reloaded(ss[|ss| - 1])] == front + (before + [Reloaded(ss[|ss| - 1])]);
  }

  /** Scanning the written sections one after the other. */
  lemma {:induction false} SectionsScan(kinds: seq<LineKind>, i: nat, ss: seq<SectionValue>,
                                        cur: SectionValue, done: seq<SectionValue>)
    requires |ss| >= 1
    requires i + |SectionsKinds(ss)| <= |kinds| && kinds[i..i + |SectionsKinds(ss)|] == SectionsKinds(ss)
    requires forall s :: s in ss ==> WellFormedSection(s)
    ensures ScanAt(kinds, i, cur, done)
      == ScanAt(kinds, i + |SectionsKinds(ss)|, Reloaded(ss[|ss| - 1]),
                Close(done, cur) + AllReloaded(ss[..|ss| - 1]))
    decreases |ss|
  {
    var init := ss[..|ss| - 1];
    var last := ss[|ss| - 1];
    assert last in ss;
    var n := |SectionsKinds(init)|;
    SectionsUnsnoc(kinds, i, ss);
    if |init| == 0 {
      assert SectionsKinds(init) == [];
      SectionScan(kinds, i, last, cur, done);
      assert Close(done, cur) + AllReloaded(init) == Close(done, cur);
    } else {
      assert forall s :: s in init ==> s in ss;
      SectionsScan(kinds, i, init, cur, done);
      var prev := init[|init| - 1];
      assert prev in ss;
      var pushed := Close(done, cur) + AllReloaded(init[..|init| - 1]);
      var m := i + |SectionsKinds(ss)|;
      calc {
        ScanAt(kinds, i, cur, done);
        ScanAt(kinds, i + n, Reloaded(prev), pushed);
        { SectionScan(kinds, i + n, last, Reloaded(prev), pushed); }
        ScanAt(kinds, m, Reloaded(last), Close(pushed, Reloaded(prev)));
        { ClosePushed(Close(done, cur), init); }
        ScanAt(kinds, m, Reloaded(last), Close(done, cur) + AllReloaded(init));
      }
    }
  }

  /** No line of a writable section holds a newline. */
  lemma SectionLinesNoNewline(s: SectionValue)
    requires Writable(s)
    ensures forall j :: 0 <= j < |SectionLines(s)| ==> '\n' !in SectionLines(s)[j]
  {
    var block := SectionLines(s);
    forall j | 0 <= j < |block| ensures '\n' !in block[j] {
      if j > 0 {
        var e := s.entries[j - 1];
        assert e in s.entries;
        assert block[j] == EntryLine(e);
      }
    }
  }

  lemma {:induction false} SectionsLinesNoNewline(ss: seq<SectionValue>)
    requires forall s :: s in ss ==> Writable(s)
    ensures forall j :: 0 <= j < |SectionsLines(ss)| ==> '\n' !in SectionsLines(ss)[j]
    decreases |ss|
  {
    if |ss| > 0 {
      var init := ss[..|ss| - 1];
      var last := ss[|ss| - 1];
      assert last in ss;
      assert forall s :: s in init ==> s in ss;
      SectionsLinesNoNewline(init);
      SectionLinesNoNewline(last);
      var front, block := SectionsLines(init), SectionLines(last);
      var all := SectionsLines(ss);
      assert all == front + block + [""];
      forall j | 0 <= j < |all| ensures '\n' !in all[j] {
        if j < |front| {
          assert all[j] == front[j];
        } else if j < |front| + |block| {
          assert all[j] == block[j - |front|];
        }
      }
    }
  }


  /** The lines of a saved file are the lines `toLines` gave, and they classify as the
      written sections followed by one blank. */
  lemma SavedKinds(ss: seq<SectionValue>)
    requires forall s :: s in ss ==> Writable(s)
    ensures Kinds(ReadLines(SaveText(ss))) == SectionsKinds(ss) + [Blank]
  {
    var lines := DocumentLines(ss);
    SectionsLinesNoNewline(ss);
    assert forall j :: 0 <= j < |lines| ==> '\n' !in lines[j] by {
      forall j | 0 <= j < |lines| ensures '\n' !in lines[j] {
        if j < |SectionsLines(ss)| {
          assert lines[j] == SectionsLines(ss)[j];
        }
      }
    }
    SplitJoin(lines, '\n');
    SectionsLinesClassify(ss);
    KindsAppend(SectionsLines(ss), [""]);
    BlankLine();
  }

  /** Loading saved text scans the decisions of the saved sections and one blank line. */
  lemma SavedScan(ss: seq<SectionValue>)
    requires forall s :: s in ss ==> WellFormedSection(s)
    ensures Load(SaveText(ss)) == ScanAt(SectionsKinds(ss) + [Blank], 0, SectionValue(None, []), [])
  {
    SavedKinds(ss);
  }

  /** The central round trip: loading the text `save()` writes gives back the same
      sections and entries, in order; a missing name comes back as `null`. */
  lemma SaveLoadRoundTrip(ss: seq<SectionValue>)
    requires forall s :: s in ss ==> WellFormedSection(s)
    ensures Load(SaveText(ss)) == Success(AllReloaded(ss))
  {
    SavedScan(ss);
    var kinds := SectionsKinds(ss) + [Blank];
    var start := SectionValue(None, []);
    var n := |SectionsKinds(ss)|;
    assert kinds[n] == Blank;
    if |ss| == 0 {
      assert kinds == [Blank];
      assert AllReloaded(ss) == [];
      assert ScanAt(kinds, 0, start, []) == ScanAt(kinds, 1, start, []);
    } else {
      assert kinds[0..n] == SectionsKinds(ss);
      SectionsScan(kinds, 0, ss, start, []);
      assert ss[|ss| - 1] in ss;
      var last := Reloaded(ss[|ss| - 1]);
      var before := AllReloaded(ss[..|ss| - 1]);
      assert Close([], start) + before == before;
      assert ScanAt(kinds, n, last, before) == ScanAt(kinds, n + 1, last, before);
      assert Close(before, last) == before + [last];
      AllReloadedSnoc(ss);
    }
  }

  /** With every section named, saving and loading is the identity. */
  lemma SaveLoadNamed(ss: seq<SectionValue>)
    requires forall s :: s in ss ==> WellFormedSection(s) && s.name.Some?
    ensures Load(SaveText(ss)) == Success(ss)
  {
    SaveLoadRoundTrip(ss);
    assert AllReloaded(ss) == ss;
  }

  /** A file with nothing in it holds no sections. */
  lemma EmptyFileHasNoSections()
    ensures Load("") == Success([])
  {
    assert ReadLines("") == [""];
    BlankLine();
    assert Kinds([""]) == [Blank];
    var start := SectionValue(None, []);
    assert ScanAt([Blank], 0, start, []) == ScanAt([Blank], 1, start, []);
  }

  /** A named section without entries is dropped when read back (the `isEmpty` check
      ignores the name), so the round trip needs at least one entry per section. */
  lemma EmptySectionDropped(name: string)
    requires '\n' !in name
    ensures Load(SaveText([SectionValue(Some(name), [])])) == Success([])
  {
    var s := SectionValue(Some(name), []);
    SavedKinds([s]);
    assert SectionsKinds([s]) == SectionsKinds([]) + SectionKinds(s);
    var kinds := [Header(name), Blank, Blank];
    assert SectionsKinds([s]) + [Blank] == kinds;
    var start := SectionValue(None, []);
    var named := SectionValue(Some(name), []);
    assert ScanAt(kinds, 0, start, []) == ScanAt(kinds, 1, named, []);
    assert ScanAt(kinds, 1, named, []) == ScanAt(kinds, 2, named, []);
    assert ScanAt(kinds, 2, named, []) == ScanAt(kinds, 3, named, []);
  }

  // What the scanner produces is well formed.

  lemma DecodedCommentWellFormed(t: string)
    requires '\n' !in t && (|t| == 0 || !IsWhitespace(t[|t| - 1]))
    ensures WellFormedEntry(DecodeComment(t))
  {
    if |t| > 0 && t[0] == '!' && '=' in t {
      var eq := IndexOf(t, '=');
      assert DecodeComment(t) == Meta(Trim(t[1..eq]), Trim(t[eq + 1..]));
      SliceKeepsAbsence(t, '\n', 1, eq);
      SliceKeepsAbsence(t, '\n', eq + 1, |t|);
      TrimKeepsAbsence(t[1..eq], '\n');
      TrimKeepsAbsence(t[eq + 1..], '\n');
    }
  }

  /** A decision that yields only well-formed entries and names without newlines. */
  predicate WellFormedKind(k: LineKind) {
    (k.CommentLine? || k.Setting? ==> WellFormedEntry(LineEntry(k)))
    && (k.Header? ==> '\n' !in k.name)
  }

  /** The key and the value cut from a line without a newline hold no newline either. */
  lemma SettingPartsNoNewline(line: string, eq: nat)
    requires '\n' !in line && eq < |line|
    ensures '\n' !in Trim(line[..eq]) && '\n' !in Trim(line[eq + 1..])
  {
    SliceKeepsAbsence(line, '\n', 0, eq);
    SliceKeepsAbsence(line, '\n', eq + 1, |line|);
    TrimKeepsAbsence(line[..eq], '\n');
    TrimKeepsAbsence(line[eq + 1..], '\n');
  }

  /** Trimming the key and the value cut from a trimmed line keeps the line's first and
      last characters where they are left. */
  lemma SettingPartsEnds(line: string, eq: nat)
    requires IsTrimmed(line) && eq < |line|
    ensures |Trim(line[..eq])| > 0 ==> Trim(line[..eq])[0] == line[0]
    ensures |Trim(line[eq + 1..])| > 0 ==>
      Trim(line[eq + 1..])[|Trim(line[eq + 1..])| - 1] == line[|line| - 1]
  {
    if eq > 0 {
      TrimKeepsFirst(line[..eq]);
    }
    if eq + 1 < |line| {
      TrimKeepsLast(line[eq + 1..]);
    }
  }

  /** A line without a newline classifies into a well-formed entry or header. */
  lemma LineWellFormed(raw: string)
    requires '\n' !in raw
    ensures WellFormedKind(Classify(raw))
  {
    var line := Trim(raw);
    TrimKeepsAbsence(raw, '\n');
    var k := Classify(raw);
    if k.CommentLine? {
      assert k.text == line[1..];
      SliceKeepsAbsence(line, '\n', 1, |line|);
      DecodedCommentWellFormed(k.text);
    } else if k.Header? {
      SliceKeepsAbsence(line, '\n', 1, |line| - 1);
    } else if k.Setting? {
      var eq := IndexOf(line, '=');
      assert k == Setting(Trim(line[..eq]), Trim(line[eq + 1..]));
      SettingPartsNoNewline(line, eq);
      TrimIsTrimmed(raw);
      SettingPartsEnds(line, eq);
    }
  }


  /** Every section the scan completes is well formed, given well-formed sections so far. */
  lemma {:induction false} ScannedWellFormed(kinds: seq<LineKind>, i: nat, cur: SectionValue,
                                             done: seq<SectionValue>)
    requires i <= |kinds|
    requires forall j :: 0 <= j < |kinds| ==> WellFormedKind(kinds[j])
    requires Writable(cur)
    requires forall s :: s in done ==> WellFormedSection(s)
    ensures ScanAt(kinds, i, cur, done).Success? ==>
      forall s :: s in ScanAt(kinds, i, cur, done).value ==> WellFormedSection(s)
    decreases |kinds| - i
  {
    if i < |kinds| {
      var k := kinds[i];
      assert WellFormedKind(k);
      match k
      case Blank => ScannedWellFormed(kinds, i + 1, cur, done);
      case Header(n) => ScannedWellFormed(kinds, i + 1, SectionValue(Some(n), []), Close(done, cur));
      case Malformed(_) =>
      case _ =>
        var cur' := SectionValue(cur.name, cur.entries + [LineEntry(k)]);
        ScannedWellFormed(kinds, i + 1, cur', done);
    }
  }

  /** Every section a file loads to is well formed. */
  lemma LoadedWellFormed(contents: string)
    requires Load(contents).Success?
    ensures forall s :: s in Load(contents).value ==> WellFormedSection(s)
  {
    var lines := ReadLines(contents);
    forall j | 0 <= j < |lines| ensures WellFormedKind(Kinds(lines)[j]) {
      KindsAt(lines, j);
      LineWellFormed(lines[j]);
    }
    ScannedWellFormed(Kinds(lines), 0, SectionValue(None, []), []);
  }

  /** Whatever a file loads to saves and loads back to itself, up to the `[null]` name of
      a leading unnamed block. */
  lemma LoadSaveLoad(contents: string)
    requires Load(contents).Success?
    ensures Load(SaveText(Load(contents).value)) == Success(AllReloaded(Load(contents).value))
  {
    LoadedWellFormed(contents);
    SaveLoadRoundTrip(Load(contents).value);
  }
}
