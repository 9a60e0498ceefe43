// NodeId texts: the canonical lookup key, the expanded form, and when they agree.
module NodeIds {
  import opened Options
  import opened Texts

  // What the model takes from the library: str.strip's white space and the normal form of a GUID.
  datatype Lib = Lib(isSpace: char -> bool, guid: string -> Option<string>)

  predicate IsKind(c: char) { c == 'i' || c == 's' || c == 'g' || c == 'b' }

  predicate IsGuidText(s: string) {
    |s| > 0 && forall i :: 0 <= i < |s| ==> '0' <= s[i] <= '9' || 'a' <= s[i] <= 'f' || s[i] == '-'
  }

  ghost predicate IsLib(lib: Lib) {
    && (forall c :: c == '=' || c == ';' || c == '-' || c == 'n' || IsKind(c) || '0' <= c <= '9' || 'a' <= c <= 'f' ==>
      !lib.isSpace(c))
    && lib.isSpace('\n')
    && (forall s :: lib.guid(s).Some? ==>
      ';' !in s && IsGuidText(lib.guid(s).value) && lib.guid(lib.guid(s).value) == lib.guid(s))
  }

  // ----- str.partition, int and str -----

  // Text before the first semicolon and after it.
  function Partition(s: string): Option<(string, string)> {
    if s == "" then None
    else if s[0] == ';' then Some(("", s[1..]))
    else match Partition(s[1..])
         case None => None
         case Some(p) => Some(([s[0]] + p.0, p.1))
  }

  lemma {:induction false} PartitionAt(a: string, b: string)
    requires ';' !in a
    ensures Partition(a + ";" + b) == Some((a, b))
  {
    if a == "" {
      assert a + ";" + b == ";" + b;
    } else {
      PartitionAt(a[1..], b);
      assert (a + ";" + b)[1..] == a[1..] + ";" + b;
      assert [a[0]] + a[1..] == a;
    }
  }

  lemma {:induction false} PartitionSplits(s: string)
    ensures Partition(s) == None <==> ';' !in s
    ensures Partition(s).Some? ==>
      ';' !in Partition(s).value.0 && s == Partition(s).value.0 + ";" + Partition(s).value.1
  {
    if s != "" && s[0] != ';' {
      PartitionSplits(s[1..]);
      assert s == [s[0]] + s[1..];
    }
  }

  predicate IsDigits(s: string) { s != "" && forall i :: 0 <= i < |s| ==> '0' <= s[i] <= '9' }

  function ToInt(s: string): nat
    requires forall i :: 0 <= i < |s| ==> '0' <= s[i] <= '9'
  {
    if s == "" then 0 else 10 * ToInt(s[..|s| - 1]) + (s[|s| - 1] as int - '0' as int)
  }

  function Digit(d: nat): char
    requires d < 10
  {
    "0123456789"[d]
  }

  function ToText(n: nat): (s: string)
    ensures IsDigits(s)
  {
    if n < 10 then [Digit(n)] else ToText(n / 10) + [Digit(n % 10)]
  }

  lemma {:induction false} IntOfText(n: nat)
    ensures ToInt(ToText(n)) == n
  {
    if n >= 10 {
      IntOfText(n / 10);
      assert ToText(n)[..|ToText(n)| - 1] == ToText(n / 10);
    } else {
      assert ToText(n)[..0] == "";
    }
  }

  // ----- Reading a NodeId -----

  datatype Namespace = Uri(uri: string) | Index(index: nat)
  datatype NodeId = NodeId(namespace: Namespace, kind: char, identifier: string)

  // ^([isgb])=(.*)$ on a text that does not end in a line break
  function ReadIdentifier(namespace: Namespace, text: string): Option<NodeId> {
    if |text| >= 2 && IsKind(text[0]) && text[1] == '=' && '\n' !in text[2..]
    then Some(NodeId(namespace, text[0], text[2..])) else None
  }

  // ns=(\d+); and what follows, index 0 when it is absent
  function ReadIndex(text: string): (nat, string) {
    if "ns=" <= text then
      match Partition(text[3..])
      case None => (0, text)
      case Some(p) => if IsDigits(p.0) then (ToInt(p.0), p.1) else (0, text)
    else (0, text)
  }

  // The namespace a text begins with, and the identifier text behind it.
  function ReadNamespace(text: string): Option<(Namespace, string)> {
    if "nsu=" <= text then
      match Partition(text[4..])
      case None => None
      case Some(p) => if p.0 == "" then None else Some((Uri(p.0), p.1))
    else Some((Index(ReadIndex(text).0), ReadIndex(text).1))
  }

  function Read(text: string): Option<NodeId> {
    match ReadNamespace(text)
    case None => None
    case Some(read) => ReadIdentifier(read.0, read.1)
  }

  // _normalize_node_identifier
  function Normalized(lib: Lib, kind: char, identifier: string): Option<string> {
    if kind == 'i' then
      if IsDigits(identifier) && ToInt(identifier) <= 0xFFFFFFFF then Some(ToText(ToInt(identifier))) else None
    else if kind == 'g' then lib.guid(identifier)
    else Some(identifier)
  }

  const STANDARD := "http://opcfoundation.org/UA/"

  type Uris = map<nat, string>

  // The namespace by its URI, where that is known.
  function Located(uris: Uris, namespace: Namespace): Namespace {
    match namespace
    case Uri(_) => namespace
    case Index(n) =>
      if n == 0 then Uri(STANDARD) else if n in uris && uris[n] != "" then Uri(uris[n]) else namespace
  }

  function Prefix(namespace: Namespace): string {
    match namespace
    case Uri(u) => "nsu=" + u + ";"
    case Index(n) => "ns=" + ToText(n) + ";"
  }

  function Show(id: NodeId): string {
    Prefix(id.namespace) + ([id.kind, '='] + id.identifier)
  }

  // The identifier with its namespace located and its value normalised.
  function Canonicalized(lib: Lib, uris: Uris, id: NodeId): Option<NodeId> {
    match Normalized(lib, id.kind, id.identifier)
    case None => None
    case Some(identifier) => Some(NodeId(Located(uris, id.namespace), id.kind, identifier))
  }

  // canonical_node_id
  function Canonical(lib: Lib, uris: Uris, text: string): Option<string> {
    match Read(Strip(lib.isSpace, text))
    case None => None
    case Some(id) =>
      match Canonicalized(lib, uris, id)
      case None => None
      case Some(canonical) => Some(Show(canonical))
  }

  // ----- Reading back what was shown -----

  ghost predicate IsReadable(id: NodeId) {
    IsKind(id.kind) && '\n' !in id.identifier
      && (id.namespace.Uri? ==> id.namespace.uri != "" && ';' !in id.namespace.uri)
  }

  lemma DigitsHoldNoSemicolon(s: string)
    requires IsDigits(s)
    ensures ';' !in s
  {
  }

  lemma ReadShown(id: NodeId)
    requires IsReadable(id)
    ensures Read(Show(id)) == Some(id)
  {
    var text := [id.kind, '='] + id.identifier;
    assert text[2..] == id.identifier;
    match id.namespace
    case Uri(u) =>
      assert Show(id)[4..] == u + ";" + text;
      PartitionAt(u, text);
    case Index(n) =>
      assert Show(id)[3..] == ToText(n) + ";" + text;
      assert Show(id)[2] == '=';
      DigitsHoldNoSemicolon(ToText(n));
      PartitionAt(ToText(n), text);
      IntOfText(n);
  }

  // What is read from a stripped text is shown as a text that strip leaves alone.
  lemma ShownIsStripped(lib: Lib, id: NodeId)
    requires IsLib(lib) && StripRight(lib.isSpace, id.identifier) == id.identifier
    ensures Strip(lib.isSpace, Show(id)) == Show(id)
  {
    var head := Prefix(id.namespace) + [id.kind, '='];
    assert Show(id) == head + id.identifier;
    assert Show(id)[0] == 'n';
    StripRightAfter(lib.isSpace, head, id.identifier);
  }

  lemma NormalizedOnce(lib: Lib, kind: char, identifier: string)
    requires IsLib(lib) && '\n' !in identifier && StripRight(lib.isSpace, identifier) == identifier
    requires Normalized(lib, kind, identifier).Some?
    ensures var n := Normalized(lib, kind, identifier).value;
      Normalized(lib, kind, n) == Some(n) && '\n' !in n && StripRight(lib.isSpace, n) == n
  {
    if kind == 'i' {
      IntOfText(ToInt(identifier));
    }
  }

  lemma SuffixIsStripped(lib: Lib, s: string, k: nat)
    requires k <= |s| && StripRight(lib.isSpace, s) == s
    ensures StripRight(lib.isSpace, s[k..]) == s[k..]
  {
    StrippedEnds(lib.isSpace, s);
  }

  lemma NamespaceIsPrefix(text: string)
    requires ReadNamespace(text).Some?
    ensures var read := ReadNamespace(text).value;
      && |read.1| <= |text| && read.1 == text[|text| - |read.1|..]
      && (read.0.Uri? ==> read.0.uri != "" && ';' !in read.0.uri)
  {
    hide Partition, ToInt;
    if "nsu=" <= text {
      PartitionSplits(text[4..]);
    } else if "ns=" <= text {
      PartitionSplits(text[3..]);
    }
  }

  // What is read is a readable identifier, except for its namespace.
  lemma ReadIsReadable(lib: Lib, text: string)
    requires StripRight(lib.isSpace, text) == text && Read(text).Some?
    ensures IsReadable(Read(text).value)
    ensures StripRight(lib.isSpace, Read(text).value.identifier) == Read(text).value.identifier
  {
    hide ReadNamespace, StripRight;
    NamespaceIsPrefix(text);
    var rest := ReadNamespace(text).value.1;
    assert rest[2..] == text[|text| - |rest| + 2..];
    SuffixIsStripped(lib, text, |text| - |rest| + 2);
  }

  // ----- Idempotence -----

  // The URI that the canonical form of a text names, if the text named an index.
  function FoundUri(uris: Uris, id: NodeId): Option<string> {
    if id.namespace.Index? && Located(uris, id.namespace).Uri? then Some(Located(uris, id.namespace).uri) else None
  }

  // A URI that reads back as the same text: it has no semicolon, or what follows its first one
  // happens to look like a string or ByteString identifier.
  predicate ReadsBack(uri: string) {
    match Partition(uri)
    case None => true
    case Some(p) => p.0 != "" && |p.1| >= 2 && (p.1[0] == 's' || p.1[0] == 'b') && p.1[1] == '=' && '\n' !in p.1
  }

  // The identifier text that is read when a URI is cut at its semicolon.
  lemma CutIdentifier(namespace: Namespace, tail: string, text: string)
    requires '\n' !in text
    ensures var id := ReadIdentifier(namespace, tail + ";" + text);
      && (id.Some? <==> |tail| >= 2 && IsKind(tail[0]) && tail[1] == '=' && '\n' !in tail[2..])
      && (id.Some? ==> id.value == NodeId(namespace, tail[0], tail[2..] + ";" + text))
  {
    var rest := tail + ";" + text;
    if |tail| >= 2 {
      assert rest[2..] == tail[2..] + ";" + text;
      assert rest[0] == tail[0] && rest[1] == tail[1];
    } else {
      assert rest[|tail|] == ';';
    }
  }

  lemma SemicolonInIdentifier(lib: Lib, kind: char, tail: string, text: string)
    requires IsLib(lib) && IsKind(kind)
    ensures Normalized(lib, kind, tail + ";" + text) ==
            if kind == 's' || kind == 'b' then Some(tail + ";" + text) else None
  {
    assert (tail + ";" + text)[|tail|] == ';';
  }

  lemma CutNamespace(uri: string, text: string)
    requires Partition(uri).Some?
    ensures var p := Partition(uri).value;
      ReadNamespace("nsu=" + uri + ";" + text) == if p.0 == "" then None else Some((Uri(p.0), p.1 + ";" + text))
  {
    hide Partition;
    PartitionSplits(uri);
    var p := Partition(uri).value;
    var all := "nsu=" + uri + ";" + text;
    assert all[4..] == p.0 + ";" + (p.1 + ";" + text);
    PartitionAt(p.0, p.1 + ";" + text);
  }

  lemma ShownWithSemicolon(lib: Lib, uris: Uris, uri: string, kind: char, identifier: string)
    requires IsLib(lib) && ';' in uri && IsKind(kind) && '\n' !in identifier
      && StripRight(lib.isSpace, identifier) == identifier
    ensures var shown := Show(NodeId(Uri(uri), kind, identifier));
      Canonical(lib, uris, shown) == if ReadsBack(uri) then Some(shown) else None
  {
    hide Partition, ReadNamespace, ReadIdentifier, Normalized, Strip, StripRight;
    var id := NodeId(Uri(uri), kind, identifier);
    var text := [kind, '='] + identifier;
    ShownIsStripped(lib, id);
    PartitionSplits(uri);
    var p := Partition(uri).value;
    CutNamespace(uri, text);
    CutIdentifier(Uri(p.0), p.1, text);
    if p.0 != "" && |p.1| >= 2 && IsKind(p.1[0]) && p.1[1] == '=' && '\n' !in p.1[2..] {
      SemicolonInIdentifier(lib, p.1[0], p.1[2..], text);
      assert p.1 == [p.1[0], '='] + p.1[2..];
      CutShowsTheSame(p.0, p.1, text, id);
    } else {
      assert |p.1| >= 2 && p.1[1] == '=' ==> p.1 == [p.1[0], '='] + p.1[2..];
    }
  }

  lemma CutShowsTheSame(head: string, tail: string, text: string, id: NodeId)
    requires id.namespace == Uri(head + ";" + tail) && text == [id.kind, '='] + id.identifier
    requires |tail| >= 2 && tail == [tail[0], '='] + tail[2..]
    ensures Show(NodeId(Uri(head), tail[0], tail[2..] + ";" + text)) == Show(id)
  {
    assert [tail[0], '='] + (tail[2..] + ";" + text) == tail + ";" + text;
    assert "nsu=" + head + ";" + (tail + ";" + text) == "nsu=" + (head + ";" + tail) + ";" + text;
  }

  // Canonicalising twice changes nothing exactly when the URI looked up for the index reads back.
  lemma CanonicalIsIdempotent(lib: Lib, uris: Uris, text: string)
    requires IsLib(lib) && Canonical(lib, uris, text).Some?
    ensures var c := Canonical(lib, uris, text).value;
      var found := FoundUri(uris, Read(Strip(lib.isSpace, text)).value);
      Canonical(lib, uris, c) == Some(c) <==> (found.Some? ==> ReadsBack(found.value))
  {
    var stripped := Strip(lib.isSpace, text);
    StrippedEnds(lib.isSpace, StripLeft(lib.isSpace, text));
    ReadIsReadable(lib, stripped);
    var id := Read(stripped).value;
    NormalizedOnce(lib, id.kind, id.identifier);
    var canonical := Canonicalized(lib, uris, id).value;
    var namespace := canonical.namespace;
    if namespace.Uri? && ';' in namespace.uri {
      ShownWithSemicolon(lib, uris, namespace.uri, id.kind, canonical.identifier);
    } else {
      ReadShown(canonical);
      ShownIsStripped(lib, canonical);
      if namespace.Uri? {
        PartitionSplits(namespace.uri);
      }
    }
  }

  // No URI that an index can name holds a semicolon; index 0 always names the standard one.
  ghost predicate PlainUris(uris: Uris) {
    forall n :: n in uris && n != 0 ==> ';' !in uris[n]
  }

  lemma StandardIsPlain()
    ensures ';' !in STANDARD
  {
  }

  // Without semicolons in the namespace URIs the canonical form is stable.
  lemma PlainUrisReadBack(lib: Lib, uris: Uris, text: string)
    requires IsLib(lib) && PlainUris(uris) && Canonical(lib, uris, text).Some?
    ensures var c := Canonical(lib, uris, text).value; Canonical(lib, uris, c) == Some(c)
  {
    hide Partition, Strip, Show;
    CanonicalIsIdempotent(lib, uris, text);
    StandardIsPlain();
    var found := FoundUri(uris, Read(Strip(lib.isSpace, text)).value);
    if found.Some? {
      PartitionSplits(found.value);
    }
  }

  // ----- The expanded form -----

  // (.+)$: everything up to the end, or up to a final line break.
  function Line(s: string): string {
    if s != "" && s[|s| - 1] == '\n' then s[..|s| - 1] else s
  }

  // ^(?:ns=(\d+);)?([isgb]=.+)$
  function ReadIndexed(text: string): Option<(nat, string)> {
    var read := ReadIndex(text);
    var line := Line(read.1);
    if |line| > 2 && IsKind(line[0]) && line[1] == '=' && '\n' !in line then Some((read.0, line)) else None
  }

  // expanded_node_id
  function Expanded(infos: seq<string>, text: string): string {
    if "nsu=" <= text then text else
    match ReadIndexed(text)
    case None => text
    case Some(read) =>
      if read.0 == 0 then "nsu=" + STANDARD + ";" + read.1
      else if read.0 >= |infos| || infos[read.0] == "" then text
      else "nsu=" + infos[read.0] + ";" + read.1
  }

  // namespace_uri_by_index of a build: the nonempty URIs by their position.
  function UrisOf(infos: seq<string>): Uris {
    map n: nat | n < |infos| && infos[n] != "" :: infos[n]
  }

  lemma LineStripped(lib: Lib, s: string)
    requires IsLib(lib)
    ensures StripRight(lib.isSpace, Line(s)) == StripRight(lib.isSpace, s)
  {
  }

  lemma IndexIsPrefix(text: string)
    requires !("nsu=" <= text)
    ensures var read := ReadIndex(text);
      && |read.1| <= |text| && read.1 == text[|text| - |read.1|..]
  {
    hide Partition, ToInt;
    if "ns=" <= text {
      PartitionSplits(text[3..]);
    }
  }

  // The same index is read whatever identifier text follows the prefix.
  lemma IndexOfPrefix(text: string, rest: string)
    requires ReadIndex(text).1 != text && !("nsu=" <= text)
    ensures var read := ReadIndex(text);
      && |read.1| < |text| && text[|text| - |read.1| - 1] == ';'
      && ReadIndex(text[..|text| - |read.1|] + rest) == (read.0, rest)
      && "ns=" <= text[..|text| - |read.1|] + rest && !("nsu=" <= text[..|text| - |read.1|] + rest)
  {
    hide ToInt;
    PartitionSplits(text[3..]);
    var p := Partition(text[3..]).value;
    var prefix := text[..|text| - |p.1|];
    assert prefix == "ns=" + p.0 + ";";
    assert (prefix + rest)[3..] == p.0 + ";" + rest;
    PartitionAt(p.0, rest);
    assert text[3..][|p.0|] == ';';
  }

  // Stripping a text whose identifier starts with a kind strips the identifier's value only.
  lemma StripIndexed(lib: Lib, text: string)
    requires IsLib(lib) && !("nsu=" <= text) && ReadIndexed(text).Some?
    ensures var read := ReadIndexed(text).value;
      && ReadNamespace(Strip(lib.isSpace, text)) == Some((Index(read.0), StripRight(lib.isSpace, read.1)))
  {
    hide Partition, ToInt;
    var raw := ReadIndex(text).1;
    IndexedStarts(lib, text);
    IndexIsPrefix(text);
    LineStripped(lib, raw);
    KindStays(lib, raw);
    if raw != text {
      hide ReadIndex, StripRight;
      IndexOfPrefix(text, StripRight(lib.isSpace, raw));
      var prefix := text[..|text| - |raw|];
      assert text == prefix + raw;
      StripRightAfter(lib.isSpace, prefix, raw);
    } else {
      assert !IsKind('n');
    }
  }

  lemma IndexedStarts(lib: Lib, text: string)
    requires IsLib(lib) && !("nsu=" <= text) && ReadIndexed(text).Some?
    ensures StripLeft(lib.isSpace, text) == text && text != ""
    ensures ReadIndex(text).1 != "" && IsKind(ReadIndex(text).1[0])
  {
    hide Partition, ToInt;
    var raw := ReadIndex(text).1;
    IndexIsPrefix(text);
    assert raw[0] == Line(raw)[0];
    assert text[0] == 'n' || text == raw;
  }

  lemma PlainCharacters(lib: Lib)
    requires IsLib(lib)
    ensures !lib.isSpace('=') && forall c :: IsKind(c) ==> !lib.isSpace(c)
  {
  }

  lemma KindStays(lib: Lib, s: string)
    requires IsLib(lib) && s != "" && IsKind(s[0])
    ensures StripRight(lib.isSpace, s) != "" && StripRight(lib.isSpace, s)[0] == s[0]
  {
    hide StripRight, IsLib;
    PlainCharacters(lib);
    StripRightAfter(lib.isSpace, [s[0]], s[1..]);
    assert [s[0]] + s[1..] == s;
  }

  // ----- When the two forms of a node agree -----

  // The URI that the expanded form of a text names, if it differs from the text.
  function ExpandsBy(infos: seq<string>, text: string): Option<string> {
    if "nsu=" <= text then None else
    match ReadIndexed(text)
    case None => None
    case Some(read) =>
      if read.0 == 0 then Some(STANDARD)
      else if read.0 >= |infos| || infos[read.0] == "" then None
      else Some(infos[read.0])
  }

  // The kind and the stripped value of the identifier in an indexed text.
  function ValueIn(lib: Lib, text: string): (char, string)
    requires ReadIndexed(text).Some?
  {
    (ReadIndexed(text).value.1[0], StripRight(lib.isSpace, ReadIndexed(text).value.1[2..]))
  }

  predicate FormsAgree(lib: Lib, infos: seq<string>, text: string) {
    Canonical(lib, UrisOf(infos), Expanded(infos, text)) == Canonical(lib, UrisOf(infos), text)
  }

  // A URI with a semicolon keeps the forms together only for values it cannot spoil: one that is normal already if
  // the URI reads back, one that is invalid if it does not.
  predicate Agrees(lib: Lib, uri: string, kind: char, identifier: string) {
    ';' in uri ==> Normalized(lib, kind, identifier) == if ReadsBack(uri) then Some(identifier) else None
  }

  lemma StrippedInside(lib: Lib, s: string, c: char)
    requires c !in s
    ensures c !in StripRight(lib.isSpace, s)
    ensures StripRight(lib.isSpace, StripRight(lib.isSpace, s)) == StripRight(lib.isSpace, s)
  {
    hide StripRight;
    StrippedEnds(lib.isSpace, s);
  }

  lemma StripLine(lib: Lib, line: string)
    requires IsLib(lib) && |line| > 2 && IsKind(line[0]) && line[1] == '=' && '\n' !in line
    ensures var identifier := StripRight(lib.isSpace, line[2..]);
      && StripRight(lib.isSpace, line) == [line[0], '='] + identifier
      && '\n' !in identifier && StripRight(lib.isSpace, identifier) == identifier
  {
    hide StripRight, IsLib;
    PlainCharacters(lib);
    var front, back := [line[0], '='], line[2..];
    assert line == front + back;
    StripRightAfter(lib.isSpace, front, back);
    StrippedInside(lib, back, '\n');
  }

  lemma CanonicalOfIndexed(lib: Lib, uris: Uris, text: string)
    requires IsLib(lib) && !("nsu=" <= text) && ReadIndexed(text).Some?
    ensures var kind, identifier := ValueIn(lib, text).0, ValueIn(lib, text).1;
      && IsKind(kind) && '\n' !in identifier && StripRight(lib.isSpace, identifier) == identifier
      && Canonical(lib, uris, text) ==
           match Normalized(lib, kind, identifier)
           case None => None
           case Some(value) => Some(Show(NodeId(Located(uris, Index(ReadIndexed(text).value.0)), kind, value)))
  {
    hide Strip, StripRight, Normalized, Show, ReadNamespace, Located, ReadIndex;
    StripIndexed(lib, text);
    StripLine(lib, ReadIndexed(text).value.1);
    var line := StripRight(lib.isSpace, ReadIndexed(text).value.1);
    assert line[2..] == ValueIn(lib, text).1;
  }

  lemma CanonicalOfShown(lib: Lib, uris: Uris, uri: string, kind: char, identifier: string)
    requires IsLib(lib) && uri != "" && IsKind(kind) && '\n' !in identifier
      && StripRight(lib.isSpace, identifier) == identifier
    ensures var shown := Show(NodeId(Uri(uri), kind, identifier));
      Canonical(lib, uris, shown) ==
      if ';' in uri then (if ReadsBack(uri) then Some(shown) else None)
      else match Normalized(lib, kind, identifier) {
        case None => None
        case Some(value) => Some(Show(NodeId(Uri(uri), kind, value)))
      }
  {
    hide Strip, StripRight, Normalized, Show, Read, ReadsBack;
    var id := NodeId(Uri(uri), kind, identifier);
    if ';' in uri {
      ShownWithSemicolon(lib, uris, uri, kind, identifier);
    } else {
      ShownIsStripped(lib, id);
      ReadShown(id);
    }
  }

  lemma StripExpanded(lib: Lib, uri: string, line: string)
    requires IsLib(lib) && |line| > 2 && IsKind(line[0]) && line[1] == '=' && '\n' !in line
    ensures Strip(lib.isSpace, "nsu=" + uri + ";" + line) ==
      Show(NodeId(Uri(uri), line[0], StripRight(lib.isSpace, line[2..])))
  {
    hide StripRight;
    var prefix := "nsu=" + uri + ";";
    assert (prefix + line)[0] == 'n' && prefix[|prefix| - 1] == ';';
    StripRightAfter(lib.isSpace, prefix, line);
    StripLine(lib, line);
  }

  lemma SameShown(namespace: Namespace, kind: char, a: string, b: string)
    ensures Show(NodeId(namespace, kind, a)) == Show(NodeId(namespace, kind, b)) <==> a == b
  {
    var n := |Prefix(namespace)|;
    assert Show(NodeId(namespace, kind, a))[n + 2..] == a && Show(NodeId(namespace, kind, b))[n + 2..] == b;
  }

  // The indexed and the expanded form of a text have the same canonical form exactly where the URI agrees with
  // the value; a URI without a semicolon always does.
  lemma FormsAgreeIff(lib: Lib, infos: seq<string>, text: string)
    requires IsLib(lib)
    ensures FormsAgree(lib, infos, text) <==>
      (ExpandsBy(infos, text).Some? ==>
        Agrees(lib, ExpandsBy(infos, text).value, ValueIn(lib, text).0, ValueIn(lib, text).1))
  {
    hide ReadIndexed, Strip, StripRight, Normalized, Show, Canonical, ReadsBack;
    if ExpandsBy(infos, text).Some? {
      var uri := ExpandsBy(infos, text).value;
      var kind, identifier := ValueIn(lib, text).0, ValueIn(lib, text).1;
      var n, line := ReadIndexed(text).value.0, ReadIndexed(text).value.1;
      StandardIsPlain();
      CanonicalOfIndexed(lib, UrisOf(infos), text);
      assert Located(UrisOf(infos), Index(n)) == Uri(uri) by {
        assert n != 0 ==> n in UrisOf(infos);
      }
      IndexedLine(text);
      StripExpanded(lib, uri, line);
      SameCanonical(lib, UrisOf(infos), Expanded(infos, text), NodeId(Uri(uri), kind, identifier));
      CanonicalOfShown(lib, UrisOf(infos), uri, kind, identifier);
      var value := Normalized(lib, kind, identifier);
      if value.Some? {
        SameShown(Uri(uri), kind, identifier, value.value);
      }
    }
  }

  lemma IndexedLine(text: string)
    requires ReadIndexed(text).Some?
    ensures var line := ReadIndexed(text).value.1; |line| > 2 && IsKind(line[0]) && line[1] == '=' && '\n' !in line
  {
  }

  lemma SameCanonical(lib: Lib, uris: Uris, text: string, id: NodeId)
    requires IsLib(lib) && StripRight(lib.isSpace, id.identifier) == id.identifier
      && Strip(lib.isSpace, text) == Show(id)
    ensures Canonical(lib, uris, text) == Canonical(lib, uris, Show(id))
  {
    hide Strip, StripRight, Show;
    ShownIsStripped(lib, id);
  }

  lemma PlainInfos(infos: seq<string>)
    ensures PlainUris(UrisOf(infos)) <==> forall n :: 0 < n < |infos| ==> ';' !in infos[n]
  {
    forall n: nat | 0 < n < |infos| && ';' in infos[n] ensures n in UrisOf(infos) {}
  }

  // The indexed and the expanded form of one node have the same canonical form.
  lemma CanonicalOfExpanded(lib: Lib, infos: seq<string>, text: string)
    requires IsLib(lib) && PlainUris(UrisOf(infos))
    ensures Canonical(lib, UrisOf(infos), Expanded(infos, text)) == Canonical(lib, UrisOf(infos), text)
  {
    hide ReadIndexed, Canonical, Expanded, ValueIn, Normalized;
    PlainInfos(infos);
    FormsAgreeIff(lib, infos, text);
    StandardIsPlain();
  }

  // A text whose two forms a URI with a semicolon drives apart.
  function DividingText(uri: string, n: nat): string {
    "ns=" + ToText(n) + ";" + if ReadsBack(uri) then "i=07" else "s=0"
  }

  lemma ReadDividing(n: nat, line: string)
    requires |line| > 2 && IsKind(line[0]) && line[1] == '=' && '\n' !in line
    ensures !("nsu=" <= "ns=" + ToText(n) + ";" + line)
      && ReadIndexed("ns=" + ToText(n) + ";" + line) == Some((n, line))
  {
    hide ToText, ToInt, Partition;
    var text := "ns=" + ToText(n) + ";" + line;
    assert text[3..] == ToText(n) + ";" + line && text[2] == '=';
    DigitsHoldNoSemicolon(ToText(n));
    PartitionAt(ToText(n), line);
    IntOfText(n);
    assert Line(line) == line;
  }

  lemma DividingValue(lib: Lib, uri: string)
    requires IsLib(lib)
    ensures !lib.isSpace('0') && !lib.isSpace('7')
    ensures StripRight(lib.isSpace, "i=07"[2..]) == "07" && StripRight(lib.isSpace, "s=0"[2..]) == "0"
    ensures Normalized(lib, 'i', "07") != Some("07") && Normalized(lib, 's', "0") != None
  {
    assert "i=07"[2..] == "07" && "s=0"[2..] == "0";
    assert "07"[..1] == "0" && "0"[..0] == "";
    assert ToInt("0") == 0 && ToInt("07") == 7;
  }

  // With a semicolon in its namespace URI, a node can have two canonical forms, or one form that has none.
  lemma SemicolonSplitsANode(lib: Lib, infos: seq<string>, n: nat)
    requires IsLib(lib) && 0 < n < |infos| && ';' in infos[n]
    ensures !FormsAgree(lib, infos, DividingText(infos[n], n))
  {
    hide ToText, ReadIndexed, ReadsBack, Canonical, Normalized, StripRight;
    var line := if ReadsBack(infos[n]) then "i=07" else "s=0";
    var text := DividingText(infos[n], n);
    assert IsKind(line[0]) && line[1] == '=' && '\n' !in line;
    ReadDividing(n, line);
    assert text == "ns=" + ToText(n) + ";" + line;
    DividingValue(lib, infos[n]);
    assert ExpandsBy(infos, text) == Some(infos[n]);
    FormsAgreeIff(lib, infos, text);
  }

  // Over some namespaces every node has one canonical form, however it is written, exactly if no URI that an index
  // can name holds a semicolon.
  lemma AllFormsAgreeIff(lib: Lib, infos: seq<string>)
    requires IsLib(lib)
    ensures (forall text :: FormsAgree(lib, infos, text)) <==> PlainUris(UrisOf(infos))
  {
    hide Canonical, Expanded;
    PlainInfos(infos);
    if PlainUris(UrisOf(infos)) {
      forall text ensures FormsAgree(lib, infos, text) { CanonicalOfExpanded(lib, infos, text); }
    } else {
      var n :| 0 < n < |infos| && ';' in infos[n];
      SemicolonSplitsANode(lib, infos, n);
    }
  }
}
