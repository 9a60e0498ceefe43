// What a NodeId text says, and when two texts have one canonical form: exactly if they say the same node.
module NodeIdSenses {
  import opened Options
  import opened Texts
  import opened NodeIds

  // ----- The texts that say something -----

  // The namespace by its URI where that is known, the kind of identifier and the identifier as it is written.
  datatype Sense = Sense(place: Namespace, kind: char, identifier: string)

  ghost predicate AllSpace(lib: Lib, s: string) {
    forall i :: 0 <= i < |s| ==> lib.isSpace(s[i])
  }

  // The text is core with white space around it.
  ghost predicate IsCore(lib: Lib, text: string, core: string) {
    && core != "" && !lib.isSpace(core[0]) && !lib.isSpace(core[|core| - 1])
    && exists lead, trail :: AllSpace(lib, lead) && AllSpace(lib, trail) && text == lead + (core + trail)
  }

  // A digit with n digits behind it.
  function Placed(digit: nat, n: nat): nat { if n == 0 then digit else 10 * Placed(digit, n - 1) }

  // The number that decimal digits stand for, each by its place.
  function Number(digits: string): nat
    requires forall i :: 0 <= i < |digits| ==> '0' <= digits[i] <= '9'
  {
    if digits == "" then 0
    else Placed(digits[0] as int - '0' as int, |digits| - 1) + Number(digits[1..])
  }

  ghost predicate NamesUri(core: string, uri: string, kind: char, identifier: string) {
    core == "nsu=" + uri + ";" + ([kind, '='] + identifier) && uri != "" && ';' !in uri
  }

  ghost predicate NamesIndex(core: string, n: nat, kind: char, identifier: string) {
    || (n == 0 && core == [kind, '='] + identifier)
    || exists digits :: IsDigits(digits) && Number(digits) == n
                        && core == "ns=" + digits + ";" + ([kind, '='] + identifier)
  }

  function PlaceOf(uris: Uris, n: nat): Namespace {
    if n == 0 then Uri("http://opcfoundation.org/UA/")
    else if n in uris && uris[n] != "" then Uri(uris[n])
    else Index(n)
  }

  ghost predicate CoreMeans(uris: Uris, core: string, s: Sense) {
    && s.kind in {'i', 's', 'g', 'b'} && '\n' !in s.identifier
    && ((exists uri :: NamesUri(core, uri, s.kind, s.identifier) && s.place == Uri(uri))
        || exists n :: NamesIndex(core, n, s.kind, s.identifier) && s.place == PlaceOf(uris, n))
  }

  ghost predicate Means(lib: Lib, uris: Uris, text: string, s: Sense) {
    exists core :: IsCore(lib, text, core) && CoreMeans(uris, core, s)
  }

  ghost predicate IsValid(lib: Lib, s: Sense) {
    match s.kind
    case 'i' => IsDigits(s.identifier) && Number(s.identifier) <= 4294967295
    case 'g' => lib.guid(s.identifier).Some?
    case _ => true
  }

  // The same node: numbers and GUIDs by their value, texts letter by letter.
  ghost predicate SameNode(lib: Lib, s: Sense, t: Sense) {
    && s.place == t.place && s.kind == t.kind
    && match s.kind
       case 'i' =>
         IsDigits(s.identifier) && IsDigits(t.identifier) && Number(s.identifier) == Number(t.identifier)
       case 'g' => lib.guid(s.identifier) == lib.guid(t.identifier)
       case _ => s.identifier == t.identifier
  }

  // ----- Reading agrees with meaning -----

  lemma {:induction false} NumberIsToInt(s: string)
    requires forall i :: 0 <= i < |s| ==> '0' <= s[i] <= '9'
    ensures Number(s) == ToInt(s)
    decreases |s|
  {
    if |s| == 1 {
      assert s[1..] == "" && s[..0] == "";
    } else if s != "" {
      var init, d := s[..|s| - 1], s[|s| - 1];
      NumberIsToInt(s[1..]);
      NumberIsToInt(init);
      var middle := s[1..|s| - 1];
      NumberIsToInt(middle);
      assert s[1..][..|s| - 2] == middle && init[1..] == middle;
      assert ToInt(s[1..]) == 10 * ToInt(middle) + (d as int - '0' as int);
      assert Number(init) == Placed(s[0] as int - '0' as int, |s| - 2) + Number(middle);
    }
  }

  lemma CoreIsStripped(lib: Lib, text: string, core: string)
    requires IsCore(lib, text, core)
    ensures Strip(lib.isSpace, text) == core
  {
    var lead, trail :| AllSpace(lib, lead) && AllSpace(lib, trail) && text == lead + (core + trail);
    StripLeftSpace(lib.isSpace, lead, core + trail);
    assert StripLeft(lib.isSpace, core + trail) == core + trail;
    StripRightAfter(lib.isSpace, core, trail);
    StripRightSpace(lib.isSpace, trail);
    assert core + "" == core;
  }

  lemma {:induction false} StripLeftSplits(lib: Lib, text: string) returns (lead: string)
    ensures AllSpace(lib, lead) && text == lead + StripLeft(lib.isSpace, text)
    ensures var rest := StripLeft(lib.isSpace, text); rest != "" ==> !lib.isSpace(rest[0])
  {
    if text != "" && lib.isSpace(text[0]) {
      var front := StripLeftSplits(lib, text[1..]);
      lead := [text[0]] + front;
      assert text == [text[0]] + text[1..];
    } else {
      lead := "";
    }
  }

  lemma {:induction false} StripRightSplits(lib: Lib, text: string) returns (trail: string)
    ensures AllSpace(lib, trail) && text == StripRight(lib.isSpace, text) + trail
  {
    if text != "" && lib.isSpace(text[|text| - 1]) {
      var back := StripRightSplits(lib, text[..|text| - 1]);
      trail := back + [text[|text| - 1]];
      assert text == text[..|text| - 1] + [text[|text| - 1]];
    } else {
      trail := "";
    }
  }

  lemma StrippedIsCore(lib: Lib, text: string)
    requires Strip(lib.isSpace, text) != ""
    ensures IsCore(lib, text, Strip(lib.isSpace, text))
  {
    hide StripLeft, StripRight;
    var lead := StripLeftSplits(lib, text);
    var rest := StripLeft(lib.isSpace, text);
    var trail := StripRightSplits(lib, rest);
    var core := Strip(lib.isSpace, text);
    StrippedEnds(lib.isSpace, rest);
    assert rest[0] == core[0];
    assert text == lead + (core + trail);
  }

  lemma BlankIsSpace(lib: Lib, text: string)
    ensures Strip(lib.isSpace, text) == "" <==> AllSpace(lib, text)
  {
    hide StripLeft, StripRight;
    var lead := StripLeftSplits(lib, text);
    var trail := StripRightSplits(lib, StripLeft(lib.isSpace, text));
    if AllSpace(lib, text) {
      StripLeftSpace(lib.isSpace, text, "");
      assert text + "" == text;
      NothingStripped(lib);
    }
    if Strip(lib.isSpace, text) == "" {
      assert text == lead + trail;
    }
  }

  lemma NothingStripped(lib: Lib)
    ensures StripLeft(lib.isSpace, "") == "" && StripRight(lib.isSpace, "") == ""
  {
  }

  ghost function SenseOf(uris: Uris, id: NodeId): Sense {
    Sense(Located(uris, id.namespace), id.kind, id.identifier)
  }

  lemma LocatedIsPlace(uris: Uris, n: nat)
    ensures Located(uris, Index(n)) == PlaceOf(uris, n)
  {
  }

  lemma ReadsIdentifier(namespace: Namespace, kind: char, identifier: string, text: string)
    ensures ReadIdentifier(namespace, text) == Some(NodeId(namespace, kind, identifier)) <==>
      text == [kind, '='] + identifier && IsKind(kind) && '\n' !in identifier
  {
    if |text| >= 2 {
      assert text == [text[0], text[1]] + text[2..];
    }
    assert ([kind, '='] + identifier)[2..] == identifier;
  }

  lemma ReadsUri(uris: Uris, core: string, uri: string, kind: char, identifier: string)
    requires NamesUri(core, uri, kind, identifier) && IsKind(kind) && '\n' !in identifier
    ensures Read(core) == Some(NodeId(Uri(uri), kind, identifier))
  {
    hide ReadIdentifier, Partition;
    assert core[4..] == uri + ";" + ([kind, '='] + identifier);
    PartitionAt(uri, [kind, '='] + identifier);
    ReadsIdentifier(Uri(uri), kind, identifier, [kind, '='] + identifier);
  }

  lemma ReadsIndex(core: string, n: nat, kind: char, identifier: string)
    requires NamesIndex(core, n, kind, identifier) && IsKind(kind) && '\n' !in identifier
    ensures Read(core) == Some(NodeId(Index(n), kind, identifier))
  {
    hide ReadIdentifier, Partition;
    ReadsIdentifier(Index(n), kind, identifier, [kind, '='] + identifier);
    if n == 0 && core == [kind, '='] + identifier {
      assert core[1] == '=';
    } else {
      var digits :| IsDigits(digits) && Number(digits) == n
                    && core == "ns=" + digits + ";" + ([kind, '='] + identifier);
      assert core[3..] == digits + ";" + ([kind, '='] + identifier);
      assert core[2] == '=';
      DigitsHoldNoSemicolon(digits);
      PartitionAt(digits, [kind, '='] + identifier);
      NumberIsToInt(digits);
    }
  }

  // What is read from a text says what the text says.
  lemma ReadNames(core: string)
    requires Read(core).Some?
    ensures var id := Read(core).value;
      && IsKind(id.kind) && '\n' !in id.identifier
      && match id.namespace
         case Uri(uri) => NamesUri(core, uri, id.kind, id.identifier)
         case Index(n) => NamesIndex(core, n, id.kind, id.identifier)
  {
    hide ReadIdentifier, Partition, ToInt, Number;
    var id := Read(core).value;
    var rest := ReadNamespace(core).value.1;
    ReadIdentifierIs(ReadNamespace(core).value.0, rest, id);
    if "nsu=" <= core {
      PartitionSplits(core[4..]);
      assert core == "nsu=" + core[4..];
    } else if "ns=" <= core {
      PartitionSplits(core[3..]);
      assert core == "ns=" + core[3..];
      if rest != core {
        var digits := Partition(core[3..]).value.0;
        assert ReadIndex(core) == (ToInt(digits), rest);
        NumberIsToInt(digits);
        assert core == "ns=" + digits + ";" + ([id.kind, '='] + id.identifier);
      }
    }
  }

  lemma ReadIdentifierIs(namespace: Namespace, text: string, id: NodeId)
    requires ReadIdentifier(namespace, text) == Some(id)
    ensures id.namespace == namespace && IsKind(id.kind) && '\n' !in id.identifier
    ensures text == [id.kind, '='] + id.identifier
  {
    ReadsIdentifier(namespace, id.kind, id.identifier, text);
  }

  lemma MeansWhatIsRead(lib: Lib, uris: Uris, text: string, s: Sense)
    ensures Means(lib, uris, text, s) <==>
      Read(Strip(lib.isSpace, text)).Some? && s == SenseOf(uris, Read(Strip(lib.isSpace, text)).value)
  {
    hide Read, Strip, NamesUri, NamesIndex, Located;
    var stripped := Strip(lib.isSpace, text);
    if Means(lib, uris, text, s) {
      var core :| IsCore(lib, text, core) && CoreMeans(uris, core, s);
      CoreIsStripped(lib, text, core);
      CoreReads(uris, core, s);
    }
    if Read(stripped).Some? && s == SenseOf(uris, Read(stripped).value) {
      ReadNames(stripped);
      NothingIsRead();
      StrippedIsCore(lib, text);
      var id := Read(stripped).value;
      if id.namespace.Index? {
        LocatedIsPlace(uris, id.namespace.index);
      } else {
        UriIsLocated(uris, id.namespace);
      }
      assert CoreMeans(uris, stripped, s);
    }
  }

  lemma UriIsLocated(uris: Uris, namespace: Namespace)
    requires namespace.Uri?
    ensures Located(uris, namespace) == namespace
  {
  }

  lemma NothingIsRead()
    ensures Read("") == None
  {
  }

  lemma CoreReads(uris: Uris, core: string, s: Sense)
    requires CoreMeans(uris, core, s)
    ensures Read(core).Some? && s == SenseOf(uris, Read(core).value)
  {
    hide Read, NamesUri, NamesIndex;
    if uri :| NamesUri(core, uri, s.kind, s.identifier) && s.place == Uri(uri) {
      ReadsUri(uris, core, uri, s.kind, s.identifier);
    } else {
      var n :| NamesIndex(core, n, s.kind, s.identifier) && s.place == PlaceOf(uris, n);
      ReadsIndex(core, n, s.kind, s.identifier);
      LocatedIsPlace(uris, n);
    }
  }

  // A text says at most one thing.
  lemma OneSense(lib: Lib, uris: Uris, text: string, s: Sense, t: Sense)
    requires Means(lib, uris, text, s) && Means(lib, uris, text, t)
    ensures s == t
  {
    MeansWhatIsRead(lib, uris, text, s);
    MeansWhatIsRead(lib, uris, text, t);
  }

  // ----- The canonical form -----

  // The identifier in its normal form.
  ghost predicate IsNormalOf(lib: Lib, s: Sense, normal: string) {
    match s.kind
    case 'i' => IsDigits(s.identifier) && normal == ToText(Number(s.identifier))
    case 'g' => lib.guid(s.identifier) == Some(normal)
    case _ => normal == s.identifier
  }

  lemma NormalizedIff(lib: Lib, s: Sense)
    requires IsKind(s.kind)
    ensures Normalized(lib, s.kind, s.identifier).Some? <==> IsValid(lib, s)
    ensures IsValid(lib, s) ==> IsNormalOf(lib, s, Normalized(lib, s.kind, s.identifier).value)
  {
    if IsDigits(s.identifier) {
      NumberIsToInt(s.identifier);
    }
  }

  lemma SameNormal(lib: Lib, s: Sense, t: Sense, a: string, b: string)
    requires IsNormalOf(lib, s, a) && IsNormalOf(lib, t, b) && s.kind == t.kind && s.place == t.place
    ensures a == b <==> SameNode(lib, s, t)
  {
    hide ToText, Number;
    if s.kind == 'i' {
      IntOfText(Number(s.identifier));
      IntOfText(Number(t.identifier));
    }
  }

  lemma CanonicalOfSense(lib: Lib, uris: Uris, text: string, s: Sense)
    requires IsLib(lib) && Means(lib, uris, text, s)
    ensures Canonical(lib, uris, text).Some? <==> IsValid(lib, s)
    ensures IsKind(s.kind)
    ensures IsValid(lib, s) ==>
      var normal := Normalized(lib, s.kind, s.identifier);
      && normal.Some? && IsNormalOf(lib, s, normal.value)
      && Canonical(lib, uris, text) == Some(Show(NodeId(s.place, s.kind, normal.value)))
      && '\n' !in normal.value && StripRight(lib.isSpace, normal.value) == normal.value
  {
    hide Read, Show, Normalized, StripRight, IsNormalOf, IsValid, Means, StripLeft;
    MeansWhatIsRead(lib, uris, text, s);
    var stripped := Strip(lib.isSpace, text);
    StrippedEnds(lib.isSpace, StripLeft(lib.isSpace, text));
    ReadIsReadable(lib, stripped);
    NormalizedIff(lib, s);
    if IsValid(lib, s) {
      NormalizedOnce(lib, s.kind, s.identifier);
    }
  }

  // A canonical form is defined exactly for the texts that say a node with a valid identifier.
  lemma CanonicalIsDefinedIff(lib: Lib, uris: Uris, text: string)
    requires IsLib(lib)
    ensures Canonical(lib, uris, text).Some? <==> exists s :: Means(lib, uris, text, s) && IsValid(lib, s)
  {
    hide Canonical, Means, IsValid;
    if Canonical(lib, uris, text).Some? {
      var s := CanonicalHasSense(lib, uris, text);
      CanonicalOfSense(lib, uris, text, s);
    }
    if s :| Means(lib, uris, text, s) && IsValid(lib, s) {
      CanonicalOfSense(lib, uris, text, s);
    }
  }

  lemma CanonicalHasSense(lib: Lib, uris: Uris, text: string) returns (s: Sense)
    requires Canonical(lib, uris, text).Some?
    ensures Means(lib, uris, text, s)
  {
    hide Read, Strip, Means;
    s := SenseOf(uris, Read(Strip(lib.isSpace, text)).value);
    MeansWhatIsRead(lib, uris, text, s);
  }

  // The places of nodes are plain unless a namespace URI that an index names is not.
  lemma PlaceIsPlain(lib: Lib, uris: Uris, text: string, s: Sense)
    requires Means(lib, uris, text, s)
    ensures s.place.Uri? ==> s.place.uri != ""
    ensures s.place.Uri? && ';' in s.place.uri ==> exists n :: n != 0 && n in uris && uris[n] == s.place.uri
  {
    hide NamesIndex;
    var core :| IsCore(lib, text, core) && CoreMeans(uris, core, s);
    StandardIsPlain();
  }

  // Without semicolons in the namespace URIs two texts have one canonical form exactly if both say a node with a valid
  // identifier, and the same one.
  lemma SameCanonicalIff(lib: Lib, uris: Uris, a: string, b: string, s: Sense, t: Sense)
    requires IsLib(lib) && PlainUris(uris) && Means(lib, uris, a, s) && Means(lib, uris, b, t)
    ensures Canonical(lib, uris, a).Some? && Canonical(lib, uris, a) == Canonical(lib, uris, b) <==>
      IsValid(lib, s) && IsValid(lib, t) && SameNode(lib, s, t)
  {
    hide Canonical, Means, IsValid, SameNode, IsNormalOf, Normalized, Show, StripRight;
    CanonicalOfSense(lib, uris, a, s);
    CanonicalOfSense(lib, uris, b, t);
    if IsValid(lib, s) && IsValid(lib, t) {
      PlaceIsPlain(lib, uris, a, s);
      PlaceIsPlain(lib, uris, b, t);
      var x := NodeId(s.place, s.kind, Normalized(lib, s.kind, s.identifier).value);
      var y := NodeId(t.place, t.kind, Normalized(lib, t.kind, t.identifier).value);
      ReadShown(x);
      ReadShown(y);
      if s.place == t.place && s.kind == t.kind {
        SameNormal(lib, s, t, x.identifier, y.identifier);
      } else {
        OtherNode(lib, s, t);
      }
    }
  }

  lemma OtherNode(lib: Lib, s: Sense, t: Sense)
    requires s.place != t.place || s.kind != t.kind
    ensures !SameNode(lib, s, t)
  {
  }

  // The canonical form says the node that the text says, by its namespace URI where that is known.
  lemma CanonicalSaysTheSame(lib: Lib, uris: Uris, text: string, s: Sense)
    requires IsLib(lib) && PlainUris(uris) && Means(lib, uris, text, s) && IsValid(lib, s)
    ensures Canonical(lib, uris, text).Some?
    ensures var c := Canonical(lib, uris, text).value;
      && (exists t :: Means(lib, uris, c, t) && IsValid(lib, t) && SameNode(lib, s, t))
      && (s.place.Uri? <==> "nsu=" <= c)
  {
    hide Canonical, Means, IsValid, SameNode, IsNormalOf, Normalized, StripRight;
    CanonicalOfSense(lib, uris, text, s);
    var c := Canonical(lib, uris, text).value;
    PlainUrisReadBack(lib, uris, text);
    CanonicalIsDefinedIff(lib, uris, c);
    var t :| Means(lib, uris, c, t) && IsValid(lib, t);
    SameCanonicalIff(lib, uris, text, c, s, t);
    ShownPrefix(NodeId(s.place, s.kind, Normalized(lib, s.kind, s.identifier).value));
  }

  lemma ShownPrefix(id: NodeId)
    ensures id.namespace.Uri? <==> "nsu=" <= Show(id)
  {
    assert Show(id)[2] == if id.namespace.Uri? then 'u' else '=';
  }

  // ----- When different nodes share a canonical form -----

  // A namespace URI goes on behind another namespace's URI like a string or ByteString identifier.
  ghost predicate SplitsAt(uris: Uris, n: nat, v: string, kind: char, tail: string) {
    && n != 0 && n in uris && uris[n] == v + ";" + ([kind, '='] + tail)
    && (kind == 's' || kind == 'b') && v != "" && '\n' !in tail
    && (';' !in v || exists m :: m != 0 && m in uris && uris[m] == v)
  }

  ghost predicate SomeUriSplits(uris: Uris) {
    exists n, v, kind, tail :: SplitsAt(uris, n, v, kind, tail)
  }

  // Different nodes have different canonical forms.
  ghost predicate KeepsNodesApart(lib: Lib, uris: Uris) {
    forall a, b, s, t ::
      && Means(lib, uris, a, s) && Means(lib, uris, b, t)
      && Canonical(lib, uris, a).Some? && Canonical(lib, uris, a) == Canonical(lib, uris, b)
      ==> SameNode(lib, s, t)
  }

  // Where the shown forms of two namespaces coincide, the longer URI goes on behind the shorter one.
  lemma LongerGoesOn(u: string, k: char, i: string, v: string, l: char, j: string)
    requires "nsu=" + u + ";" + ([k, '='] + i) == "nsu=" + v + ";" + ([l, '='] + j)
    requires |v| < |u| && IsKind(l)
    ensures |u| >= |v| + 3 && u == v + ";" + ([l, '='] + u[|v| + 3..])
    ensures j == u[|v| + 3..] + ";" + ([k, '='] + i)
  {
    var left, right := u + ";" + ([k, '='] + i), v + ";" + ([l, '='] + j);
    assert left == ("nsu=" + u + ";" + ([k, '='] + i))[4..] == right;
    assert u == left[..|u|] == right[..|u|];
    assert right[|v|] == ';' && right[|v| + 1] == l && right[|v| + 2] == '=';
    assert left[|u|] == ';';
    assert right[|v| + 3..] == j;
    assert left[|v| + 3..] == u[|v| + 3..] + ";" + ([k, '='] + i);
  }

  lemma SameUriSameShown(u: string, k: char, i: string, v: string, l: char, j: string)
    requires "nsu=" + u + ";" + ([k, '='] + i) == "nsu=" + v + ";" + ([l, '='] + j)
    requires |v| == |u|
    ensures u == v && k == l && i == j
  {
    var left, right := u + ";" + ([k, '='] + i), v + ";" + ([l, '='] + j);
    assert left == ("nsu=" + u + ";" + ([k, '='] + i))[4..] == right;
    assert u == left[..|u|] && v == right[..|v|];
    assert left[|u| + 1] == k && right[|v| + 1] == l;
    assert left[|u| + 3..] == i && right[|v| + 3..] == j;
  }

  // The normal form of a number or a GUID holds no semicolon.
  lemma NormalWithSemicolon(lib: Lib, s: Sense, normal: string)
    requires IsLib(lib) && IsKind(s.kind) && IsNormalOf(lib, s, normal)
    ensures s.kind == 's' || s.kind == 'b' || ';' !in normal
  {
    if s.kind == 'i' {
      DigitsHoldNoSemicolon(ToText(Number(s.identifier)));
    }
  }

  // A clash of two shown forms, of which s has the longer URI, shows where that URI splits.
  lemma ClashSplits(lib: Lib, uris: Uris, a: string, b: string, s: Sense, t: Sense, i: string, j: string)
    requires IsLib(lib) && Means(lib, uris, a, s) && Means(lib, uris, b, t)
    requires IsKind(t.kind) && IsNormalOf(lib, t, j) && '\n' !in j
    requires s.place.Uri? && t.place.Uri? && |t.place.uri| < |s.place.uri|
    requires Show(NodeId(s.place, s.kind, i)) == Show(NodeId(t.place, t.kind, j))
    ensures SomeUriSplits(uris)
  {
    hide Means, IsNormalOf, IsLib;
    var u, v := s.place.uri, t.place.uri;
    PlaceIsPlain(lib, uris, a, s);
    PlaceIsPlain(lib, uris, b, t);
    LongerGoesOn(u, s.kind, i, v, t.kind, j);
    var tail := u[|v| + 3..];
    assert u[|v|] == ';';
    assert j[|tail|] == ';';
    NormalWithSemicolon(lib, t, j);
    var n :| n != 0 && n in uris && uris[n] == u;
    assert forall c :: c in tail ==> c in j;
    assert SplitsAt(uris, n, v, t.kind, tail);
  }

  lemma ApartUnlessSplit(lib: Lib, uris: Uris, a: string, b: string, s: Sense, t: Sense)
    requires IsLib(lib) && Means(lib, uris, a, s) && Means(lib, uris, b, t) && !SomeUriSplits(uris)
    requires Canonical(lib, uris, a).Some? && Canonical(lib, uris, a) == Canonical(lib, uris, b)
    ensures SameNode(lib, s, t)
  {
    hide Canonical, Means, IsValid, SameNode, IsNormalOf, Normalized, Show, StripRight, SomeUriSplits;
    CanonicalOfSense(lib, uris, a, s);
    CanonicalOfSense(lib, uris, b, t);
    var i, j := Normalized(lib, s.kind, s.identifier).value, Normalized(lib, t.kind, t.identifier).value;
    var x, y := NodeId(s.place, s.kind, i), NodeId(t.place, t.kind, j);
    ShownPrefix(x);
    ShownPrefix(y);
    if s.place.Uri? {
      if |t.place.uri| < |s.place.uri| {
        ClashSplits(lib, uris, a, b, s, t, i, j);
      } else if |s.place.uri| < |t.place.uri| {
        ClashSplits(lib, uris, b, a, t, s, j, i);
      } else {
        ShownUri(x);
        ShownUri(y);
        SameUriSameShown(s.place.uri, s.kind, i, t.place.uri, t.kind, j);
        SameNormal(lib, s, t, i, j);
      }
    } else {
      ReadShown(x);
      ReadShown(y);
      SameNormal(lib, s, t, i, j);
    }
  }

  lemma ShownUri(id: NodeId)
    requires id.namespace.Uri?
    ensures Show(id) == "nsu=" + id.namespace.uri + ";" + ([id.kind, '='] + id.identifier)
  {
  }

  // The text that names index n and an identifier.
  lemma IndexedMeans(lib: Lib, uris: Uris, n: nat, kind: char, identifier: string)
    requires IsLib(lib) && IsKind(kind) && '\n' !in identifier && identifier != ""
    requires !lib.isSpace(identifier[|identifier| - 1])
    ensures Means(lib, uris, "ns=" + ToText(n) + ";" + ([kind, '='] + identifier),
                  Sense(PlaceOf(uris, n), kind, identifier))
  {
    var core := "ns=" + ToText(n) + ";" + ([kind, '='] + identifier);
    IntOfText(n);
    NumberIsToInt(ToText(n));
    assert NamesIndex(core, n, kind, identifier);
    assert "" + (core + "") == core && AllSpace(lib, "");
    assert core[0] == 'n' && core[|core| - 1] == identifier[|identifier| - 1];
    assert IsCore(lib, core, core);
  }

  lemma UriMeans(lib: Lib, uris: Uris, uri: string, kind: char, identifier: string)
    requires IsLib(lib) && IsKind(kind) && '\n' !in identifier && identifier != "" && uri != "" && ';' !in uri
    requires !lib.isSpace(identifier[|identifier| - 1])
    ensures Means(lib, uris, "nsu=" + uri + ";" + ([kind, '='] + identifier), Sense(Uri(uri), kind, identifier))
  {
    var core := "nsu=" + uri + ";" + ([kind, '='] + identifier);
    assert NamesUri(core, uri, kind, identifier);
    assert "" + (core + "") == core && AllSpace(lib, "");
    assert core[0] == 'n' && core[|core| - 1] == identifier[|identifier| - 1];
    assert IsCore(lib, core, core);
  }

  // Two nodes whose canonical forms coincide, where a URI splits.
  lemma SplitJoinsNodes(lib: Lib, uris: Uris, n: nat, v: string, kind: char, tail: string)
    returns (a: string, b: string, s: Sense, t: Sense)
    requires IsLib(lib) && SplitsAt(uris, n, v, kind, tail)
    ensures Means(lib, uris, a, s) && Means(lib, uris, b, t) && !SameNode(lib, s, t)
    ensures Canonical(lib, uris, a).Some? && Canonical(lib, uris, a) == Canonical(lib, uris, b)
  {
    hide Canonical, Means, StripRight, ToText, Normalized;
    var identifier := tail + ";" + "i=7";
    assert identifier[|identifier| - 1] == '7' && "7"[|"7"| - 1] == '7';
    a, s := "ns=" + ToText(n) + ";" + (['i', '='] + "7"), Sense(Uri(uris[n]), 'i', "7");
    t := Sense(Uri(v), kind, identifier);
    IndexedMeans(lib, uris, n, 'i', "7");
    if ';' !in v {
      b := "nsu=" + v + ";" + ([kind, '='] + identifier);
      UriMeans(lib, uris, v, kind, identifier);
    } else {
      var m :| m != 0 && m in uris && uris[m] == v;
      b := "ns=" + ToText(m) + ";" + ([kind, '='] + identifier);
      IndexedMeans(lib, uris, m, kind, identifier);
    }
    CanonicalOfSense(lib, uris, a, s);
    CanonicalOfSense(lib, uris, b, t);
    SevenIsValid(lib, s);
    NormalText(lib, t);
    assert "nsu=" + uris[n] + ";" + (['i', '='] + "7") == "nsu=" + v + ";" + ([kind, '='] + identifier);
  }

  lemma SevenIsValid(lib: Lib, s: Sense)
    requires s.kind == 'i' && s.identifier == "7"
    ensures IsValid(lib, s) && Normalized(lib, s.kind, s.identifier) == Some("7")
  {
    assert ToInt("7") == 7 by { assert "7"[..0] == ""; }
    NumberIsToInt("7");
    assert ToText(7) == "7";
  }

  lemma NormalText(lib: Lib, s: Sense)
    requires s.kind == 's' || s.kind == 'b'
    ensures IsValid(lib, s) && Normalized(lib, s.kind, s.identifier) == Some(s.identifier)
  {
  }

  // Canonical forms keep different nodes apart exactly if no namespace URI goes on behind another one like a string or
  // ByteString identifier.
  lemma NodesApartIff(lib: Lib, uris: Uris)
    requires IsLib(lib)
    ensures KeepsNodesApart(lib, uris) <==> !SomeUriSplits(uris)
  {
    hide Canonical, Means, SameNode, SplitsAt;
    if n, v, kind, tail :| SplitsAt(uris, n, v, kind, tail) {
      var a, b, s, t := SplitJoinsNodes(lib, uris, n, v, kind, tail);
    } else {
      forall a, b, s, t | && Means(lib, uris, a, s) && Means(lib, uris, b, t)
                          && Canonical(lib, uris, a).Some? && Canonical(lib, uris, a) == Canonical(lib, uris, b)
        ensures SameNode(lib, s, t)
      {
        ApartUnlessSplit(lib, uris, a, b, s, t);
      }
    }
  }
}
