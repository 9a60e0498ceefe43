// Conditional GET: entity tags from recorded revisions, and the middleware that answers 304.
module HttpCaching {
  import opened Options
  import opened Texts

  type Parts = map<string, string>

  // What the model takes from elsewhere: white space, and the hash of the sorted visible revisions.
  datatype Lib = Lib(isSpace: char -> bool, digest: Parts -> string)

  predicate IsHex(s: string) { forall i :: 0 <= i < |s| ==> '0' <= s[i] <= '9' || 'a' <= s[i] <= 'f' }

  ghost predicate IsLib(lib: Lib) {
    && lib.isSpace(' ') && lib.isSpace('\t')
    && (forall c :: c == '"' || c == 'W' || c == '*' ==> !lib.isSpace(c))
    && (forall parts :: IsHex(lib.digest(parts)))
  }

  // ----- Entity tags -----

  function Visible(parts: Parts): Parts {
    map name | name in parts && !("_" <= name) :: parts[name]
  }

  // record_revision: an empty revision is not recorded.
  function Recorded(parts: Parts, name: string, revision: string): Parts {
    if revision == "" then parts else parts[name := revision]
  }

  // representation_etag
  function Etag(lib: Lib, parts: Parts): Option<string> {
    if "_etag" !in parts || "_not_cacheable" in parts || Visible(parts) == map[] then None
    else Some("W/\"" + lib.digest(Visible(parts)) + "\"")
  }

  // _opaque_tag
  function Opaque(lib: Lib, tag: string): string {
    var stripped := Strip(lib.isSpace, tag);
    if "W/" <= stripped then stripped[2..] else stripped
  }

  // etag_matches
  function Matches(lib: Lib, ifNoneMatch: Option<string>, etag: string): bool {
    ifNoneMatch.Some? && ifNoneMatch.value != "" &&
    (Strip(lib.isSpace, ifNoneMatch.value) == "*" ||
     AnyOpaque(lib, Split(',', ifNoneMatch.value), Opaque(lib, etag)))
  }

  predicate AnyOpaque(lib: Lib, tags: seq<string>, expected: string) {
    exists i :: 0 <= i < |tags| && Opaque(lib, tags[i]) == expected
  }

  // ----- Weak comparison, sections 13.1.2 and 8.8.3.2 of RFC 9110 -----

  // An element of a list: white space around an entity tag, or white space only. The opaque part of the tag
  // is given without its quotes.
  datatype Element = Element(before: string, tag: Option<EntityTag>, after: string)
  datatype EntityTag = EntityTag(weak: bool, opaquePart: string)

  predicate IsOws(s: string) { forall i :: 0 <= i < |s| ==> s[i] == ' ' || s[i] == '\t' }

  // etagc: any visible character but the double quote, the comma included.
  predicate IsElement(e: Element) {
    IsOws(e.before) && IsOws(e.after) && (e.tag.Some? ==> '"' !in e.tag.value.opaquePart)
  }

  function TagText(t: EntityTag): string {
    (if t.weak then "W/" else "") + "\"" + t.opaquePart + "\""
  }

  function ElementText(e: Element): string {
    e.before + (if e.tag.Some? then TagText(e.tag.value) else "") + e.after
  }

  function ListText(elements: seq<Element>): string
    requires elements != []
  {
    Join(',', ElementTexts(elements))
  }

  function ElementTexts(elements: seq<Element>): seq<string> {
    seq(|elements|, i requires 0 <= i < |elements| => ElementText(elements[i]))
  }

  function Quotes(s: string): nat {
    if s == "" then 0 else (if s[0] == '"' then 1 else 0) + Quotes(s[1..])
  }

  lemma {:induction false} QuotesJoin(a: string, b: string)
    ensures Quotes(a + b) == Quotes(a) + Quotes(b)
  {
    if a == "" {
      assert a + b == b;
    } else {
      QuotesJoin(a[1..], b);
      assert (a + b)[1..] == a[1..] + b;
    }
  }

  lemma {:induction false} NoQuotes(s: string)
    requires '"' !in s
    ensures Quotes(s) == 0
  {
    if s != "" {
      NoQuotes(s[1..]);
    }
  }

  lemma {:induction false} QuotesStripped(lib: Lib, s: string)
    requires IsLib(lib)
    ensures Quotes(StripRight(lib.isSpace, s)) == Quotes(s) && Quotes(StripLeft(lib.isSpace, s)) == Quotes(s)
    decreases |s|
  {
    if s != "" {
      var front, last := s[..|s| - 1], s[|s| - 1];
      QuotesStripped(lib, front);
      QuotesStripped(lib, s[1..]);
      assert s == front + [last];
      QuotesJoin(front, [last]);
      assert Quotes([last]) == if last == '"' then 1 else 0;
    }
  }

  lemma QuotesOpaque(lib: Lib, s: string)
    requires IsLib(lib)
    ensures Quotes(Opaque(lib, s)) == Quotes(s)
  {
    var left := StripLeft(lib.isSpace, s);
    var stripped := StripRight(lib.isSpace, left);
    QuotesStripped(lib, s);
    QuotesStripped(lib, left);
    if "W/" <= stripped {
      assert stripped == "W/" + stripped[2..];
      QuotesJoin("W/", stripped[2..]);
      assert "W/"[1..] == "/" && "/"[1..] == "";
      assert Quotes("W/") == 0;
    }
  }

  // The quotes of a text are spread over the pieces between its commas.
  lemma {:induction false} PieceQuotes(text: string, i: nat)
    requires i < |Split(',', text)|
    ensures Quotes(Split(',', text)[i]) <= Quotes(text)
  {
    if text != "" {
      var rest := Split(',', text[1..]);
      SplitFirst(',', text);
      if text[0] == ',' {
        if i > 0 { PieceQuotes(text[1..], i - 1); }
      } else if i == 0 {
        PieceQuotes(text[1..], 0);
        QuotesJoin([text[0]], rest[0]);
        assert [text[0]][1..] == "";
      } else {
        PieceQuotes(text[1..], i);
      }
    }
  }

  // A tag with a comma is cut into pieces with at most one quote each.
  lemma CutTag(a: string, b: string, i: nat)
    requires Quotes(a) <= 1 && Quotes(b) <= 1 && i < |Split(',', a + "," + b)|
    ensures Quotes(Split(',', a + "," + b)[i]) <= 1
  {
    SplitBetween(',', a, b);
    assert a + [','] + b == a + "," + b;
    if i < |Split(',', a)| {
      PieceQuotes(a, i);
    } else {
      PieceQuotes(b, i - |Split(',', a)|);
    }
  }

  lemma TwoQuotes(hex: string)
    requires '"' !in hex
    ensures Quotes("\"" + hex + "\"") == 2
  {
    NoQuotes(hex);
    QuotesJoin("\"" + hex, "\"");
    QuotesJoin("\"", hex);
    assert "\""[1..] == "";
    assert Quotes("\"") == 1;
  }

  lemma OpaqueOfElement(lib: Lib, e: Element)
    requires IsLib(lib) && IsElement(e) && e.tag.Some?
    ensures Opaque(lib, ElementText(e)) == "\"" + e.tag.value.opaquePart + "\""
  {
    hide StripRight, StripLeft;
    var text := TagText(e.tag.value);
    assert ElementText(e) == e.before + (text + e.after);
    StripLeftSpace(lib.isSpace, e.before, text + e.after);
    NotStrippedLeft(lib, text, e.after);
    StripRightAfter(lib.isSpace, text, e.after);
    StripRightSpace(lib.isSpace, e.after);
    assert text + "" == text;
    if e.tag.value.weak {
      assert text == "W/" + ("\"" + e.tag.value.opaquePart + "\"");
    } else {
      assert text == "\"" + e.tag.value.opaquePart + "\"" && text[0] == '"';
    }
  }

  lemma NotStrippedLeft(lib: Lib, text: string, after: string)
    requires IsLib(lib) && text != "" && !lib.isSpace(text[0])
    ensures StripLeft(lib.isSpace, text + after) == text + after
  {
  }

  // One element matches through its pieces exactly when its opaque part is the expected one.
  lemma ElementMatches(lib: Lib, e: Element, hex: string)
    requires IsLib(lib) && IsElement(e) && '"' !in hex && ',' !in hex
    ensures AnyOpaque(lib, Split(',', ElementText(e)), "\"" + hex + "\"") <==>
      e.tag.Some? && e.tag.value.opaquePart == hex
  {
    hide Opaque, Quotes;
    TwoQuotes(hex);
    var text := ElementText(e);
    var pieces := Split(',', text);
    if e.tag.None? {
      assert text == e.before + e.after;
      NoQuotes(text);
      forall i | 0 <= i < |pieces| ensures Opaque(lib, pieces[i]) != "\"" + hex + "\"" {
        PieceQuotes(text, i);
        QuotesOpaque(lib, pieces[i]);
      }
    } else if ',' in e.tag.value.opaquePart {
      var a, b := CutAtComma(e);
      forall i | 0 <= i < |pieces| ensures Opaque(lib, pieces[i]) != "\"" + hex + "\"" {
        CutTag(a, b, i);
        QuotesOpaque(lib, pieces[i]);
      }
    } else {
      NoComma(e);
      SplitWhole(',', text);
      OpaqueOfElement(lib, e);
      assert pieces[0] == text;
      SameBetweenQuotes(e.tag.value.opaquePart, hex);
    }
  }

  lemma SameBetweenQuotes(a: string, b: string)
    ensures "\"" + a + "\"" == "\"" + b + "\"" <==> a == b
  {
    assert ("\"" + a + "\"")[1..|a| + 1] == a;
    assert ("\"" + b + "\"")[1..|b| + 1] == b;
  }

  lemma NoComma(e: Element)
    requires IsElement(e) && e.tag.Some? && ',' !in e.tag.value.opaquePart
    ensures ',' !in ElementText(e)
  {
  }

  lemma OneQuote(a: string, b: string)
    requires '"' !in a && '"' !in b
    ensures Quotes(a + ("\"" + b)) == 1
  {
    hide Quotes;
    NoQuotes(a);
    NoQuotes(b);
    QuotesJoin(a, "\"" + b);
    QuotesJoin("\"", b);
    QuoteIsOne();
  }

  lemma QuoteIsOne()
    ensures Quotes("\"") == 1
  {
    assert "\""[1..] == "";
  }

  lemma CutAtComma(e: Element) returns (a: string, b: string)
    requires IsElement(e) && e.tag.Some? && ',' in e.tag.value.opaquePart
    ensures ElementText(e) == a + "," + b && Quotes(a) <= 1 && Quotes(b) <= 1
  {
    hide Quotes;
    var part := e.tag.value.opaquePart;
    var k :| 0 <= k < |part| && part[k] == ',';
    var prefix := e.before + (if e.tag.value.weak then "W/" else "");
    a := prefix + ("\"" + part[..k]);
    b := part[k + 1..] + ("\"" + e.after);
    OneQuote(prefix, part[..k]);
    OneQuote(part[k + 1..], e.after);
    CutText(e.before, if e.tag.value.weak then "W/" else "", part, k, e.after);
  }

  lemma CutText(before: string, weak: string, part: string, k: nat, after: string)
    requires k < |part| && part[k] == ','
    ensures before + (weak + "\"" + part + "\"") + after
         == before + weak + ("\"" + part[..k]) + "," + (part[k + 1..] + ("\"" + after))
  {
    assert part == part[..k] + "," + part[k + 1..];
  }

  lemma {:induction false} ListMatches(lib: Lib, elements: seq<Element>, hex: string)
    requires IsLib(lib) && elements != [] && (forall i :: 0 <= i < |elements| ==> IsElement(elements[i]))
    requires '"' !in hex && ',' !in hex
    ensures AnyOpaque(lib, Split(',', ListText(elements)), "\"" + hex + "\"") <==>
      exists i :: 0 <= i < |elements| && elements[i].tag.Some? && elements[i].tag.value.opaquePart == hex
    decreases |elements|
  {
    hide ElementText, Split;
    ElementMatches(lib, elements[0], hex);
    if |elements| > 1 {
      var rest := elements[1..];
      ListMatches(lib, rest, hex);
      assert ElementTexts(elements)[1..] == ElementTexts(rest);
      SplitBetween(',', ElementText(elements[0]), ListText(rest));
      AnyJoin(lib, Split(',', ElementText(elements[0])), Split(',', ListText(rest)), "\"" + hex + "\"");
      assert forall i :: 0 < i < |elements| ==> elements[i] == rest[i - 1];
    }
  }

  lemma AnyJoin(lib: Lib, a: seq<string>, b: seq<string>, expected: string)
    ensures AnyOpaque(lib, a + b, expected) <==> AnyOpaque(lib, a, expected) || AnyOpaque(lib, b, expected)
  {
    hide Opaque;
    if AnyOpaque(lib, a, expected) {
      var i :| 0 <= i < |a| && Opaque(lib, a[i]) == expected;
      assert (a + b)[i] == a[i];
    }
    if AnyOpaque(lib, b, expected) {
      var i :| 0 <= i < |b| && Opaque(lib, b[i]) == expected;
      assert (a + b)[|a| + i] == b[i];
    }
  }

  lemma ElementIsNoAsterisk(e: Element)
    requires IsElement(e)
    ensures Quotes(ElementText(e)) > 0 || '*' !in ElementText(e)
  {
    hide Quotes;
    if e.tag.Some? {
      var prefix := e.before + (if e.tag.value.weak then "W/" else "");
      TagAfterPrefix(e);
      HoldsQuote(prefix, e.tag.value.opaquePart + "\"" + e.after);
    }
  }

  lemma TagAfterPrefix(e: Element)
    requires e.tag.Some?
    ensures ElementText(e) ==
      e.before + (if e.tag.value.weak then "W/" else "") + ("\"" + (e.tag.value.opaquePart + "\"" + e.after))
  {
  }

  lemma ListTail(elements: seq<Element>)
    requires |elements| > 1
    ensures ListText(elements) == ElementText(elements[0]) + ("," + ListText(elements[1..]))
  {
    hide ElementText;
    assert ElementTexts(elements)[1..] == ElementTexts(elements[1..]);
  }

  // A list holds a quote or no asterisk.
  lemma {:induction false} ListIsNoAsterisk(elements: seq<Element>)
    requires elements != [] && forall i :: 0 <= i < |elements| ==> IsElement(elements[i])
    ensures Quotes(ListText(elements)) > 0 || '*' !in ListText(elements)
    decreases |elements|
  {
    hide Quotes, ElementText;
    ElementIsNoAsterisk(elements[0]);
    if |elements| > 1 {
      var rest := elements[1..];
      ListIsNoAsterisk(rest);
      ListTail(elements);
      hide ListText;
      QuotesJoin(ElementText(elements[0]), "," + ListText(rest));
      QuotesJoin(",", ListText(rest));
    }
  }

  lemma HoldsQuote(a: string, b: string)
    ensures Quotes(a + ("\"" + b)) > 0
  {
    QuotesJoin(a, "\"" + b);
  }

  lemma StripKeepsQuotes(lib: Lib, s: string)
    requires IsLib(lib)
    ensures Quotes(Strip(lib.isSpace, s)) == Quotes(s)
  {
    QuotesStripped(lib, s);
    QuotesStripped(lib, StripLeft(lib.isSpace, s));
  }

  lemma {:induction false} StripHoldsNoMore(lib: Lib, s: string, c: char)
    requires c !in s
    ensures c !in StripLeft(lib.isSpace, s) && c !in StripRight(lib.isSpace, s)
    decreases |s|
  {
    if s != "" {
      StripHoldsNoMore(lib, s[1..], c);
      StripHoldsNoMore(lib, s[..|s| - 1], c);
    }
  }

  lemma ListIsNotStar(lib: Lib, elements: seq<Element>)
    requires IsLib(lib) && elements != [] && forall i :: 0 <= i < |elements| ==> IsElement(elements[i])
    ensures Strip(lib.isSpace, ListText(elements)) != "*"
  {
    hide ListText, StripLeft, StripRight;
    var text := ListText(elements);
    ListIsNoAsterisk(elements);
    StripKeepsQuotes(lib, text);
    NoQuotes("*");
    if '*' !in text {
      StripHoldsNoMore(lib, text, '*');
      StripHoldsNoMore(lib, StripLeft(lib.isSpace, text), '*');
      assert '*' in "*" by { assert "*"[0] == '*'; }
    }
  }

  lemma EtagOpaque(lib: Lib, parts: Parts)
    requires IsLib(lib) && Etag(lib, parts).Some?
    ensures Opaque(lib, Etag(lib, parts).value) == "\"" + lib.digest(Visible(parts)) + "\""
  {
    hide StripLeft, StripRight;
    var e := Element("", Some(EntityTag(true, lib.digest(Visible(parts)))), "");
    OpaqueOfElement(lib, e);
    assert ElementText(e) == Etag(lib, parts).value by {
      assert "W/" + "\"" == "W/\"";
    }
  }

  // On every well-formed list the comma split computes weak comparison: some listed tag, weak or strong, has the
  // opaque part of the representation's own tag.
  lemma CommaSplitIsWeakComparison(lib: Lib, elements: seq<Element>, parts: Parts)
    requires IsLib(lib) && elements != [] && (forall i :: 0 <= i < |elements| ==> IsElement(elements[i]))
    requires Etag(lib, parts).Some?
    ensures Matches(lib, Some(ListText(elements)), Etag(lib, parts).value) <==>
      exists i :: 0 <= i < |elements| && elements[i].tag.Some?
        && elements[i].tag.value.opaquePart == lib.digest(Visible(parts))
  {
    hide Opaque, AnyOpaque, Etag, ListText, Split, Strip;
    var hex := lib.digest(Visible(parts));
    HexIsPlain(hex);
    EtagOpaque(lib, parts);
    ListIsNotStar(lib, elements);
    ListMatches(lib, elements, hex);
    NothingMatches(lib, "\"" + hex + "\"");
  }

  lemma HexIsPlain(hex: string)
    requires IsHex(hex)
    ensures '"' !in hex && ',' !in hex
  {
  }

  lemma NothingMatches(lib: Lib, expected: string)
    requires |expected| >= 2
    ensures !AnyOpaque(lib, Split(',', ""), expected)
  {
    assert Opaque(lib, "") == "";
  }
}
