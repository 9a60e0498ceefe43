// Text operations shared by several components: strip, split and join.
module Texts {

  // str.strip removes white space, whatever counts as such, from both ends.
  function StripRight(isSpace: char -> bool, s: string): string {
    if s != "" && isSpace(s[|s| - 1]) then StripRight(isSpace, s[..|s| - 1]) else s
  }

  function StripLeft(isSpace: char -> bool, s: string): string {
    if s != "" && isSpace(s[0]) then StripLeft(isSpace, s[1..]) else s
  }

  function Strip(isSpace: char -> bool, s: string): string { StripRight(isSpace, StripLeft(isSpace, s)) }

  lemma {:induction false} StripRightAfter(isSpace: char -> bool, a: string, b: string)
    requires a != "" && !isSpace(a[|a| - 1])
    ensures StripRight(isSpace, a + b) == a + StripRight(isSpace, b)
  {
    if b == "" {
      assert a + b == a;
    } else if isSpace(b[|b| - 1]) {
      StripRightAfter(isSpace, a, b[..|b| - 1]);
      assert (a + b)[..|a + b| - 1] == a + b[..|b| - 1];
    }
  }

  lemma {:induction false} StrippedEnds(isSpace: char -> bool, s: string)
    ensures var t := StripRight(isSpace, s);
      t <= s && (t != "" ==> !isSpace(t[|t| - 1])) && StripRight(isSpace, t) == t
  {
    if s != "" && isSpace(s[|s| - 1]) {
      StrippedEnds(isSpace, s[..|s| - 1]);
    }
  }

  lemma {:induction false} StripRightSpace(isSpace: char -> bool, s: string)
    requires forall i :: 0 <= i < |s| ==> isSpace(s[i])
    ensures StripRight(isSpace, s) == ""
  {
    if s != "" {
      StripRightSpace(isSpace, s[..|s| - 1]);
    }
  }

  lemma {:induction false} StripLeftSpace(isSpace: char -> bool, s: string, t: string)
    requires forall i :: 0 <= i < |s| ==> isSpace(s[i])
    ensures StripLeft(isSpace, s + t) == StripLeft(isSpace, t)
  {
    if s == "" {
      assert s + t == t;
    } else {
      StripLeftSpace(isSpace, s[1..], t);
      assert (s + t)[1..] == s[1..] + t;
    }
  }

  // sep.join(parts)
  function Join(sep: char, parts: seq<string>): string
    requires parts != []
  {
    if |parts| == 1 then parts[0] else parts[0] + [sep] + Join(sep, parts[1..])
  }

  // text.split(sep)
  function Split(sep: char, text: string): (parts: seq<string>)
    ensures parts != [] && forall i :: 0 <= i < |parts| ==> sep !in parts[i]
  {
    if text == "" then [""]
    else
      var rest := Split(sep, text[1..]);
      if text[0] == sep then [""] + rest else [[text[0]] + rest[0]] + rest[1..]
  }

  lemma SplitFirst(sep: char, text: string)
    requires text != ""
    ensures var rest := Split(sep, text[1..]);
      Split(sep, text) == if text[0] == sep then [""] + rest else [[text[0]] + rest[0]] + rest[1..]
  {
  }

  // Splitting at a separator that was written between two texts.
  lemma {:induction false} SplitBetween(sep: char, a: string, b: string)
    ensures Split(sep, a + [sep] + b) == Split(sep, a) + Split(sep, b)
  {
    SplitFirst(sep, a + [sep] + b);
    if a == "" {
      assert (a + [sep] + b)[1..] == b;
    } else {
      hide Split;
      SplitFirst(sep, a);
      SplitBetween(sep, a[1..], b);
      assert (a + [sep] + b)[1..] == a[1..] + [sep] + b;
    }
  }

  lemma {:induction false} SplitWhole(sep: char, text: string)
    requires sep !in text
    ensures Split(sep, text) == [text]
  {
    if text != "" {
      SplitWhole(sep, text[1..]);
      assert [text[0]] + text[1..] == text;
    }
  }

  lemma {:induction false} SplitJoin(sep: char, parts: seq<string>)
    requires parts != []
    ensures Split(sep, Join(sep, parts)) == parts <==> forall i :: 0 <= i < |parts| ==> sep !in parts[i]
    decreases |parts|
  {
    if forall i :: 0 <= i < |parts| ==> sep !in parts[i] {
      SplitWhole(sep, parts[0]);
      if |parts| > 1 {
        SplitJoin(sep, parts[1..]);
        SplitBetween(sep, parts[0], Join(sep, parts[1..]));
      }
    }
  }
}
