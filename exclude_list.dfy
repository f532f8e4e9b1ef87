/** The exclusion list as the request handler builds it from the form field:
    split the text on ',' and strip surrounding white space from each item;
    an empty field gives the empty list. */
module ExcludeList {

  /** `str.isspace` on the ASCII range: tab to carriage return, the four
      information separators and the space. */
  predicate IsSpace(c: char) {
    c == ' ' || 9 <= c as int <= 13 || 28 <= c as int <= 31
  }

  /** The number of occurrences of `c` in `s`. */
  function Occurrences(s: string, c: char): nat {
    if s == [] then 0 else (if s[0] == c then 1 else 0) + Occurrences(s[1..], c)
  }

  /** `s.split(sep)`: the pieces between occurrences of `sep`, as many as
      there are separators plus one. */
  function SplitOn(s: string, sep: char): (parts: seq<string>)
    ensures |parts| == Occurrences(s, sep) + 1
    ensures forall i :: 0 <= i < |parts| ==> sep !in parts[i]
  {
    if s == [] then [""]
    else
      assert s == [s[0]] + s[1..];
      var rest := SplitOn(s[1..], sep);
      if s[0] == sep then [""] + rest
      else [[s[0]] + rest[0]] + rest[1..]
  }

  /** `sep.join(parts)`. */
  function Join(parts: seq<string>, sep: char): string
    requires |parts| >= 1
  {
    if |parts| == 1 then parts[0] else parts[0] + [sep] + Join(parts[1..], sep)
  }

  /** Joining the pieces with the separator gives back the text. */
  lemma {:induction false} JoinSplit(s: string, sep: char)
    ensures Join(SplitOn(s, sep), sep) == s
  {
    if s != [] {
      var rest := SplitOn(s[1..], sep);
      JoinSplit(s[1..], sep);
      var parts := SplitOn(s, sep);
      if s[0] == sep {
        assert parts[1..] == rest;
      } else if |rest| == 1 {
        assert parts == [[s[0]] + rest[0]];
      } else {
        assert parts[1..] == rest[1..];
        assert Join(rest, sep) == rest[0] + [sep] + Join(rest[1..], sep);
      }
    }
  }

  /** Splitting pieces that hold no separator, once joined, gives them back. */
  lemma {:induction false} SplitJoin(parts: seq<string>, sep: char)
    requires |parts| >= 1
    requires forall i :: 0 <= i < |parts| ==> sep !in parts[i]
    ensures SplitOn(Join(parts, sep), sep) == parts
  {
    if |parts| == 1 {
      NoSeparator(parts[0], sep);
    } else {
      SplitJoin(parts[1..], sep);
      SplitPrefix(parts[0], Join(parts[1..], sep), sep);
      assert [parts[0]] + parts[1..] == parts;
    }
  }

  lemma {:induction false} NoSeparator(s: string, sep: char)
    requires sep !in s
    ensures SplitOn(s, sep) == [s]
  {
    if s != [] {
      NoSeparator(s[1..], sep);
      assert [s[0]] + s[1..] == s;
    }
  }

  /** A separator-free piece followed by the separator splits off first. */
  lemma {:induction false} SplitPrefix(a: string, b: string, sep: char)
    requires sep !in a
    ensures SplitOn(a + [sep] + b, sep) == [a] + SplitOn(b, sep)
  {
    if a == [] {
      assert ([] + [sep] + b)[1..] == b;
    } else {
      var s := a + [sep] + b;
      assert s[1..] == a[1..] + [sep] + b;
      SplitPrefix(a[1..], b, sep);
      assert [a[0]] + a[1..] == a;
    }
  }

  /** The number of white-space characters `s` starts with. */
  function LeadingSpace(s: string): (n: nat)
    ensures n <= |s|
    ensures forall i :: 0 <= i < n ==> IsSpace(s[i])
    ensures n < |s| ==> !IsSpace(s[n])
  {
    if s == [] || !IsSpace(s[0]) then 0
    else
      var n := LeadingSpace(s[1..]);
      assert forall i :: 1 <= i < n + 1 ==> s[i] == s[1..][i - 1];
      n + 1
  }

  /** The number of white-space characters `s` ends with. */
  function TrailingSpace(s: string): (n: nat)
    ensures n <= |s|
    ensures forall i :: |s| - n <= i < |s| ==> IsSpace(s[i])
    ensures n < |s| ==> !IsSpace(s[|s| - n - 1])
  {
    if s == [] || !IsSpace(s[|s| - 1]) then 0
    else 1 + TrailingSpace(s[..|s| - 1])
  }

  /** `s.strip()`: the white space at both ends removed. */
  function Strip(s: string): (r: string)
    ensures |r| <= |s|
    ensures r == [] || (!IsSpace(r[0]) && !IsSpace(r[|r| - 1]))
    ensures exists a, b :: 0 <= a <= b <= |s| && r == s[a..b]
              && (forall i :: 0 <= i < a ==> IsSpace(s[i]))
              && (forall i :: b <= i < |s| ==> IsSpace(s[i]))
  {
    var a := LeadingSpace(s);
    var t := s[a..];
    var n := TrailingSpace(t);
    var b := a + |t| - n;
    var r := t[..|t| - n];
    assert r == s[a..b];
    assert forall i :: b <= i < |s| ==> IsSpace(s[i]) by {
      forall i | b <= i < |s| ensures IsSpace(s[i]) {
        assert s[i] == t[i - a];
      }
    }
    r
  }

  /** Stripping adds no character, so a separator-free piece stays so. */
  lemma StripKeepsAbsent(s: string, c: char)
    requires c !in s
    ensures c !in Strip(s)
  {
    var a := LeadingSpace(s);
    var t := s[a..];
    var r := t[..|t| - TrailingSpace(t)];
    forall i | 0 <= i < |r| ensures r[i] != c {
      assert r[i] == s[a + i];
    }
  }

  /** Text with no white space at either end is left alone by strip. */
  lemma StripUnchanged(s: string)
    requires s == [] || (!IsSpace(s[0]) && !IsSpace(s[|s| - 1]))
    ensures Strip(s) == s
  {
    assert LeadingSpace(s) == 0;
    assert s[0..] == s;
  }

  /** Every piece stripped; pieces without `sep` give items without it. */
  function StripEach(parts: seq<string>, sep: char): (items: seq<string>)
    requires forall i :: 0 <= i < |parts| ==> sep !in parts[i]
    ensures |items| == |parts|
    ensures forall i :: 0 <= i < |items| ==> items[i] == Strip(parts[i]) && sep !in items[i]
  {
    if parts == [] then []
    else
      StripKeepsAbsent(parts[0], sep);
      [Strip(parts[0])] + StripEach(parts[1..], sep)
  }

  /** The handler's exclusion list: one stripped item per comma-separated
      piece, none for an empty field. */
  function ParseExcludeList(excludeStr: string): (items: seq<string>)
    ensures excludeStr == "" ==> items == []
    ensures excludeStr != "" ==> |items| == Occurrences(excludeStr, ',') + 1
    ensures excludeStr != "" ==>
              forall i :: 0 <= i < |items| ==> items[i] == Strip(SplitOn(excludeStr, ',')[i])
    ensures forall i :: 0 <= i < |items| ==> ',' !in items[i]
    ensures forall i :: 0 <= i < |items| ==>
              items[i] == [] || (!IsSpace(items[i][0]) && !IsSpace(items[i][|items[i]| - 1]))
  {
    if excludeStr == "" then []
    else
      StripEach(SplitOn(excludeStr, ','), ',')
  }

  /** Strip removes one leading blank from otherwise trimmed text. */
  lemma StripLeadingBlank(b: string)
    requires b == [] || (!IsSpace(b[0]) && !IsSpace(b[|b| - 1]))
    ensures Strip([' '] + b) == b
  {
    var t := [' '] + b;
    assert t[1..] == b;
    assert LeadingSpace(t) == 1;
    StripUnchanged(b);
  }

  /** Text that splits into two pieces parses into the two stripped pieces. */
  lemma ParseTwoPieces(excludeStr: string, p: string, q: string)
    requires excludeStr != ""
    requires SplitOn(excludeStr, ',') == [p, q]
    ensures ParseExcludeList(excludeStr) == [Strip(p), Strip(q)]
  {
  }

  /** Two items written "a, b" come back as [a, b]: the space after the
      comma is stripped and nothing else changes. */
  lemma ParseTwoItems(a: string, b: string)
    requires ',' !in a && ',' !in b
    requires a != [] && !IsSpace(a[0]) && !IsSpace(a[|a| - 1])
    requires b == [] || (!IsSpace(b[0]) && !IsSpace(b[|b| - 1]))
    ensures ParseExcludeList(a + ", " + b) == [a, b]
  {
    var text := a + ", " + b;
    var t := [' '] + b;
    assert text == a + [','] + t;
    SplitPrefix(a, t, ',');
    NoSeparator(t, ',');
    ParseTwoPieces(text, a, t);
    StripUnchanged(a);
    StripLeadingBlank(b);
  }
}
