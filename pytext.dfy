/** The Python string operations the router relies on: `sep.join(parts)`,
    the first line of `str.splitlines()`, and `re.split(r"\s+", s)` with
    Python's Unicode notion of whitespace. */
module PyText {

  /** `sep.join(parts)` */
  function Join(sep: string, parts: seq<string>): string
    decreases |parts|
  {
    if |parts| == 0 then ""
    else if |parts| == 1 then parts[0]
    else parts[0] + sep + Join(sep, parts[1..])
  }

  /** `s.split(c)` for a one-character separator `c`. */
  function SplitOn(c: char, s: string): (r: seq<string>)
    ensures |r| >= 1
    decreases |s|
  {
    if s == [] then [""]
    else
      var rest := SplitOn(c, s[1..]);
      if s[0] == c then [""] + rest else [[s[0]] + rest[0]] + rest[1..]
  }

  lemma {:induction false} SplitOnNoSeparator(c: char, s: string)
    requires c !in s
    ensures SplitOn(c, s) == [s]
    decreases |s|
  {
    if s != [] {
      SplitOnNoSeparator(c, s[1..]);
      assert [s[0]] + s[1..] == s;
    }
  }

  lemma {:induction false} SplitOnSeparated(c: char, a: string, b: string)
    requires c !in a
    ensures SplitOn(c, a + [c] + b) == [a] + SplitOn(c, b)
    decreases |a|
  {
    if a == [] {
      assert a + [c] + b == [c] + b;
      assert ([c] + b)[1..] == b;
    } else {
      SplitOnSeparated(c, a[1..], b);
      assert (a + [c] + b)[1..] == a[1..] + [c] + b;
      assert [a[0]] + a[1..] == a;
    }
  }

  /** Splitting a joined list on its one-character separator gives the list
      back, as long as no part contains the separator. */
  lemma {:induction false} SplitJoin(c: char, parts: seq<string>)
    requires |parts| >= 1
    requires forall k :: 0 <= k < |parts| ==> c !in parts[k]
    ensures SplitOn(c, Join([c], parts)) == parts
    decreases |parts|
  {
    if |parts| == 1 {
      SplitOnNoSeparator(c, parts[0]);
    } else {
      SplitJoin(c, parts[1..]);
      SplitOnSeparated(c, parts[0], Join([c], parts[1..]));
      assert [parts[0]] + parts[1..] == parts;
    }
  }

  /** The line boundaries of `str.splitlines`. */
  predicate IsLineBoundary(c: char) {
    c == '\n' || c == '\r' || c == '\U{000B}' || c == '\U{000C}' || c == '\U{001C}'
    || c == '\U{001D}' || c == '\U{001E}' || c == '\U{0085}' || c == '\U{2028}' || c == '\U{2029}'
  }

  /** `s.splitlines()[0]` for a non-empty `s` (the text before the first
      line boundary). */
  function FirstLine(s: string): (r: string)
    ensures |r| <= |s| && r == s[..|r|]
    ensures forall k :: 0 <= k < |r| ==> !IsLineBoundary(r[k])
    ensures |r| < |s| ==> IsLineBoundary(s[|r|])
    decreases |s|
  {
    if s == [] || IsLineBoundary(s[0]) then "" else [s[0]] + FirstLine(s[1..])
  }

  /** `str.isspace` for one character, the class `\s` matches in a `str`
      regular expression. */
  predicate IsPySpace(c: char) {
    c == ' ' || ('\t' <= c <= '\r') || ('\U{001C}' <= c <= '\U{001F}') || c == '\U{0085}'
    || c == '\U{00A0}' || c == '\U{1680}' || ('\U{2000}' <= c <= '\U{200A}') || c == '\U{2028}'
    || c == '\U{2029}' || c == '\U{202F}' || c == '\U{205F}' || c == '\U{3000}'
  }

  /** Length of the longest prefix of `s` without whitespace. */
  function WordLen(s: string): (n: nat)
    ensures n <= |s|
    ensures forall k :: 0 <= k < n ==> !IsPySpace(s[k])
    ensures n < |s| ==> IsPySpace(s[n])
    decreases |s|
  {
    if s == [] || IsPySpace(s[0]) then 0 else 1 + WordLen(s[1..])
  }

  /** Length of the longest prefix of `s` made of whitespace. */
  function RunLen(s: string): (n: nat)
    ensures n <= |s|
    ensures forall k :: 0 <= k < n ==> IsPySpace(s[k])
    ensures n < |s| ==> !IsPySpace(s[n])
    decreases |s|
  {
    if s == [] || !IsPySpace(s[0]) then 0 else 1 + RunLen(s[1..])
  }

  /** `re.split(r"\s+", s)`: the pieces between maximal runs of whitespace,
      keeping an empty piece before a leading run and after a trailing one. */
  function WsSplit(s: string): (r: seq<string>)
    ensures |r| >= 1
    decreases |s|
  {
    var n := WordLen(s);
    if n == |s| then [s]
    else
      var skip := n + RunLen(s[n..]);
      [s[..n]] + WsSplit(s[skip..])
  }

  predicate NoSpace(w: string) {
    forall k :: 0 <= k < |w| ==> !IsPySpace(w[k])
  }

  /** No piece of `re.split(r"\s+", s)` holds whitespace, and every piece but
      the first and the last is non-empty. */
  lemma {:induction false} WsSplitPieces(s: string)
    ensures forall k :: 0 <= k < |WsSplit(s)| ==> NoSpace(WsSplit(s)[k])
    ensures forall k :: 0 < k < |WsSplit(s)| - 1 ==> WsSplit(s)[k] != ""
    decreases |s|
  {
    var n := WordLen(s);
    if n < |s| {
      var skip := n + RunLen(s[n..]);
      var rest := s[skip..];
      WsSplitPieces(rest);
      if |WsSplit(rest)| > 1 {
        // `rest` does not start with whitespace, so its first piece is not empty
        assert rest != [] && !IsPySpace(rest[0]);
        assert WordLen(rest) > 0;
      }
    }
  }

  /** Splitting words joined by single spaces gives the words back, when no
      word holds whitespace and only the first and the last may be empty. */
  lemma {:induction false} WsSplitJoin(ws: seq<string>)
    requires |ws| >= 1
    requires forall k :: 0 <= k < |ws| ==> NoSpace(ws[k])
    requires forall k :: 0 < k < |ws| - 1 ==> ws[k] != ""
    ensures WsSplit(Join(" ", ws)) == ws
    decreases |ws|
  {
    var w := ws[0];
    if |ws| == 1 {
      WordLenNoSpace(w, "");
      assert w + "" == w;
    } else {
      var tail := Join(" ", ws[1..]);
      var s := Join(" ", ws);
      assert s == w + (" " + tail);
      WordLenNoSpace(w, " " + tail);
      assert s[|w|..] == " " + tail;
      if |ws| > 2 {
        assert tail == ws[1] + " " + Join(" ", ws[2..]);
        assert tail != [] && !IsPySpace(tail[0]);
      }
      assert RunLen(" " + tail) == 1 by {
        assert (" " + tail)[1..] == tail;
      }
      assert s[|w| + 1..] == tail;
      WsSplitJoin(ws[1..]);
      assert s[..|w|] == w;
      assert [w] + ws[1..] == ws;
    }
  }

  lemma {:induction false} WordLenNoSpace(w: string, t: string)
    requires NoSpace(w)
    requires t == [] || IsPySpace(t[0])
    ensures WordLen(w + t) == |w|
    decreases |w|
  {
    if w != [] {
      assert (w + t)[1..] == w[1..] + t;
      WordLenNoSpace(w[1..], t);
    } else {
      assert w + t == t;
    }
  }
}
