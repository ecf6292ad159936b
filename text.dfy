/**
  String primitives the handlers and components are written with: JavaScript's
  `trim`, ASCII lower-casing (the case-insensitive comparisons), substring search,
  `split` on a single character and `join`.
*/
module Text {

  /** The WhiteSpace and LineTerminator code points of ECMAScript: what `trim` strips. */
  const Whitespace: set<char> := {
    '\t', '\n', '\U{000B}', '\U{000C}', '\r', ' ', '\U{00A0}', '\U{1680}',
    '\U{2000}', '\U{2001}', '\U{2002}', '\U{2003}', '\U{2004}', '\U{2005}',
    '\U{2006}', '\U{2007}', '\U{2008}', '\U{2009}', '\U{200A}',
    '\U{2028}', '\U{2029}', '\U{202F}', '\U{205F}', '\U{3000}', '\U{FEFF}'
  }

  predicate IsWhitespace(c: char) {
    c in Whitespace
  }

  /** The characters a regular-expression `.` does not match. */
  predicate IsLineTerminator(c: char) {
    c == '\n' || c == '\r' || c == '\U{2028}' || c == '\U{2029}'
  }

  /** Neither the first nor the last character is whitespace. */
  predicate NoEdgeWhitespace(s: string) {
    s == [] || (!IsWhitespace(s[0]) && !IsWhitespace(s[|s| - 1]))
  }

  predicate AllWhitespace(s: string) {
    forall i :: 0 <= i < |s| ==> IsWhitespace(s[i])
  }

  /** The first index at or after `i` that does not hold whitespace (or the end). */
  function SkipLeading(s: string, i: nat): (k: nat)
    requires i <= |s|
    ensures i <= k <= |s|
    ensures forall j :: i <= j < k ==> IsWhitespace(s[j])
    ensures k == |s| || !IsWhitespace(s[k])
    decreases |s| - i
  {
    if i < |s| && IsWhitespace(s[i]) then SkipLeading(s, i + 1) else i
  }

  /** The end of `s[lo..j]` once its trailing whitespace is dropped. */
  function SkipTrailing(s: string, lo: nat, j: nat): (k: nat)
    requires lo <= j <= |s|
    ensures lo <= k <= j
    ensures forall m :: k <= m < j ==> IsWhitespace(s[m])
    ensures k == lo || !IsWhitespace(s[k - 1])
  {
    if lo < j && IsWhitespace(s[j - 1]) then SkipTrailing(s, lo, j - 1) else j
  }

  /** `s.trim()`: the input without leading and trailing whitespace. */
  function Trim(s: string): (r: string)
    ensures NoEdgeWhitespace(r)
    ensures exists a :: OccursAt(s, r, a) && AllWhitespace(s[..a]) && AllWhitespace(s[a + |r|..])
    ensures NoEdgeWhitespace(s) ==> r == s
    ensures r == [] <==> AllWhitespace(s)
  {
    var a := SkipLeading(s, 0);
    var b := SkipTrailing(s, a, |s|);
    assert OccursAt(s, s[a..b], a);
    s[a..b]
  }

  /** `.map((piece) => piece.trim())`. */
  function TrimEach(pieces: seq<string>): (r: seq<string>)
    ensures |r| == |pieces|
    ensures forall k :: 0 <= k < |r| ==> r[k] == Trim(pieces[k])
  {
    seq(|pieces|, k requires 0 <= k < |pieces| => Trim(pieces[k]))
  }

  function LowerChar(c: char): (d: char)
    ensures 'A' <= c <= 'Z' ==> 'a' <= d <= 'z'
    ensures !('A' <= c <= 'Z') ==> d == c
  {
    if 'A' <= c <= 'Z' then (c as int - 'A' as int + 'a' as int) as char else c
  }

  /** ASCII lower-casing, character by character. */
  function Lower(s: string): (r: string)
    ensures |r| == |s|
    ensures forall i :: 0 <= i < |s| ==> r[i] == LowerChar(s[i])
  {
    seq(|s|, i requires 0 <= i < |s| => LowerChar(s[i]))
  }

  /** `needle` occurs in `hay` as a contiguous run of characters. */
  predicate Contains(hay: string, needle: string)
    decreases |hay|
  {
    needle <= hay || (hay != [] && Contains(hay[1..], needle))
  }

  predicate OccursAt(hay: string, needle: string, i: int) {
    0 <= i && i + |needle| <= |hay| && hay[i..i + |needle|] == needle
  }

  /** Every character of an occurrence is a character of the text it occurs in. */
  lemma OccursAtChars(hay: string, needle: string, i: int)
    requires OccursAt(hay, needle, i)
    ensures forall x :: x in needle ==> x in hay
  {
    forall x | x in needle ensures x in hay {
      var k :| 0 <= k < |needle| && needle[k] == x;
      assert hay[i + k] == x;
    }
  }

  /** The recursive search finds exactly the occurrences the slice definition describes. */
  lemma {:induction false} ContainsIffOccurs(hay: string, needle: string)
    ensures Contains(hay, needle) <==> exists i :: OccursAt(hay, needle, i)
    decreases |hay|
  {
    if needle <= hay {
      assert OccursAt(hay, needle, 0);
    } else if hay == [] {
    } else {
      ContainsIffOccurs(hay[1..], needle);
      if exists i :: OccursAt(hay[1..], needle, i) {
        var i :| OccursAt(hay[1..], needle, i);
        assert hay[1..][i..i + |needle|] == hay[i + 1..i + 1 + |needle|];
        assert OccursAt(hay, needle, i + 1);
      }
      if exists i :: OccursAt(hay, needle, i) {
        var i :| OccursAt(hay, needle, i);
        assert i != 0;
        assert hay[1..][i - 1..i - 1 + |needle|] == hay[i..i + |needle|];
        assert OccursAt(hay[1..], needle, i - 1);
      }
    }
  }

  /** `s.split(c)` for a one-character separator: every separator ends a piece. */
  function SplitOn(s: string, c: char): (r: seq<string>)
    ensures |r| >= 1
  {
    if s == [] then [""]
    else if s[0] == c then [""] + SplitOn(s[1..], c)
    else
      var rest := SplitOn(s[1..], c);
      [[s[0]] + rest[0]] + rest[1..]
  }

  /** JavaScript truthiness of a string: `Boolean(t)`. */
  predicate NonEmpty(t: string) {
    t != ""
  }

  /** No piece holds the separator. */
  lemma {:induction false} SplitOnPieces(s: string, c: char)
    ensures forall k :: 0 <= k < |SplitOn(s, c)| ==> c !in SplitOn(s, c)[k]
  {
    if s != [] {
      SplitOnPieces(s[1..], c);
      if s[0] != c {
        var rest := SplitOn(s[1..], c);
        assert c !in [s[0]] + rest[0];
      }
    }
  }

  /** `parts.join(sep)`. */
  function Join(parts: seq<string>, sep: string): (r: string)
    ensures parts != [] ==> parts[0] <= r
    decreases |parts|
  {
    if parts == [] then ""
    else if |parts| == 1 then parts[0]
    else parts[0] + sep + Join(parts[1..], sep)
  }

  /** Joining the pieces back with the separator restores the input. */
  lemma {:induction false} JoinSplitOn(s: string, c: char)
    ensures Join(SplitOn(s, c), [c]) == s
  {
    if s == [] {
    } else if s[0] == c {
      JoinSplitOn(s[1..], c);
      assert s == [c] + s[1..];
    } else {
      JoinSplitOn(s[1..], c);
      var rest := SplitOn(s[1..], c);
      if |rest| == 1 {
        assert s == [s[0]] + s[1..];
      } else {
        assert rest == [rest[0]] + rest[1..];
        assert Join(rest, [c]) == rest[0] + [c] + Join(rest[1..], [c]);
        assert s == [s[0]] + s[1..];
      }
    }
  }

  /** Splitting text made by `join` gives back the parts, when no part holds the separator. */
  lemma {:induction false} SplitOnJoin(parts: seq<string>, c: char)
    requires |parts| >= 1
    requires forall k :: 0 <= k < |parts| ==> c !in parts[k]
    ensures SplitOn(Join(parts, [c]), c) == parts
    decreases |parts|
  {
    if |parts| == 1 {
      SplitOnFree(parts[0], [], c);
      assert parts[0] + [] == parts[0];
      assert parts == [parts[0]];
    } else {
      var j := Join(parts[1..], [c]);
      calc {
        SplitOn(Join(parts, [c]), c);
        { assert Join(parts, [c]) == parts[0] + ([c] + j); }
        SplitOn(parts[0] + ([c] + j), c);
        { SplitOnFree(parts[0], [c] + j, c); }
        [parts[0] + SplitOn([c] + j, c)[0]] + SplitOn([c] + j, c)[1..];
        { assert ([c] + j)[1..] == j;
          SplitOnJoin(parts[1..], c);
          assert SplitOn([c] + j, c) == [""] + parts[1..]; }
        [parts[0] + ""] + parts[1..];
        { assert parts[0] + "" == parts[0]; }
        parts;
      }
    }
  }

  /** A separator-free prefix only lengthens the first piece. */
  lemma {:induction false} SplitOnFree(t: string, u: string, c: char)
    requires c !in t
    ensures var r := SplitOn(u, c); SplitOn(t + u, c) == [t + r[0]] + r[1..]
    decreases |t|
  {
    var r := SplitOn(u, c);
    if t == [] {
      assert t + u == u;
      assert t + r[0] == r[0];
      assert r == [r[0]] + r[1..];
    } else {
      var rest := SplitOn(t[1..] + u, c);
      calc {
        SplitOn(t + u, c);
        { assert (t + u)[0] == t[0] && (t + u)[1..] == t[1..] + u;
          assert t[0] != c by { assert t[0] in t; } }
        [[t[0]] + rest[0]] + rest[1..];
        { SplitOnFree(t[1..], u, c); }
        [[t[0]] + (t[1..] + r[0])] + r[1..];
        { assert [t[0]] + (t[1..] + r[0]) == t + r[0]; }
        [t + r[0]] + r[1..];
      }
    }
  }
}
