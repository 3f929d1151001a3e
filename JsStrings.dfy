/**
  The pieces of the JavaScript runtime that the breed description service
  relies on, stated over Dafny strings (`seq<char>`):
  - `String.prototype.split` with a non-empty literal separator, and its
    partner `Array.prototype.join`;
  - `Array.prototype.indexOf` with strict equality;
  - `toUpperCase` / `toLowerCase`, restricted to the ASCII letters;
  - the regular-expression class `\s` and the replacement of every run of
    it by the empty string.
*/
module JsStrings {

  // ---------------------------------------------------------------------
  // Prefixes and occurrences
  // ---------------------------------------------------------------------

  /** `s` begins with `p`. */
  predicate StartsWith(s: string, p: string) {
    |p| <= |s| && s[..|p|] == p
  }

  /** `p` occurs somewhere in `s` (at an index from which `s` starts with `p`). */
  predicate Contains(s: string, p: string)
    decreases |s|
  {
    StartsWith(s, p) || (|s| > 0 && Contains(s[1..], p))
  }

  /** No proper suffix of `sep` is also a prefix of it: two occurrences of `sep` cannot overlap. */
  predicate NoSelfOverlap(sep: string) {
    forall k :: 0 < k < |sep| ==> sep[k..] != sep[..|sep| - k]
  }

  // ---------------------------------------------------------------------
  // split and join
  // ---------------------------------------------------------------------

  /**
    `s.split(sep)` for a non-empty separator: scanning left to right, every
    occurrence of `sep` ends the current token and is dropped. The empty
    string splits into one empty token.
  */
  function Split(s: string, sep: string): (parts: seq<string>)
    requires |sep| > 0
    ensures |parts| >= 1
    decreases |s|
  {
    if |s| == 0 then [""]
    else if StartsWith(s, sep) then [""] + Split(s[|sep|..], sep)
    else
      var rest := Split(s[1..], sep);
      [[s[0]] + rest[0]] + rest[1..]
  }

  /** `parts.join(sep)`. */
  function Join(parts: seq<string>, sep: string): string
    decreases |parts|
  {
    if |parts| == 0 then ""
    else if |parts| == 1 then parts[0]
    else parts[0] + sep + Join(parts[1..], sep)
  }

  /** Prepending a character to the first token prepends it to the joined string. */
  lemma JoinPrepend(c: char, parts: seq<string>, sep: string)
    requires |parts| >= 1
    ensures Join([[c] + parts[0]] + parts[1..], sep) == [c] + Join(parts, sep)
  {
    if |parts| > 1 {
      assert ([[c] + parts[0]] + parts[1..])[1..] == parts[1..];
    }
  }

  /** Joining the tokens with the separator gives back the string that was split. */
  lemma {:induction false} JoinSplit(s: string, sep: string)
    requires |sep| > 0
    ensures Join(Split(s, sep), sep) == s
    decreases |s|
  {
    if |s| == 0 {
    } else if StartsWith(s, sep) {
      var rest := Split(s[|sep|..], sep);
      JoinSplit(s[|sep|..], sep);
      assert Split(s, sep) == [""] + rest;
      assert ([""] + rest)[1..] == rest;
      assert s == s[..|sep|] + s[|sep|..];
    } else {
      JoinSplit(s[1..], sep);
      JoinPrepend(s[0], Split(s[1..], sep), sep);
      assert s == [s[0]] + s[1..];
    }
  }

  /** The first token is a prefix of the string that was split. */
  lemma {:induction false} SplitHeadIsPrefix(s: string, sep: string)
    requires |sep| > 0
    ensures StartsWith(s, Split(s, sep)[0])
    decreases |s|
  {
    if |s| == 0 || StartsWith(s, sep) {
    } else {
      var rest := Split(s[1..], sep);
      SplitHeadIsPrefix(s[1..], sep);
      assert s[..1 + |rest[0]|] == [s[0]] + s[1..][..|rest[0]|];
    }
  }

  /** No token contains the separator. */
  lemma {:induction false} SplitAvoidsSeparator(s: string, sep: string)
    requires |sep| > 0
    ensures forall i :: 0 <= i < |Split(s, sep)| ==> !Contains(Split(s, sep)[i], sep)
    decreases |s|
  {
    if |s| == 0 {
      assert !Contains("", sep);
    } else if StartsWith(s, sep) {
      var rest := Split(s[|sep|..], sep);
      SplitAvoidsSeparator(s[|sep|..], sep);
      assert !Contains("", sep);
      assert forall i :: 1 <= i < |Split(s, sep)| ==> Split(s, sep)[i] == rest[i - 1];
    } else {
      var rest := Split(s[1..], sep);
      SplitAvoidsSeparator(s[1..], sep);
      SplitHeadIsPrefix(s[1..], sep);
      var head := [s[0]] + rest[0];
      assert head[1..] == rest[0];
      assert !StartsWith(head, sep);
      assert !Contains(head, sep);
      assert forall i :: 1 <= i < |Split(s, sep)| ==> Split(s, sep)[i] == rest[i];
    }
  }

  /** A string without the separator splits into itself alone. */
  lemma {:induction false} SplitSeparatorFree(s: string, sep: string)
    requires |sep| > 0 && !Contains(s, sep)
    ensures Split(s, sep) == [s]
    decreases |s|
  {
    if |s| > 0 {
      SplitSeparatorFree(s[1..], sep);
      assert [s[0]] + s[1..] == s;
    }
  }

  /** A separator-free token followed by the separator is split off as the first token. */
  lemma {:induction false} SplitTokenThenSeparator(t: string, sep: string, r: string)
    requires |sep| > 0 && NoSelfOverlap(sep) && !Contains(t, sep)
    ensures Split(t + sep + r, sep) == [t] + Split(r, sep)
    decreases |t|
  {
    var s := t + sep + r;
    if |t| == 0 {
      assert s == sep + r;
      assert s[..|sep|] == sep && s[|sep|..] == r;
    } else {
      if |t| >= |sep| {
        assert s[..|sep|] == t[..|sep|];
      } else {
        var k := |t|;
        assert sep[k..] != sep[..|sep| - k];
        assert s[..|sep|][k..] == sep[..|sep| - k];
      }
      assert !StartsWith(s, sep);
      assert s[1..] == t[1..] + sep + r;
      SplitTokenThenSeparator(t[1..], sep, r);
      assert [t[0]] + t[1..] == t;
    }
  }

  /**
    Splitting undoes joining, for tokens free of a separator whose
    occurrences cannot overlap: together with JoinSplit, the tokens of `s`
    are the only separator-free sequence that joins to `s`.
  */
  lemma {:induction false} SplitJoin(parts: seq<string>, sep: string)
    requires |sep| > 0 && NoSelfOverlap(sep)
    requires |parts| >= 1
    requires forall i :: 0 <= i < |parts| ==> !Contains(parts[i], sep)
    ensures Split(Join(parts, sep), sep) == parts
    decreases |parts|
  {
    if |parts| == 1 {
      SplitSeparatorFree(parts[0], sep);
    } else {
      SplitJoin(parts[1..], sep);
      SplitTokenThenSeparator(parts[0], sep, Join(parts[1..], sep));
      assert [parts[0]] + parts[1..] == parts;
    }
  }

  // ---------------------------------------------------------------------
  // indexOf
  // ---------------------------------------------------------------------

  /** `xs.indexOf(x)`: the first index holding `x`, or -1 when there is none. */
  function IndexOf(xs: seq<string>, x: string): (r: int)
    ensures -1 <= r < |xs|
    ensures r == -1 <==> x !in xs
    ensures 0 <= r ==> xs[r] == x && x !in xs[..r]
    decreases |xs|
  {
    if |xs| == 0 then -1
    else if xs[0] == x then 0
    else
      var k := IndexOf(xs[1..], x);
      if k == -1 then -1
      else
        assert xs[..k + 1] == [xs[0]] + xs[1..][..k];
        k + 1
  }

  // ---------------------------------------------------------------------
  // Letter case (ASCII only)
  // ---------------------------------------------------------------------

  predicate IsAsciiUpper(c: char) { 'A' <= c <= 'Z' }

  predicate IsAsciiLower(c: char) { 'a' <= c <= 'z' }

  /** `toUpperCase` on one character, for the ASCII letters. */
  function ToUpperChar(c: char): (u: char)
    ensures !IsAsciiLower(u)
    ensures u != c <==> IsAsciiLower(c)
    ensures IsAsciiLower(c) ==> u as int == c as int - ('a' as int - 'A' as int)
  {
    if IsAsciiLower(c) then (c as int - 32) as char else c
  }

  /** `toLowerCase` on one character, for the ASCII letters. */
  function ToLowerChar(c: char): (l: char)
    ensures !IsAsciiUpper(l)
    ensures l != c <==> IsAsciiUpper(c)
    ensures IsAsciiUpper(c) ==> l as int == c as int + ('a' as int - 'A' as int)
  {
    if IsAsciiUpper(c) then (c as int + 32) as char else c
  }

  /** The characters that upper-case to a given capital letter: itself and its lower-case form. */
  lemma ToUpperCharPreimage(c: char, u: char)
    requires IsAsciiUpper(u)
    ensures ToUpperChar(c) == u <==> c == u || c == ToLowerChar(u)
  {
  }

  /** `s.toLowerCase()`, for the ASCII letters. */
  function LowerCase(s: string): (r: string)
    ensures |r| == |s|
    ensures forall i :: 0 <= i < |s| ==> r[i] == ToLowerChar(s[i])
  {
    seq(|s|, i requires 0 <= i < |s| => ToLowerChar(s[i]))
  }

  // ---------------------------------------------------------------------
  // Whitespace
  // ---------------------------------------------------------------------

  /**
    The characters of the regular-expression class `\s` in ECMAScript:
    white space (tab, vertical tab, form feed, space, no-break space,
    zero-width no-break space and the other Unicode space separators) and
    line terminators (line feed, carriage return, line and paragraph
    separators).
  */
  const Whitespace: set<char> := {
    '\t', '\n', '\U{000B}', '\U{000C}', '\r', ' ', '\U{00A0}', '\U{1680}',
    '\U{2000}', '\U{2001}', '\U{2002}', '\U{2003}', '\U{2004}', '\U{2005}',
    '\U{2006}', '\U{2007}', '\U{2008}', '\U{2009}', '\U{200A}',
    '\U{2028}', '\U{2029}', '\U{202F}', '\U{205F}', '\U{3000}', '\U{FEFF}'
  }

  predicate IsWhitespace(c: char) { c in Whitespace }

  /** Lower-casing never turns a character into whitespace or whitespace into something else. */
  lemma ToLowerCharKeepsWhitespace(c: char)
    ensures IsWhitespace(ToLowerChar(c)) <==> IsWhitespace(c)
  {
  }

  /**
    `s.replace(/\s+/g, '')`: every maximal run of whitespace is replaced by
    nothing, which deletes every whitespace character and keeps the others
    in order.
  */
  function StripWhitespace(s: string): (r: string)
    ensures |r| <= |s|
    ensures forall i :: 0 <= i < |r| ==> !IsWhitespace(r[i])
    ensures (forall i :: 0 <= i < |s| ==> !IsWhitespace(s[i])) ==> r == s
    decreases |s|
  {
    if |s| == 0 then ""
    else if IsWhitespace(s[0]) then StripWhitespace(s[1..])
    else
      assert s == [s[0]] + s[1..];
      [s[0]] + StripWhitespace(s[1..])
  }

  /**
    Stripping deletes whitespace rather than replacing it: every other
    character occurs in the result as often as in the input.
  */
  lemma {:induction false} StripWhitespaceKeepsOthers(s: string, c: char)
    requires !IsWhitespace(c)
    ensures multiset(StripWhitespace(s))[c] == multiset(s)[c]
    decreases |s|
  {
    if |s| > 0 {
      StripWhitespaceKeepsOthers(s[1..], c);
      assert s == [s[0]] + s[1..];
    }
  }

  /** Stripping distributes over concatenation, so whitespace anywhere is simply dropped. */
  lemma {:induction false} StripWhitespaceAppend(a: string, b: string)
    ensures StripWhitespace(a + b) == StripWhitespace(a) + StripWhitespace(b)
    decreases |a|
  {
    if |a| > 0 {
      assert (a + b)[0] == a[0] && (a + b)[1..] == a[1..] + b;
      StripWhitespaceAppend(a[1..], b);
      if !IsWhitespace(a[0]) {
        assert [a[0]] + (StripWhitespace(a[1..]) + StripWhitespace(b))
            == ([a[0]] + StripWhitespace(a[1..])) + StripWhitespace(b);
      }
    } else {
      assert a + b == b;
    }
  }
}
