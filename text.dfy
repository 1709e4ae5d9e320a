/** The string primitives the controllers and the gate rely on:
    `String.prototype.trim`, `String.prototype.split` on a one-character
    separator, `startsWith`, and the lower-casing Mongoose applies to `email`. */
module Text {
  import opened Wrappers

  /** JavaScript truthiness of an optional string value (a request field or cookie). */
  predicate Truthy(s: Option<string>) {
    s.Some? && s.value != []
  }


  /** ECMAScript's WhiteSpace and LineTerminator code points, the set `trim` strips. */
  predicate IsJsWhitespace(c: char) {
    || c == '\t' || c == '\n' || c == '\U{B}' || c == '\U{C}' || c == '\r' || c == ' '
    || c == '\U{A0}' || c == '\U{1680}' || ('\U{2000}' <= c <= '\U{200A}')
    || c == '\U{2028}' || c == '\U{2029}' || c == '\U{202F}' || c == '\U{205F}'
    || c == '\U{3000}' || c == '\U{FEFF}'
  }

  predicate AllWhitespace(s: string) {
    forall i :: 0 <= i < |s| ==> IsJsWhitespace(s[i])
  }

  /** `s` with its leading whitespace removed: a suffix of `s` whose cut-off
      prefix is all whitespace and which does not itself start with whitespace. */
  function TrimStart(s: string): (r: string)
    ensures |r| <= |s| && r == s[|s| - |r|..]
    ensures forall i :: 0 <= i < |s| - |r| ==> IsJsWhitespace(s[i])
    ensures r != [] ==> !IsJsWhitespace(r[0])
  {
    if s != [] && IsJsWhitespace(s[0]) then TrimStart(s[1..]) else s
  }

  /** `s` with its trailing whitespace removed: a prefix of `s` whose cut-off
      suffix is all whitespace and which does not itself end with whitespace. */
  function TrimEnd(s: string): (r: string)
    ensures |r| <= |s| && r == s[..|r|]
    ensures forall i :: |r| <= i < |s| ==> IsJsWhitespace(s[i])
    ensures r != [] ==> !IsJsWhitespace(r[|r| - 1])
  {
    if s != [] && IsJsWhitespace(s[|s| - 1]) then TrimEnd(s[..|s| - 1]) else s
  }

  /** `String.prototype.trim`: what is left of `s` after cutting its
      leading and its trailing whitespace. `TrimIsInfix` and
      `TrimCutsWhitespace` say which piece of `s` it is. */
  function Trim(s: string): (r: string)
    ensures |r| <= |s|
    ensures r != [] ==> !IsJsWhitespace(r[0]) && !IsJsWhitespace(r[|r| - 1])
  {
    TrimEnd(TrimStart(s))
  }

  /** A trimmed string is empty exactly when the original is all whitespace
      (this is what makes `name.trim()` falsy). */
  lemma TrimEmptyIff(s: string)
    ensures Trim(s) == [] <==> AllWhitespace(s)
  {
  }

  /** What `trim` cuts off on either side is whitespace only. */
  lemma TrimCutsWhitespace(s: string)
    ensures var k := |s| - |TrimStart(s)|;
      && k + |Trim(s)| <= |s|
      && AllWhitespace(s[..k]) && AllWhitespace(s[k + |Trim(s)|..])
  {
    var t := TrimStart(s);
    var r := TrimEnd(t);
    LeadingCut(s, t);
    TrailingCut(s, t, r);
  }

  lemma LeadingCut(s: string, t: string)
    requires |t| <= |s| && forall i :: 0 <= i < |s| - |t| ==> IsJsWhitespace(s[i])
    ensures AllWhitespace(s[..|s| - |t|])
  {
    WhitespaceSlice(s, 0, |s| - |t|);
  }

  lemma TrailingCut(s: string, t: string, r: string)
    requires |t| <= |s| && t == s[|s| - |t|..]
    requires |r| <= |t| && forall i :: |r| <= i < |t| ==> IsJsWhitespace(t[i])
    ensures AllWhitespace(s[|s| - |t| + |r|..])
  {
    assert s[|s| - |t| + |r|..] == t[|r|..];
    WhitespaceSlice(t, |r|, |t|);
  }

  /** A stretch of whitespace characters, taken as a string of its own. */
  lemma WhitespaceSlice(s: string, lo: nat, hi: nat)
    requires lo <= hi <= |s|
    requires forall i :: lo <= i < hi ==> IsJsWhitespace(s[i])
    ensures AllWhitespace(s[lo..hi])
  {
    forall i | 0 <= i < hi - lo
      ensures IsJsWhitespace(s[lo..hi][i])
    {
      assert s[lo..hi][i] == s[lo + i];
    }
  }

  /** The trimmed string is a contiguous piece of the original: what `trim`
      keeps is `s[k..k + |Trim(s)|]` for the length `k` of the leading whitespace. */
  lemma TrimIsInfix(s: string)
    ensures var k := |s| - |TrimStart(s)|;
            k + |Trim(s)| <= |s| && Trim(s) == s[k..k + |Trim(s)|]
  {
    var t := TrimStart(s);
    var k := |s| - |t|;
    var r := TrimEnd(t);
    assert r == t[..|r|];
    assert t == s[k..];
  }

  /** Trimming twice is trimming once. */
  lemma TrimIdempotent(s: string)
    ensures Trim(Trim(s)) == Trim(s)
  {
    var r := Trim(s);
    if r != [] {
      assert TrimStart(r) == r;
      assert TrimEnd(r) == r;
    }
  }

  predicate IsAsciiUpper(c: char) { 'A' <= c <= 'Z' }

  /** Lower-cases one character. Only the ASCII letters are mapped. */
  function LowerChar(c: char): (d: char)
    ensures !IsAsciiUpper(d)
    ensures IsAsciiUpper(c) ==> d as int == c as int + 32
    ensures !IsAsciiUpper(c) ==> d == c
  {
    if IsAsciiUpper(c) then (c as int - 'A' as int + 'a' as int) as char else c
  }

  predicate IsLowerCased(s: string) {
    forall i :: 0 <= i < |s| ==> !IsAsciiUpper(s[i])
  }

  /** The lower-casing applied to a schema path declared `lowercase: true`:
      every upper-case letter becomes its lower-case partner, every other
      character stays. */
  function ToLower(s: string): (r: string)
    ensures |r| == |s| && IsLowerCased(r)
    ensures forall i :: 0 <= i < |s| && IsAsciiUpper(s[i]) ==> r[i] as int == s[i] as int + 32
    ensures forall i :: 0 <= i < |s| && !IsAsciiUpper(s[i]) ==> r[i] == s[i]
  {
    seq(|s|, i requires 0 <= i < |s| => LowerChar(s[i]))
  }

  /** Two strings that differ only in the case of ASCII letters. */
  predicate SameUpToCase(a: string, b: string) {
    |a| == |b| && forall i :: 0 <= i < |a| ==> LowerChar(a[i]) == LowerChar(b[i])
  }

  /** Addresses that differ only in letter case lower-case to the same
      string, so the schema stores and looks them up as one address. */
  lemma SameUpToCaseLowerEqual(a: string, b: string)
    requires SameUpToCase(a, b)
    ensures ToLower(a) == ToLower(b)
  {
  }

  /** Lower-casing a lower-cased string changes nothing. */
  lemma LowerCasedFixed(s: string)
    requires IsLowerCased(s)
    ensures ToLower(s) == s
  {
  }

  /** JavaScript's `length`: the number of UTF-16 code units, so a
      character beyond U+FFFF (a surrogate pair) counts twice. */
  function JsLength(s: string): (n: nat)
    ensures |s| <= n <= 2 * |s|
    ensures (forall i :: 0 <= i < |s| ==> s[i] as int <= 0xFFFF) ==> n == |s|
  {
    if s == [] then 0 else (if s[0] as int > 0xFFFF then 2 else 1) + JsLength(s[1..])
  }

  lemma {:induction false} JsLengthConcat(a: string, b: string)
    ensures JsLength(a + b) == JsLength(a) + JsLength(b)
    decreases |a|
  {
    if a != [] {
      assert (a + b)[0] == a[0] && (a + b)[1..] == a[1..] + b;
      JsLengthConcat(a[1..], b);
    } else {
      assert a + b == b;
    }
  }

  /** Cutting a string in two never makes either part longer in UTF-16 units. */
  lemma JsLengthParts(s: string, k: nat)
    requires k <= |s|
    ensures JsLength(s[..k]) <= JsLength(s) && JsLength(s[k..]) <= JsLength(s)
  {
    assert s == s[..k] + s[k..];
    JsLengthConcat(s[..k], s[k..]);
  }

  /** `trim` never lengthens a string in UTF-16 units. */
  lemma TrimJsLength(s: string)
    ensures JsLength(Trim(s)) <= JsLength(s)
  {
    var t := TrimStart(s);
    var r := TrimEnd(t);
    JsLengthParts(s, |s| - |t|);
    JsLengthParts(t, |r|);
  }

  predicate StartsWith(s: string, prefix: string) {
    |prefix| <= |s| && s[..|prefix|] == prefix
  }

  /** The characters of `s` before the first `sep` (all of `s` if there is none). */
  function TakeUntil(s: string, sep: char): (r: string)
    ensures |r| <= |s| && r == s[..|r|]
    ensures sep !in r
    ensures |r| < |s| ==> s[|r|] == sep
  {
    if s == [] || s[0] == sep then [] else [s[0]] + TakeUntil(s[1..], sep)
  }

  /** `String.prototype.split` on a one-character separator: the pieces
      between consecutive separators, always at least one. Which pieces they
      are is stated by `SplitFirst` and `SplitSecond`. */
  function Split(s: string, sep: char): (pieces: seq<string>)
    ensures |pieces| >= 1
    ensures forall i :: 0 <= i < |pieces| ==> sep !in pieces[i]
  {
    if s == [] then [[]]
    else
      var rest := Split(s[1..], sep);
      if s[0] == sep then [[]] + rest
      else [[s[0]] + rest[0]] + rest[1..]
  }

  /** The first piece of a split is what comes before the first separator. */
  lemma {:induction false} SplitFirst(s: string, sep: char)
    ensures Split(s, sep)[0] == TakeUntil(s, sep)
    decreases |s|
  {
    if s != [] && s[0] != sep {
      SplitFirst(s[1..], sep);
    }
  }

  /** Behind a separator-free prefix and one separator, the second piece is
      the first piece of what follows. */
  lemma {:induction false} SplitSecond(prefix: string, sep: char, rest: string)
    requires sep !in prefix
    ensures |Split(prefix + [sep] + rest, sep)| >= 2
    ensures Split(prefix + [sep] + rest, sep)[1] == TakeUntil(rest, sep)
    decreases |prefix|
  {
    var s := prefix + [sep] + rest;
    if prefix == [] {
      assert s[1..] == rest;
      SplitFirst(rest, sep);
    } else {
      assert s[1..] == prefix[1..] + [sep] + rest;
      SplitSecond(prefix[1..], sep, rest);
    }
  }
}
