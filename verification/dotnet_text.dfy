/**
 * The few .NET string operations the well-known-text readers and writers use,
 * as total functions on `seq<char>`: upper-casing (ASCII letters only),
 * `Replace(pattern, "")`, `Trim()`, `TrimEnd(chars)`, and `Split` with
 * `StringSplitOptions.RemoveEmptyEntries`.
 */
module DotNetText {

  /** The characters `char.IsWhiteSpace` accepts: the Unicode White_Space property. */
  const WhiteSpace: set<char> := {
    '\t', '\n', '\U{B}', '\U{C}', '\r', ' ', '\U{85}', '\U{A0}', '\U{1680}',
    '\U{2000}', '\U{2001}', '\U{2002}', '\U{2003}', '\U{2004}', '\U{2005}',
    '\U{2006}', '\U{2007}', '\U{2008}', '\U{2009}', '\U{200A}',
    '\U{2028}', '\U{2029}', '\U{202F}', '\U{205F}', '\U{3000}' }

  /** No white-space character lies between '-' and '9'. */
  lemma WhiteSpaceOutsideNumberRange(c: char)
    requires '-' <= c <= '9'
    ensures c !in WhiteSpace
  {
  }

  predicate IsLowerAscii(c: char)
  {
    'a' <= c <= 'z'
  }

  /** Upper case of one character: ASCII letters only. */
  function UpperChar(c: char): (u: char)
    ensures IsLowerAscii(c) ==> 'A' <= u <= 'Z' && u as int == c as int - 32
    ensures !IsLowerAscii(c) ==> u == c
  {
    if IsLowerAscii(c) then (c as int - 32) as char else c
  }

  /** `String.ToUpper()`, restricted to the ASCII letters. */
  function ToUpper(s: string): (r: string)
    ensures |r| == |s|
    ensures forall i :: 0 <= i < |s| ==> r[i] == UpperChar(s[i])
  {
    seq(|s|, i requires 0 <= i < |s| => UpperChar(s[i]))
  }

  /** Upper-casing is idempotent and leaves a text without lower-case letters alone. */
  lemma ToUpperIdentity(s: string)
    ensures ToUpper(ToUpper(s)) == ToUpper(s)
    ensures (forall i :: 0 <= i < |s| ==> !IsLowerAscii(s[i])) <==> ToUpper(s) == s
  {
    if ToUpper(s) == s {
      forall i | 0 <= i < |s|
        ensures !IsLowerAscii(s[i])
      {
        assert ToUpper(s)[i] == s[i];
      }
    }
  }

  /**
   * `s.Replace(pattern, "")`: occurrences found left to right without overlap
   * are dropped, ordinal comparison.
   */
  function RemoveAll(s: string, pattern: string): (r: string)
    requires |pattern| > 0
    ensures |r| <= |s|
    decreases |s|
  {
    if |s| < |pattern| then s
    else if s[..|pattern|] == pattern then RemoveAll(s[|pattern|..], pattern)
    else [s[0]] + RemoveAll(s[1..], pattern)
  }

  /** The characters of `s` other than `c`, in order: the reference for removing a one-character pattern. */
  function Without(s: string, c: char): (r: string)
    ensures c !in r
    ensures forall x :: x in r ==> x in s
  {
    if s == [] then []
    else (if s[0] == c then [] else [s[0]]) + Without(s[1..], c)
  }

  /** Removing a one-character pattern keeps every other character in order. */
  lemma {:induction false} RemoveCharIsWithout(s: string, c: char)
    ensures RemoveAll(s, [c]) == Without(s, c)
  {
    if s != [] {
      RemoveCharIsWithout(s[1..], c);
    }
  }

  lemma {:induction false} WithoutAppend(a: string, b: string, c: char)
    ensures Without(a + b, c) == Without(a, c) + Without(b, c)
  {
    if a != [] {
      WithoutAppend(a[1..], b, c);
      var head: string := if a[0] == c then [] else [a[0]];
      assert (a + b)[1..] == a[1..] + b;
      assert (a + b)[0] == a[0];
      assert Without(a + b, c) == head + Without(a[1..] + b, c);
      assert Without(a, c) == head + Without(a[1..], c);
    } else {
      assert a + b == b;
    }
  }

  lemma WithoutCons(h: char, t: string, c: char)
    ensures Without([h] + t, c) == (if h == c then [] else [h]) + Without(t, c)
  {
    assert ([h] + t)[0] == h;
    assert ([h] + t)[1..] == t;
  }

  /** Removing a character the core does not hold touches only the text around it. */
  lemma WithoutFramed(a: string, core: string, b: string, c: char)
    requires c !in core
    ensures Without(a + core + b, c) == Without(a, c) + core + Without(b, c)
  {
    WithoutAppend(a + core, b, c);
    WithoutAppend(a, core, c);
    WithoutAbsent(core, c);
  }

  lemma {:induction false} WithoutAbsent(s: string, c: char)
    requires c !in s
    ensures Without(s, c) == s
  {
    if s != [] {
      WithoutAbsent(s[1..], c);
    }
  }

  /** A text that does not hold the first character of the pattern holds no occurrence of it. */
  lemma {:induction false} RemoveAbsent(s: string, pattern: string)
    requires |pattern| > 0 && pattern[0] !in s
    ensures RemoveAll(s, pattern) == s
    decreases |s|
  {
    if |s| >= |pattern| {
      assert s[..|pattern|][0] == s[0];
      RemoveAbsent(s[1..], pattern);
    }
  }

  /** A leading occurrence is dropped. */
  lemma RemoveLeading(pattern: string, s: string)
    requires |pattern| > 0
    ensures RemoveAll(pattern + s, pattern) == RemoveAll(s, pattern)
  {
    assert (pattern + s)[..|pattern|] == pattern;
    assert (pattern + s)[|pattern|..] == s;
  }

  /** A leading occurrence is dropped from a text framed around a core, none of which holds the pattern's first character. */
  lemma RemoveLeadingFramed(pattern: string, open: string, core: string, close: string)
    requires |pattern| > 0 && pattern[0] !in open && pattern[0] !in core && pattern[0] !in close
    ensures RemoveAll(pattern + open + core + close, pattern) == open + core + close
  {
    var rest := open + core + close;
    assert pattern + open + core + close == pattern + rest;
    RemoveLeading(pattern, rest);
    RemoveAbsent(rest, pattern);
  }

  /** Removing a character the core does not hold touches only the text around it. */
  lemma RemoveCharFramed(open: string, core: string, close: string, c: char)
    requires c !in core
    ensures RemoveAll(open + core + close, [c]) == Without(open, c) + core + Without(close, c)
  {
    RemoveCharIsWithout(open + core + close, c);
    WithoutFramed(open, core, close, c);
  }

  /** `TrimEnd(chars)`: the longest prefix that does not end in one of `chars`. */
  function TrimEnd(s: string, chars: set<char>): (r: string)
    ensures |r| <= |s| && r == s[..|r|]
    ensures r == [] || r[|r| - 1] !in chars
    ensures forall i :: |r| <= i < |s| ==> s[i] in chars
    decreases |s|
  {
    if s != [] && s[|s| - 1] in chars then TrimEnd(s[..|s| - 1], chars) else s
  }

  /** `TrimStart(chars)`: the longest suffix that does not start with one of `chars`. */
  function TrimStart(s: string, chars: set<char>): (r: string)
    ensures |r| <= |s| && r == s[|s| - |r|..]
    ensures r == [] || r[0] !in chars
    ensures forall i :: 0 <= i < |s| - |r| ==> s[i] in chars
    decreases |s|
  {
    if s != [] && s[0] in chars then TrimStart(s[1..], chars) else s
  }

  /** `Trim()`: leading and trailing white space removed. */
  function Trim(s: string): string
  {
    TrimEnd(TrimStart(s, WhiteSpace), WhiteSpace)
  }

  /** Trimming a text padded with characters of the set gives back the core when the core starts and ends outside the set. */
  lemma {:induction false} TrimPadded(pad: string, core: string, tail: string, chars: set<char>)
    requires forall i :: 0 <= i < |pad| ==> pad[i] in chars
    requires forall i :: 0 <= i < |tail| ==> tail[i] in chars
    requires core != [] && core[0] !in chars && core[|core| - 1] !in chars
    ensures TrimEnd(TrimStart(pad + core + tail, chars), chars) == core
    decreases |pad| + |tail|
  {
    if pad != [] {
      assert (pad + core + tail)[1..] == pad[1..] + core + tail;
      TrimPadded(pad[1..], core, tail, chars);
    } else if tail != [] {
      assert pad + core + tail == core + tail;
      TrimStartKeeps(core + tail, chars);
      TrimEndDrops(core, tail, chars);
    } else {
      assert pad + core + tail == core;
    }
  }

  lemma TrimStartKeeps(s: string, chars: set<char>)
    requires s != [] && s[0] !in chars
    ensures TrimStart(s, chars) == s
  {
  }

  lemma {:induction false} TrimEndDrops(core: string, tail: string, chars: set<char>)
    requires forall i :: 0 <= i < |tail| ==> tail[i] in chars
    requires core != [] && core[|core| - 1] !in chars
    ensures TrimEnd(core + tail, chars) == core
    decreases |tail|
  {
    if tail != [] {
      var t := tail[..|tail| - 1];
      assert (core + tail)[..|core + tail| - 1] == core + t;
      TrimEndDrops(core, t, chars);
    } else {
      assert core + tail == core;
    }
  }

  /** The length of the leading run of characters other than `sep`. */
  function TokenLength(s: string, sep: char): (n: nat)
    ensures n <= |s|
    ensures forall i :: 0 <= i < n ==> s[i] != sep
    ensures n == |s| || s[n] == sep
  {
    if s == [] || s[0] == sep then 0 else 1 + TokenLength(s[1..], sep)
  }

  /**
   * `s.Split(new[] { sep }, StringSplitOptions.RemoveEmptyEntries)`: the
   * maximal runs of characters other than `sep`, in order.
   */
  function Split(s: string, sep: char): (r: seq<string>)
    ensures forall k :: 0 <= k < |r| ==> |r[k]| > 0 && sep !in r[k]
    decreases |s|
  {
    if s == [] then []
    else if s[0] == sep then Split(s[1..], sep)
    else
      var n := TokenLength(s, sep);
      [s[..n]] + Split(s[n..], sep)
  }

  /** The texts joined with `sep` between consecutive ones. */
  function Join(ts: seq<string>, sep: string): string
  {
    if |ts| == 0 then ""
    else if |ts| == 1 then ts[0]
    else ts[0] + sep + Join(ts[1..], sep)
  }

  /** Splitting distributes over a separator: the pieces on either side are split independently. */
  lemma {:induction false} SplitAround(a: string, b: string, sep: char)
    ensures Split(a + [sep] + b, sep) == Split(a, sep) + Split(b, sep)
    decreases |a|
  {
    var s := a + [sep] + b;
    if a == [] {
      assert s[1..] == b;
    } else if a[0] == sep {
      assert s[1..] == a[1..] + [sep] + b;
      SplitAround(a[1..], b, sep);
    } else {
      var n := TokenLength(a, sep);
      TokenLengthPrefix(a, [sep] + b, sep);
      assert s == a + ([sep] + b);
      assert s[..n] == a[..n];
      assert s[n..] == a[n..] + [sep] + b;
      SplitAround(a[n..], b, sep);
    }
  }

  /** A token is delimited the same way whatever follows a separator. */
  lemma {:induction false} TokenLengthPrefix(a: string, rest: string, sep: char)
    requires rest != [] && rest[0] == sep
    ensures TokenLength(a + rest, sep) == TokenLength(a, sep)
    decreases |a|
  {
    if a != [] && a[0] != sep {
      assert (a + rest)[1..] == a[1..] + rest;
      TokenLengthPrefix(a[1..], rest, sep);
    } else if a == [] {
      assert a + rest == rest;
    }
  }

  /** A single token splits to itself. */
  lemma SplitToken(t: string, sep: char)
    requires |t| > 0 && sep !in t
    ensures Split(t, sep) == [t]
  {
    var n := TokenLength(t, sep);
    assert n == |t|;
    assert t[..n] == t && t[n..] == [];
  }

  /** Splitting a text made of separators gives nothing. */
  lemma {:induction false} SplitSeparators(s: string, sep: char)
    requires forall i :: 0 <= i < |s| ==> s[i] == sep
    ensures Split(s, sep) == []
    decreases |s|
  {
    if s != [] {
      SplitSeparators(s[1..], sep);
    }
  }

  /** Split undoes Join: non-empty tokens without the separator are read back in order. */
  lemma {:induction false} SplitJoin(ts: seq<string>, sep: char)
    requires forall k :: 0 <= k < |ts| ==> |ts[k]| > 0 && sep !in ts[k]
    ensures Split(Join(ts, [sep]), sep) == ts
  {
    if |ts| == 1 {
      SplitToken(ts[0], sep);
    } else if |ts| > 1 {
      SplitJoin(ts[1..], sep);
      SplitAround(ts[0], Join(ts[1..], [sep]), sep);
      SplitToken(ts[0], sep);
      assert [ts[0]] + ts[1..] == ts;
    }
  }
}
