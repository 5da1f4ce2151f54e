/**
  The parts of Python's string semantics that the site's rules rely on:
  str.isspace, str.strip, str.lower (ASCII letters), substring search,
  str.split() with no separator, " ".join, int() on decimal text and the
  decimal spelling of a natural number.
*/
module Text {
  import opened Wrappers

  /** Python's str.isspace for one character (Unicode White_Space as CPython defines it). */
  predicate IsSpace(c: char) {
    var n := c as int;
    (9 <= n <= 13) || (28 <= n <= 32) || n == 0x85 || n == 0xA0 || n == 0x1680
    || (0x2000 <= n <= 0x200A) || n == 0x2028 || n == 0x2029 || n == 0x202F || n == 0x205F || n == 0x3000
  }

  predicate AllSpace(s: string) {
    forall i :: 0 <= i < |s| ==> IsSpace(s[i])
  }

  predicate NoSpace(s: string) {
    forall i :: 0 <= i < |s| ==> !IsSpace(s[i])
  }

  // ---------------------------------------------------------------------------
  // str.strip()

  /** str.lstrip(): drops the leading whitespace and nothing else. */
  function TrimStart(s: string): (r: string)
    ensures LeftTrimmed(s, r)
  {
    if s != [] && IsSpace(s[0]) then TrimStart(s[1..]) else s
  }

  /** str.rstrip(): drops the trailing whitespace and nothing else. */
  function TrimEnd(s: string): (r: string)
    ensures RightTrimmed(s, r)
  {
    if s != [] && IsSpace(s[|s| - 1]) then TrimEnd(s[..|s| - 1]) else s
  }

  /** `r` is `s` without its leading whitespace. */
  predicate LeftTrimmed(s: string, r: string) {
    && |r| <= |s| && r == s[|s| - |r|..]
    && AllSpace(s[..|s| - |r|])
    && (r == [] || !IsSpace(r[0]))
  }

  /** `r` is `s` without its trailing whitespace. */
  predicate RightTrimmed(s: string, r: string) {
    && |r| <= |s| && r == s[..|r|]
    && AllSpace(s[|r|..])
    && (r == [] || !IsSpace(r[|r| - 1]))
  }

  /** The number of whitespace characters that str.strip() removes at the front of `s`. */
  function Lead(s: string): (k: nat)
    ensures k <= |s|
  {
    |s| - |TrimStart(s)|
  }

  /** str.strip(): the slice of `s` left after removing whitespace at both ends. */
  function Strip(s: string): (r: string)
    ensures r == [] <==> AllSpace(s)
    ensures r != [] ==> !IsSpace(r[0]) && !IsSpace(r[|r| - 1])
    ensures Lead(s) + |r| <= |s| && r == s[Lead(s)..Lead(s) + |r|]
    ensures AllSpace(s[..Lead(s)]) && AllSpace(s[Lead(s) + |r|..])
  {
    var t := TrimStart(s);
    var r := TrimEnd(t);
    TrimmedSlices(s, t, r, Lead(s));
    r
  }

  /** When `t` is `s` less leading whitespace and `r` is `t` less trailing whitespace, `r` sits between two runs of whitespace in `s`. */
  lemma TrimmedSlices(s: string, t: string, r: string, i: nat)
    requires i == |s| - |t|
    requires LeftTrimmed(s, t) && RightTrimmed(t, r)
    ensures r == [] <==> AllSpace(s)
    ensures r != [] ==> !IsSpace(r[0]) && !IsSpace(r[|r| - 1])
    ensures i + |r| <= |s| && r == s[i..i + |r|]
    ensures AllSpace(s[..i]) && AllSpace(s[i + |r|..])
  {
    assert s[i..i + |r|] == t[..|r|];
    assert s[i + |r|..] == t[|r|..];
    if r == [] {
      assert t[|r|..] == t;
      AllSpaceConcat(s[..i], t);
      assert s[..i] + t == s;
    } else {
      assert r[0] == t[0] == s[i];
    }
  }

  lemma AllSpaceConcat(a: string, b: string)
    requires AllSpace(a) && AllSpace(b)
    ensures AllSpace(a + b)
  {
    forall k | 0 <= k < |a + b| ensures IsSpace((a + b)[k]) {
      if k < |a| { assert (a + b)[k] == a[k]; } else { assert (a + b)[k] == b[k - |a|]; }
    }
  }

  /** Stripping text that already starts and ends with a non-space character changes nothing. */
  lemma StripUnpadded(s: string)
    requires s != [] && !IsSpace(s[0]) && !IsSpace(s[|s| - 1])
    ensures Strip(s) == s
  {
    assert TrimStart(s) == s;
  }

  /** Whitespace on either side of a word is exactly what strip removes. */
  lemma {:induction false} StripPadded(a: string, w: string, b: string)
    requires AllSpace(a) && AllSpace(b)
    requires w != [] && !IsSpace(w[0]) && !IsSpace(w[|w| - 1])
    ensures Strip(a + w + b) == w
  {
    assert a + w + b == a + (w + b);
    TrimStartPadded(a, w + b);
    TrimEndPadded(w, b);
    assert TrimEnd(TrimStart(a + w + b)) == w;
  }

  lemma {:induction false} TrimStartPadded(a: string, t: string)
    requires AllSpace(a) && t != [] && !IsSpace(t[0])
    ensures TrimStart(a + t) == t
  {
    if a != [] {
      assert (a + t)[1..] == a[1..] + t;
      TrimStartPadded(a[1..], t);
    } else {
      assert a + t == t;
    }
  }

  lemma {:induction false} TrimEndPadded(t: string, b: string)
    requires AllSpace(b) && t != [] && !IsSpace(t[|t| - 1])
    ensures TrimEnd(t + b) == t
    decreases |b|
  {
    if b != [] {
      assert (t + b)[..|t + b| - 1] == t + b[..|b| - 1];
      TrimEndPadded(t, b[..|b| - 1]);
    } else {
      assert t + b == t;
    }
  }

  // ---------------------------------------------------------------------------
  // str.lower() on ASCII letters

  function LowerChar(c: char): char {
    if 'A' <= c <= 'Z' then (c as int + 32) as char else c
  }

  predicate IsUpper(c: char) {
    'A' <= c <= 'Z'
  }

  /** Lower-cases every ASCII capital letter and keeps every other character. */
  function Lower(s: string): (r: string)
    ensures |r| == |s|
    ensures forall i :: 0 <= i < |s| ==> !IsUpper(r[i])
    ensures forall i :: 0 <= i < |s| ==> r[i] == s[i] || (IsUpper(s[i]) && r[i] as int == s[i] as int + 32)
  {
    seq(|s|, i requires 0 <= i < |s| => LowerChar(s[i]))
  }

  /** Lower-casing twice is lower-casing once. */
  lemma LowerIdempotent(s: string)
    ensures Lower(Lower(s)) == Lower(s)
  {
  }

  // ---------------------------------------------------------------------------
  // substring search (SQL LIKE '%needle%')

  /** `needle` occurs in `hay` starting at index `i`. */
  ghost predicate OccursAt(needle: string, hay: string, i: int) {
    0 <= i <= |hay| - |needle| && hay[i..i + |needle|] == needle
  }

  ghost predicate IsSubstring(needle: string, hay: string) {
    exists i :: OccursAt(needle, hay, i)
  }

  /** True iff `needle` occurs somewhere in `hay` as a contiguous run. */
  function Contains(hay: string, needle: string): (r: bool)
    ensures r <==> IsSubstring(needle, hay)
    decreases |hay|
  {
    if needle <= hay then
      assert OccursAt(needle, hay, 0);
      true
    else if hay == [] then
      false
    else
      var r := Contains(hay[1..], needle);
      assert r ==> IsSubstring(needle, hay) by {
        if r {
          var i :| OccursAt(needle, hay[1..], i);
          assert hay[i + 1..i + 1 + |needle|] == hay[1..][i..i + |needle|];
          assert OccursAt(needle, hay, i + 1);
        }
      }
      assert IsSubstring(needle, hay) ==> r by {
        if IsSubstring(needle, hay) {
          var i :| OccursAt(needle, hay, i);
          if i == 0 {
            assert false;
          } else {
            assert hay[1..][i - 1..i - 1 + |needle|] == hay[i..i + |needle|];
            assert OccursAt(needle, hay[1..], i - 1);
          }
        }
      }
      r
  }

  /** Case-insensitive containment, Django's `icontains` lookup. */
  predicate IContains(hay: string, needle: string) {
    Contains(Lower(hay), Lower(needle))
  }

  // ---------------------------------------------------------------------------
  // str.split() with no separator, and " ".join

  /** The longest prefix of `s` without whitespace. */
  function Token(s: string): (r: string)
    ensures r <= s && NoSpace(r)
    ensures r == s || IsSpace(s[|r|])
  {
    if s == [] || IsSpace(s[0]) then [] else [s[0]] + Token(s[1..])
  }

  /** The runs of non-whitespace characters of `s`, in order: Python's `s.split()`. */
  function Words(s: string): (r: seq<string>)
    ensures forall w :: w in r ==> w != [] && NoSpace(w)
    ensures r == [] <==> AllSpace(s)
    decreases |s|
  {
    if s == [] then []
    else if IsSpace(s[0]) then Words(s[1..])
    else
      var w := Token(s);
      [w] + Words(s[|w|..])
  }

  /** `" ".join(ws)`. */
  function JoinSpace(ws: seq<string>): string {
    if ws == [] then ""
    else if |ws| == 1 then ws[0]
    else ws[0] + " " + JoinSpace(ws[1..])
  }

  lemma {:induction false} TokenLead(w: string, t: string)
    requires NoSpace(w) && (t == [] || IsSpace(t[0]))
    ensures Token(w + t) == w
  {
    if w == [] {
      assert w + t == t;
    } else {
      assert (w + t)[1..] == w[1..] + t;
      TokenLead(w[1..], t);
    }
  }

  /** A word followed by whitespace (or by nothing) is the first result of split(). */
  lemma WordsLead(w: string, t: string)
    requires w != [] && NoSpace(w) && (t == [] || IsSpace(t[0]))
    ensures Words(w + t) == [w] + Words(t)
  {
    TokenLead(w, t);
    assert (w + t)[|w|..] == t;
  }

  /** Leading whitespace does not change the split. */
  lemma {:induction false} WordsSkipSpace(a: string, t: string)
    requires AllSpace(a)
    ensures Words(a + t) == Words(t)
  {
    if a != [] {
      assert (a + t)[1..] == a[1..] + t;
      WordsSkipSpace(a[1..], t);
    } else {
      assert a + t == t;
    }
  }

  /** Trailing whitespace does not change the split. */
  lemma {:induction false} WordsDropTrailing(x: string, b: string)
    requires AllSpace(b)
    ensures Words(x + b) == Words(x)
    decreases |x|
  {
    if x == [] {
      assert x + b == b;
    } else if IsSpace(x[0]) {
      assert (x + b)[1..] == x[1..] + b;
      WordsDropTrailing(x[1..], b);
    } else {
      var w := Token(x);
      var rest := x[|w|..];
      assert x == w + rest;
      assert x + b == w + (rest + b);
      WordsLead(w, rest + b);
      WordsLead(w, rest);
      WordsDropTrailing(rest, b);
    }
  }

  /** `s.strip().split()` is `s.split()`. */
  lemma WordsOfStrip(s: string)
    ensures Words(Strip(s)) == Words(s)
  {
    var r, i := Strip(s), Lead(s);
    SurroundedSlice(s, r, i);
    WordsOfPadded(s[..i], r, s[i + |r|..]);
  }

  /** Whitespace on either side of a string does not change its split. */
  lemma WordsOfPadded(a: string, r: string, b: string)
    requires AllSpace(a) && AllSpace(b)
    ensures Words(a + (r + b)) == Words(r)
  {
    WordsSkipSpace(a, r + b);
    WordsDropTrailing(r, b);
  }

  /** A string is what precedes a slice of it, the slice, and what follows. */
  lemma SurroundedSlice(s: string, r: string, i: nat)
    requires i + |r| <= |s| && r == s[i..i + |r|]
    ensures s == s[..i] + (r + s[i + |r|..])
  {
    assert s[i..] == r + s[i + |r|..];
    assert s == s[..i] + s[i..];
  }

  /** Splitting words joined by single spaces gives the words back. */
  lemma {:induction false} WordsOfJoin(ws: seq<string>)
    requires forall w :: w in ws ==> w != [] && NoSpace(w)
    ensures Words(JoinSpace(ws)) == ws
  {
    if ws == [] {
    } else if |ws| == 1 {
      assert ws[0] in ws;
      WordsLead(ws[0], "");
      assert ws[0] + "" == ws[0];
    } else {
      assert ws[0] in ws;
      assert forall w :: w in ws[1..] ==> w in ws;
      WordsBeforeSpace(ws[0], JoinSpace(ws[1..]));
      WordsOfJoin(ws[1..]);
      assert ws == [ws[0]] + ws[1..];
    }
  }

  /** A word, one space and more text split into the word and the split of the rest. */
  lemma WordsBeforeSpace(w: string, rest: string)
    requires w != [] && NoSpace(w)
    ensures Words(w + " " + rest) == [w] + Words(rest)
  {
    assert w + " " + rest == w + (" " + rest);
    WordsLead(w, " " + rest);
    WordsSkipSpace(" ", rest);
  }

  // ---------------------------------------------------------------------------
  // decimal numbers

  predicate IsDigit(c: char) {
    '0' <= c <= '9'
  }

  predicate AllDigits(s: string) {
    forall i :: 0 <= i < |s| ==> IsDigit(s[i])
  }

  function DigitChar(d: nat): (c: char)
    requires d < 10
    ensures IsDigit(c) && c as int - '0' as int == d
  {
    ('0' as int + d) as char
  }

  /** The value of a string of decimal digits, most significant first. */
  function DigitsValue(s: string): nat
    requires AllDigits(s)
  {
    if s == [] then 0 else DigitsValue(s[..|s| - 1]) * 10 + (s[|s| - 1] as int - '0' as int)
  }

  /** `str(n)` for a natural number: its decimal digits, no sign, no padding. */
  function NatToString(n: nat): (r: string)
    ensures r != [] && AllDigits(r)
    ensures |r| > 1 ==> r[0] != '0'
    decreases n
  {
    if n < 10 then [DigitChar(n)] else NatToString(n / 10) + [DigitChar(n % 10)]
  }

  /** Reading the decimal spelling of `n` gives `n`. */
  lemma {:induction false} DigitsValueOfNat(n: nat)
    ensures DigitsValue(NatToString(n)) == n
    decreases n
  {
    if n >= 10 {
      var s := NatToString(n);
      assert s[..|s| - 1] == NatToString(n / 10);
      DigitsValueOfNat(n / 10);
    }
  }

  /** The digits and underscores of a Python integer literal, with underscores only between digits. */
  predicate DigitGroups(s: string) {
    && s != []
    && IsDigit(s[0]) && IsDigit(s[|s| - 1])
    && (forall i :: 0 <= i < |s| ==> IsDigit(s[i]) || s[i] == '_')
    && (forall i :: 0 <= i < |s| - 1 ==> s[i] == '_' ==> s[i + 1] != '_')
  }

  /** `s` with every underscore removed. */
  function DropUnderscores(s: string): (r: string)
    ensures (forall i :: 0 <= i < |s| ==> IsDigit(s[i]) || s[i] == '_') ==> AllDigits(r)
    ensures AllDigits(s) ==> r == s
  {
    if s == [] then []
    else if s[0] == '_' then DropUnderscores(s[1..])
    else [s[0]] + DropUnderscores(s[1..])
  }

  /** The unsigned part of a Python integer literal: digit groups, or nothing. */
  function ParseUnsigned(body: string): (r: Option<nat>)
    ensures r.Some? ==> body != [] && IsDigit(body[0]) && IsDigit(body[|body| - 1])
    ensures r.Some? ==> forall i :: 0 <= i < |body| ==> IsDigit(body[i]) || body[i] == '_'
    ensures AllDigits(body) && body != [] ==> r == Some(DigitsValue(body))
  {
    if DigitGroups(body) then Some(DigitsValue(DropUnderscores(body))) else None
  }

  /**
    The whitespace `int()` skips around its literal. An ASCII string reaches the
    parser unchanged, and the parser skips only the C whitespace: tab, line feed,
    vertical tab, form feed, carriage return and space. Any other string first has
    each non-ASCII whitespace character rewritten to a space. So U+001C to U+001F,
    which str.isspace accepts, are never skipped.
  */
  predicate IntSpace(c: char) {
    var n := c as int;
    (9 <= n <= 13) || n == 32 || (n > 127 && IsSpace(c))
  }

  /** Every character `int()` skips is whitespace to str.strip(). */
  lemma IntSpaceIsSpace(c: char)
    ensures IntSpace(c) ==> IsSpace(c)
    ensures IsSpace(c) && (c as int < 28 || c as int > 31) ==> IntSpace(c)
  {
  }

  /** The literal `int()` reads: `s` without the characters it skips at both ends. */
  function IntStrip(s: string): (r: string)
    ensures |r| <= |s|
    ensures r == [] <==> forall i :: 0 <= i < |s| ==> IntSpace(s[i])
    ensures r != [] ==> !IntSpace(r[0]) && !IntSpace(r[|r| - 1])
    ensures forall i :: 0 <= i < |s| && !IntSpace(s[i]) ==> s[i] in r
  {
    if s == [] then s
    else if IntSpace(s[0]) then
      assert forall i :: 1 <= i < |s| ==> s[i] == s[1..][i - 1];
      IntStrip(s[1..])
    else if IntSpace(s[|s| - 1]) then
      assert forall i :: 0 <= i < |s| - 1 ==> s[i] == s[..|s| - 1][i];
      IntStrip(s[..|s| - 1])
    else s
  }

  /** `int()` skips exactly the padding it treats as whitespace. */
  lemma {:induction false} IntStripPadded(a: string, w: string, b: string)
    requires forall i :: 0 <= i < |a| ==> IntSpace(a[i])
    requires forall i :: 0 <= i < |b| ==> IntSpace(b[i])
    requires w != [] && !IntSpace(w[0]) && !IntSpace(w[|w| - 1])
    ensures IntStrip(a + w + b) == w
    decreases |a| + |b|
  {
    var s := a + w + b;
    if a != [] {
      assert s[0] == a[0] && s[1..] == a[1..] + w + b;
      IntStripPadded(a[1..], w, b);
    } else if b != [] {
      assert s == w + b && s[|s| - 1] == b[|b| - 1];
      assert s[..|s| - 1] == a + w + b[..|b| - 1];
      IntStripPadded(a, w, b[..|b| - 1]);
    } else {
      assert s == w;
    }
  }

  /**
    Python's `int(s)` on base-10 text: padding of `IntSpace` characters, an
    optional sign, digit groups.
  */
  function PyInt(s: string): (r: Option<int>)
    ensures r.Some? ==> IntStrip(s) != [] && IsDigit(IntStrip(s)[|IntStrip(s)| - 1])
    ensures r.Some? ==> forall i :: 0 <= i < |s| ==> IntSpace(s[i]) || LiteralChar(s[i])
  {
    SignedInt(IntStrip(s))
  }

  /** A character that can occur in a base-10 integer literal: a digit, an underscore or a sign. */
  predicate LiteralChar(c: char) {
    IsDigit(c) || c == '_' || c == '+' || c == '-'
  }

  /** A signed integer literal with no surrounding whitespace. */
  function SignedInt(t: string): (r: Option<int>)
    ensures r.Some? ==> t != [] && IsDigit(t[|t| - 1])
    ensures r.Some? ==> forall c :: c in t ==> LiteralChar(c)
  {
    if t != [] && (t[0] == '+' || t[0] == '-') then
      match ParseUnsigned(t[1..])
      case Some(v) =>
        var signed: int := if t[0] == '-' then -(v as int) else v;
        Some(signed)
      case None => None
    else
      match ParseUnsigned(t)
      case Some(v) => Some(v)
      case None => None
  }

  /** `int(str(n)) == n`. */
  lemma PyIntOfNat(n: nat)
    ensures PyInt(NatToString(n)) == Some(n)
  {
    var s := NatToString(n);
    IntStripPadded([], s, []);
    assert [] + s + [] == s;
    DigitsValueOfNat(n);
  }

  /** A character after the digits of `n` is skipped when `int()` treats it as whitespace, and refused when it cannot occur in a literal. */
  lemma PyIntTrailing(n: nat, c: char)
    ensures IntSpace(c) ==> PyInt(NatToString(n) + [c]) == Some(n)
    ensures !IntSpace(c) && !LiteralChar(c) ==> PyInt(NatToString(n) + [c]).None?
  {
    var d := NatToString(n);
    if IntSpace(c) {
      assert IsDigit(d[0]) && IsDigit(d[|d| - 1]);
      PyIntBeforeSpace(d, c);
      PyIntOfNat(n);
    } else {
      assert (d + [c])[|d|] == c;
    }
  }

  /** A character `int()` skips, after a literal, does not change what `int()` reads. */
  lemma PyIntBeforeSpace(w: string, c: char)
    requires w != [] && !IntSpace(w[0]) && !IntSpace(w[|w| - 1]) && IntSpace(c)
    ensures PyInt(w + [c]) == PyInt(w)
  {
    IntStripPadded([], w, [c]);
    assert [] + w + [c] == w + [c];
    IntStripPadded([], w, []);
    assert [] + w + [] == w;
  }

  // ---------------------------------------------------------------------------
  // str.split(sep, 1)

  /** The index of the first `c` in `s`, or `|s|` when there is none. */
  function IndexOf(s: string, c: char): (k: nat)
    ensures k <= |s|
    ensures k < |s| ==> s[k] == c
    ensures forall i :: 0 <= i < k ==> s[i] != c
  {
    if s == [] then 0 else if s[0] == c then 0 else 1 + IndexOf(s[1..], c)
  }

  /** `s.split(c, 1)`: the text before the first `c` and, when there is one, the text after it. */
  function SplitOnce(s: string, c: char): (r: (string, Option<string>))
    ensures r.1.None? <==> c !in s
    ensures c !in r.0
    ensures r.1.None? ==> r.0 == s
    ensures r.1.Some? ==> s == r.0 + [c] + r.1.value
  {
    var k := IndexOf(s, c);
    if k == |s| then (s, None) else
      assert s == s[..k] + [c] + s[k + 1..];
      (s[..k], Some(s[k + 1..]))
  }

  /** Splitting `a + [c] + b` at its first `c` when `a` has none gives `a` and `b` back. */
  lemma SplitOnceJoin(a: string, c: char, b: string)
    requires c !in a
    ensures SplitOnce(a + [c] + b, c) == (a, Some(b))
  {
    var s := a + [c] + b;
    var r := SplitOnce(s, c);
    assert s[|a|] == c;
    assert forall i :: 0 <= i < |a| ==> s[i] == a[i];
    assert r.0 == s[..|a|] == a;
    assert r.1.value == s[|a| + 1..] == b;
  }
}
