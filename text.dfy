/** The string operations the scrapers apply to extracted text: Python's `str.strip()`,
    ASCII `lower()`, `str.replace(c, '')`, `' '.join(...)`, the `'N/A'` placeholder, and
    the decimal conversions of `int(...)` and of an f-string `{n}`. */
module Text {
  import opened Wrappers

  /** The placeholder the scrapers store for a sub-node that was not found. */
  const NA: string := "N/A"

  /** The characters for which Python's `str.isspace()` holds; `str.strip()` with no
      argument removes exactly these from both ends. */
  predicate IsSpace(c: char) {
    || c == ' '
    || ('\t' <= c <= '\r')
    || ('\U{1C}' <= c <= '\U{1F}')
    || c == '\U{85}' || c == '\U{A0}' || c == '\U{1680}'
    || ('\U{2000}' <= c <= '\U{200A}')
    || c == '\U{2028}' || c == '\U{2029}' || c == '\U{202F}' || c == '\U{205F}' || c == '\U{3000}'
  }

  predicate AllSpace(s: string) {
    forall i :: 0 <= i < |s| ==> IsSpace(s[i])
  }

  /** Neither end of `s` is whitespace: what `strip()` leaves. */
  predicate NoEdgeSpace(s: string) {
    s == [] || (!IsSpace(s[0]) && !IsSpace(s[|s| - 1]))
  }

  /** `s.lstrip()`: the longest suffix of `s` that does not start with whitespace. */
  function TrimStart(s: string): (r: string)
    ensures |r| <= |s|
    ensures r == [] || !IsSpace(r[0])
  {
    if s != [] && IsSpace(s[0]) then TrimStart(s[1..]) else s
  }

  /** `s.rstrip()`: the longest prefix of `s` that does not end with whitespace. */
  function TrimEnd(s: string): (r: string)
    ensures |r| <= |s| && (r != [] ==> r[0] == s[0])
    ensures r == [] || !IsSpace(r[|r| - 1])
  {
    if s != [] && IsSpace(s[|s| - 1]) then TrimEnd(s[..|s| - 1]) else s
  }

  /** `s.strip()`: `s` with its leading and trailing whitespace removed. What it returns is
      pinned down by `StripEdges` and `StripPadded`: every string is whitespace, then a text
      without whitespace at its edges, then whitespace, and stripping returns that middle
      text. */
  function Strip(s: string): string {
    TrimEnd(TrimStart(s))
  }

  /** What `strip()` returns is no longer than its argument and has no whitespace at
      either end. */
  lemma StripEdges(s: string)
    ensures |Strip(s)| <= |s|
    ensures NoEdgeSpace(Strip(s))
  {
    var t := TrimStart(s);
    var r := TrimEnd(t);
    assert r != [] ==> r[0] == t[0];
  }

  lemma {:induction false} TrimStartAllSpace(s: string)
    requires AllSpace(s)
    ensures TrimStart(s) == []
  {
    if s != [] {
      TrimStartAllSpace(s[1..]);
    }
  }

  lemma {:induction false} TrimStartPadded(pad: string, t: string)
    requires AllSpace(pad) && (t == [] || !IsSpace(t[0]))
    ensures TrimStart(pad + t) == t
  {
    if pad == [] {
      assert pad + t == t;
    } else {
      assert (pad + t)[1..] == pad[1..] + t;
      TrimStartPadded(pad[1..], t);
    }
  }

  lemma {:induction false} TrimEndPadded(t: string, pad: string)
    requires AllSpace(pad) && (t == [] || !IsSpace(t[|t| - 1]))
    ensures TrimEnd(t + pad) == t
  {
    if pad == [] {
      assert t + pad == t;
    } else {
      assert (t + pad)[..|t + pad| - 1] == t + pad[..|pad| - 1];
      TrimEndPadded(t, pad[..|pad| - 1]);
    }
  }

  /** Stripping undoes padding with whitespace on both sides. */
  lemma StripPadded(before: string, s: string, after: string)
    requires AllSpace(before) && AllSpace(after) && NoEdgeSpace(s)
    ensures Strip(before + s + after) == s
  {
    assert before + s + after == before + (s + after);
    if s == [] {
      assert before + s + after == before + after;
      TrimStartAllSpace(before + after);
    } else {
      TrimStartPadded(before, s + after);
      TrimEndPadded(s, after);
    }
  }

  /** Stripping twice is stripping once. */
  lemma StripIdempotent(s: string)
    ensures Strip(Strip(s)) == Strip(s)
  {
    var r := Strip(s);
    StripEdges(s);
    assert [] + r + [] == r;
    StripPadded([], r, []);
  }

  /** `node.get_text(strip=True) if node else 'N/A'`. */
  function StrippedOrNA(node: Option<string>): (r: string)
    ensures node.None? ==> r == NA
    ensures node.Some? ==> r == Strip(node.value)
  {
    match node
    case None => NA
    case Some(text) => Strip(text)
  }

  /** The placeholder stands in for a missing node; present text comes out stripped: no
      longer than the node's text and without whitespace at either end. */
  lemma StrippedOrNAShape(node: Option<string>)
    ensures node.None? ==> StrippedOrNA(node) == NA
    ensures NoEdgeSpace(StrippedOrNA(node))
    ensures node.Some? ==> |StrippedOrNA(node)| <= |node.value|
  {
    if node.Some? {
      StripEdges(node.value);
    }
  }

  /** Python's `lower()` on one character, for the ASCII letters: a capital becomes its
      small letter, and what comes out is never a capital. */
  function LowerChar(c: char): (r: char)
    ensures 'A' <= c <= 'Z' ==> r as int == c as int + 32
    ensures !('A' <= c <= 'Z') ==> r == c
    ensures !('A' <= r <= 'Z')
  {
    if 'A' <= c <= 'Z' then (c as int + 32) as char else c
  }

  /** `s.lower()`, lower-casing the ASCII letters one character at a time. */
  function Lower(s: string): string {
    seq(|s|, i requires 0 <= i < |s| => LowerChar(s[i]))
  }

  /** How `Lower` is read off character by character. */
  lemma LowerAt(s: string)
    ensures |Lower(s)| == |s|
    ensures forall i :: 0 <= i < |s| ==> Lower(s)[i] == LowerChar(s[i])
  {
  }

  /** `lower()` changes exactly the ASCII capitals of `s`, and leaves none behind. */
  lemma LowerChangesCapitals(s: string)
    ensures |Lower(s)| == |s|
    ensures forall i :: 0 <= i < |s| ==> (Lower(s)[i] != s[i] <==> 'A' <= s[i] <= 'Z')
    ensures forall i :: 0 <= i < |s| ==> !('A' <= Lower(s)[i] <= 'Z')
  {
    LowerAt(s);
  }

  /** Lower-casing twice is lower-casing once. */
  lemma LowerIdempotent(s: string)
    ensures Lower(Lower(s)) == Lower(s)
  {
  }

  /** `s.replace(c, '')`: `s` without any occurrence of `c` (see `WithoutSpec`). */
  function Without(s: string, c: char): string {
    if s == [] then [] else (if s[0] == c then [] else [s[0]]) + Without(s[1..], c)
  }

  /** Every occurrence of `c` is removed, and every other character is kept as often as it
      occurred. */
  lemma {:induction false} WithoutSpec(s: string, c: char)
    ensures |Without(s, c)| <= |s|
    ensures c !in Without(s, c)
    ensures forall x :: x != c ==> multiset(Without(s, c))[x] == multiset(s)[x]
  {
    if s != [] {
      WithoutSpec(s[1..], c);
      assert s == [s[0]] + s[1..];
      var head: string := if s[0] == c then [] else [s[0]];
      assert Without(s, c) == head + Without(s[1..], c);
      assert multiset(Without(s, c)) == multiset(head) + multiset(Without(s[1..], c));
      assert multiset(s) == multiset([s[0]]) + multiset(s[1..]);
    }
  }

  /** Removing a character that does not occur changes nothing. */
  lemma {:induction false} WithoutAbsent(s: string, c: char)
    requires c !in s
    ensures Without(s, c) == s
  {
    if s != [] {
      assert c !in s[1..];
      WithoutAbsent(s[1..], c);
    }
  }

  /** Removal works piecewise, so the characters that remain keep their order. */
  lemma {:induction false} WithoutAppend(s: string, t: string, c: char)
    ensures Without(s + t, c) == Without(s, c) + Without(t, c)
  {
    if s == [] {
      assert s + t == t;
    } else {
      assert (s + t)[0] == s[0];
      assert (s + t)[1..] == s[1..] + t;
      WithoutAppend(s[1..], t, c);
    }
  }

  /** `' '.join(parts)`. */
  function JoinSpaces(parts: seq<string>): string {
    if parts == [] then ""
    else if |parts| == 1 then parts[0]
    else parts[0] + " " + JoinSpaces(parts[1..])
  }

  /** The index of the first `' '` in `s`, or `|s|` when there is none. */
  function FirstSpace(s: string): (i: nat)
    ensures i <= |s| && ' ' !in s[..i]
    ensures i < |s| ==> s[i] == ' '
  {
    if s == [] || s[0] == ' ' then 0 else 1 + FirstSpace(s[1..])
  }

  /** `s.split(' ')`: the pieces between single spaces, including empty ones. */
  function SplitSpaces(s: string): (parts: seq<string>)
    ensures |parts| > 0
    decreases |s|
  {
    var i := FirstSpace(s);
    if i == |s| then [s] else [s[..i]] + SplitSpaces(s[i + 1..])
  }

  lemma {:induction false} FirstSpaceOfJoin(p: string, rest: string)
    requires ' ' !in p
    ensures FirstSpace(p + " " + rest) == |p|
  {
    if p != [] {
      assert (p + " " + rest)[1..] == p[1..] + " " + rest;
      assert ' ' !in p[1..];
      FirstSpaceOfJoin(p[1..], rest);
    }
  }

  lemma {:induction false} FirstSpaceNone(p: string)
    requires ' ' !in p
    ensures FirstSpace(p) == |p|
  {
    if p != [] {
      assert ' ' !in p[1..];
      FirstSpaceNone(p[1..]);
    }
  }

  /** Splitting a piece without a space, then a space, then more text, gives that piece and
      then the pieces of the rest. */
  lemma SplitSpacesCons(p: string, rest: string)
    requires ' ' !in p
    ensures SplitSpaces(p + " " + rest) == [p] + SplitSpaces(rest)
  {
    var s := p + " " + rest;
    FirstSpaceOfJoin(p, rest);
    assert s[..|p|] == p;
    assert s[|p| + 1..] == rest;
  }

  /** Joining pieces that hold no space with single spaces, then splitting on `' '`, gives
      the pieces back: the joined text loses no piece and invents none. */
  lemma {:induction false} SplitJoin(parts: seq<string>)
    requires |parts| > 0
    requires forall i :: 0 <= i < |parts| ==> ' ' !in parts[i]
    ensures SplitSpaces(JoinSpaces(parts)) == parts
    decreases |parts|
  {
    if |parts| == 1 {
      FirstSpaceNone(parts[0]);
    } else {
      assert ' ' !in parts[0];
      SplitSpacesCons(parts[0], JoinSpaces(parts[1..]));
      SplitJoin(parts[1..]);
      assert parts == [parts[0]] + parts[1..];
    }
  }

  predicate IsDigit(c: char) {
    '0' <= c <= '9'
  }

  predicate AllDigits(s: string) {
    forall i :: 0 <= i < |s| ==> IsDigit(s[i])
  }

  function DigitChar(d: nat): (c: char)
    requires d < 10
    ensures IsDigit(c) && c as int - '0' as int == d
  {
    ('0' as int + d) as char
  }

  /** The value of a string of decimal digits, most significant first. */
  function NatValue(s: string): nat
    requires AllDigits(s)
  {
    if s == [] then 0 else NatValue(s[..|s| - 1]) * 10 + (s[|s| - 1] as int - '0' as int)
  }

  /** `str(n)` for a natural number: its shortest decimal spelling. */
  function NatToString(n: nat): (s: string)
    ensures |s| > 0 && AllDigits(s)
  {
    if n < 10 then [DigitChar(n)] else NatToString(n / 10) + [DigitChar(n % 10)]
  }

  lemma {:induction false} NatValueOfString(n: nat)
    ensures NatValue(NatToString(n)) == n
  {
    if n >= 10 {
      var s := NatToString(n);
      assert s[..|s| - 1] == NatToString(n / 10);
      NatValueOfString(n / 10);
    }
  }

  /** The text an f-string writes for an integer: `str(i)`. */
  function IntToString(i: int): string {
    if i < 0 then "-" + NatToString(-i) else NatToString(i)
  }

  /** `int(s)` for base-10 text: surrounding text that `strip()` removes is ignored (a wider
      set than `int()` skips), then an optional sign and at least one ASCII digit; anything
      else raises `ValueError` (here `None`). */
  function ParseInt(s: string): Option<int> {
    ParseSigned(Strip(s))
  }

  /** An optional `+` or `-` followed by one or more ASCII digits. */
  function ParseSigned(t: string): Option<int> {
    if |t| > 1 && (t[0] == '-' || t[0] == '+') && AllDigits(t[1..]) then
      var magnitude: int := NatValue(t[1..]);
      Some(if t[0] == '-' then -magnitude else magnitude)
    else if |t| > 0 && AllDigits(t) then
      Some(NatValue(t))
    else
      None
  }

  lemma IntToStringUnpadded(i: int)
    ensures Strip(IntToString(i)) == IntToString(i)
  {
    var s := IntToString(i);
    assert NoEdgeSpace(s) by {
      assert !IsSpace(s[0]);
      assert !IsSpace(s[|s| - 1]);
    }
    assert [] + s + [] == s;
    StripPadded([], s, []);
  }

  lemma ParseSignedOfString(i: int)
    ensures ParseSigned(IntToString(i)) == Some(i)
  {
    var n: nat := if i < 0 then -i else i;
    NatValueOfString(n);
    if i < 0 {
      var s := IntToString(i);
      assert s[1..] == NatToString(n);
    }
  }

  /** Reading back the decimal spelling of an integer gives that integer. */
  lemma ParseIntOfString(i: int)
    ensures ParseInt(IntToString(i)) == Some(i)
  {
    IntToStringUnpadded(i);
    ParseSignedOfString(i);
  }

  /** Different integers are spelled differently. */
  lemma IntToStringInjective(i: int, j: int)
    requires IntToString(i) == IntToString(j)
    ensures i == j
  {
    ParseIntOfString(i);
    ParseIntOfString(j);
  }
}
