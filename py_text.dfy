/** The few Python string built-ins the schedule loop relies on: `str.strip()`,
    `str.split(sep)[0]`, `str.split(sep, 1)`, slicing `s[:n]` and `int(s)`.
    Each is modelled on `string` (a sequence of characters). */
module PyText {

  datatype Option<T> = None | Some(value: T)

  /** The characters `str.strip()` discards: the ASCII whitespace that
      Python's `str.isspace()` accepts, plus NEL and NO-BREAK SPACE. */
  predicate IsSpace(c: char) {
    c == ' ' || c == '\t' || c == '\n' || c == '\r' || c == '\U{0B}' || c == '\U{0C}'
    || c == '\U{1C}' || c == '\U{1D}' || c == '\U{1E}' || c == '\U{1F}'
    || c == '\U{85}' || c == '\U{A0}'
  }

  /** The whitespace of C's `isspace`: the only characters `int()` skips
      around the digits of an all-ASCII text. */
  predicate IsAsciiSpace(c: char) {
    c == ' ' || c == '\t' || c == '\n' || c == '\r' || c == '\U{0B}' || c == '\U{0C}'
  }

  /** Which whitespace a strip removes: all of `str.isspace()`'s, or only
      C's `isspace`. */
  datatype Spaces = StrSpaces | AsciiSpaces

  predicate IsBlank(k: Spaces, c: char) {
    IsSpace(c) && (k == StrSpaces || IsAsciiSpace(c))
  }

  // ---------------------------------------------------------------------------
  // str.strip()

  /** Drops the leading whitespace of `s`, and nothing else. */
  function StripLeft(k: Spaces, s: string): (r: string)
    ensures |r| <= |s| && r == s[|s| - |r|..]
    ensures forall i :: 0 <= i < |s| - |r| ==> IsBlank(k, s[i])
    ensures r == [] || !IsBlank(k, r[0])
    decreases |s|
  {
    if s != [] && IsBlank(k, s[0]) then StripLeft(k, s[1..]) else s
  }

  /** Drops the trailing whitespace of `s`, and nothing else. */
  function StripRight(k: Spaces, s: string): (r: string)
    ensures |r| <= |s| && r == s[..|r|]
    ensures forall i :: |r| <= i < |s| ==> IsBlank(k, s[i])
    ensures r == [] || !IsBlank(k, r[|r| - 1])
    decreases |s|
  {
    if s != [] && IsBlank(k, s[|s| - 1]) then StripRight(k, s[..|s| - 1]) else s
  }

  /** Drops the whitespace of kind `k` at both ends: the result neither
      starts nor ends with it, and a string that already does not is
      returned unchanged. */
  function StripBy(k: Spaces, s: string): (r: string)
    ensures |r| <= |s|
    ensures r == [] || (!IsBlank(k, r[0]) && !IsBlank(k, r[|r| - 1]))
    ensures s == [] || (!IsBlank(k, s[0]) && !IsBlank(k, s[|s| - 1])) ==> r == s
  {
    var t := StripLeft(k, s);
    var r := StripRight(k, t);
    assert r != [] ==> r[0] == t[0];
    r
  }

  /** Python's `s.strip()`: the result neither starts nor ends with
      whitespace, and a string that already does not is returned unchanged. */
  function Strip(s: string): (r: string)
    ensures |r| <= |s|
    ensures r == [] || (!IsSpace(r[0]) && !IsSpace(r[|r| - 1]))
    ensures s == [] || (!IsSpace(s[0]) && !IsSpace(s[|s| - 1])) ==> r == s
  {
    StripBy(StrSpaces, s)
  }

  // ---------------------------------------------------------------------------
  // Searching and splitting

  /** `sep` occurs in `s` starting at position `k`. */
  predicate OccursAt(s: string, sep: string, k: nat) {
    k + |sep| <= |s| && s[k..k + |sep|] == sep
  }

  /** The first position at or after `from` where `sep` occurs in `s`. */
  function FindFrom(s: string, sep: string, from: nat): (r: Option<nat>)
    requires |sep| > 0 && from <= |s|
    ensures r.Some? ==> from <= r.value && OccursAt(s, sep, r.value)
    ensures r.Some? ==> forall k :: from <= k < r.value ==> !OccursAt(s, sep, k)
    ensures r.None? ==> forall k :: from <= k <= |s| ==> !OccursAt(s, sep, k)
    decreases |s| - from
  {
    if from + |sep| > |s| then None
    else if s[from..from + |sep|] == sep then Some(from)
    else FindFrom(s, sep, from + 1)
  }

  /** Python's `s.find(sep)`, with `None` for -1. */
  function Find(s: string, sep: string): (r: Option<nat>)
    requires |sep| > 0
    ensures r.Some? ==> OccursAt(s, sep, r.value)
    ensures r.Some? ==> forall k :: 0 <= k < r.value ==> !OccursAt(s, sep, k)
    ensures r.None? ==> forall k :: 0 <= k <= |s| ==> !OccursAt(s, sep, k)
  {
    FindFrom(s, sep, 0)
  }

  /** Python's `s.split(sep)[0]`: the text before the first `sep`, or all of `s`. */
  function SplitHead(s: string, sep: string): (r: string)
    requires |sep| > 0
    ensures r <= s
    ensures forall k :: 0 <= k < |r| ==> !OccursAt(s, sep, k)
    ensures r == s || OccursAt(s, sep, |r|)
  {
    match Find(s, sep)
    case Some(i) => s[..i]
    case None => s
  }

  /** Python's `s.split(sep, 1)` when it yields two parts: the text before and
      the text after the first `sep`. `None` when `sep` does not occur, where
      Python yields a single part. */
  function SplitOnce(s: string, sep: string): (r: Option<(string, string)>)
    requires |sep| > 0
    ensures r.None? <==> forall k :: 0 <= k <= |s| ==> !OccursAt(s, sep, k)
    ensures r.Some? ==> r.value.0 + sep + r.value.1 == s
    ensures r.Some? ==> r.value.0 == SplitHead(s, sep)
  {
    match Find(s, sep)
    case Some(i) =>
      assert s[..i] + sep + s[i + |sep|..] == s by {
        assert s[i..i + |sep|] == sep;
        assert s == s[..i] + s[i..i + |sep|] + s[i + |sep|..];
      }
      Some((s[..i], s[i + |sep|..]))
    case None => None
  }

  /** Python's slice `s[:n]`. */
  function Prefix(s: string, n: nat): (r: string)
    ensures r <= s && |r| == if |s| <= n then |s| else n
  {
    if |s| <= n then s else s[..n]
  }

  /** Splitting `a + sep + b` at `sep` gives back `a` and `b` when `sep` does
      not start anywhere inside `a`. */
  lemma SplitAtFirst(a: string, sep: string, b: string)
    requires |sep| > 0
    requires forall k :: 0 <= k < |a| ==> !OccursAt(a + sep + b, sep, k)
    ensures SplitOnce(a + sep + b, sep) == Some((a, b))
    ensures SplitHead(a + sep + b, sep) == a
  {
    var s := a + sep + b;
    assert s[|a|..|a| + |sep|] == sep;
    assert OccursAt(s, sep, |a|);
    assert Find(s, sep) == Some(|a|);
    assert s[..|a|] == a;
    assert s[|a| + |sep|..] == b;
  }

  /** Splitting at a one-character separator that `a` does not contain. */
  lemma SplitAtChar(a: string, c: char, b: string)
    requires c !in a
    ensures SplitOnce(a + [c] + b, [c]) == Some((a, b))
    ensures SplitHead(a + [c] + b, [c]) == a
  {
    var s := a + [c] + b;
    forall k | 0 <= k < |a| ensures !OccursAt(s, [c], k) {
      assert s[k..k + 1] == [a[k]];
    }
    SplitAtFirst(a, [c], b);
  }

  /** A string with no occurrence of a one-character separator is its own head. */
  lemma SplitHeadWithoutChar(s: string, c: char)
    requires c !in s
    ensures SplitHead(s, [c]) == s
    ensures SplitOnce(s, [c]) == None
  {
    forall k | 0 <= k <= |s| ensures !OccursAt(s, [c], k) {
      if k < |s| {
        assert s[k..k + 1] == [s[k]];
      }
    }
  }

  /** `split(c, 1)` finds two parts exactly when the character occurs. */
  lemma SplitOnceFindsChar(s: string, c: char)
    ensures SplitOnce(s, [c]).Some? <==> c in s
  {
    if c in s {
      var k :| 0 <= k < |s| && s[k] == c;
      assert s[k..k + 1] == [c];
      assert OccursAt(s, [c], k);
    } else {
      SplitHeadWithoutChar(s, c);
    }
  }

  // ---------------------------------------------------------------------------
  // int()

  predicate IsDigit(c: char) { '0' <= c <= '9' }

  predicate AllDigits(s: string) { forall i :: 0 <= i < |s| ==> IsDigit(s[i]) }

  lemma DigitNotSpace(c: char)
    requires IsDigit(c)
    ensures !IsSpace(c)
  {
  }

  function DigitValue(c: char): (d: nat)
    requires IsDigit(c)
    ensures d < 10
  {
    c as int - '0' as int
  }

  function DigitChar(d: nat): (c: char)
    requires d < 10
    ensures IsDigit(c) && DigitValue(c) == d
  {
    ('0' as int + d) as char
  }

  function Pow10(n: nat): (p: nat)
    ensures p >= 1
  {
    if n == 0 then 1 else 10 * Pow10(n - 1)
  }

  /** The value of a string of decimal digits, most significant first; it has
      fewer than `|ds|` digits' worth of magnitude. */
  function DigitsValue(ds: string): (n: nat)
    requires AllDigits(ds)
    ensures n < Pow10(|ds|)
    decreases |ds|
  {
    if ds == [] then 0 else DigitsValue(ds[..|ds| - 1]) * 10 + DigitValue(ds[|ds| - 1])
  }

  /** The text after an optional leading sign. */
  function Unsigned(t: string): (r: string)
    ensures r == t || (t != [] && (t[0] == '+' || t[0] == '-') && r == t[1..])
  {
    if t != [] && (t[0] == '+' || t[0] == '-') then t[1..] else t
  }

  /** The text `int()` accepts once stripped: an optional sign, then one or
      more decimal digits, and nothing else. */
  predicate IntText(t: string) {
    Unsigned(t) != [] && AllDigits(Unsigned(t))
  }

  predicate AllAscii(s: string) { forall i :: 0 <= i < |s| ==> s[i] as int < 0x80 }

  /** The whitespace `int()` skips in `s`. An all-ASCII text is handed to the
      digit reader as it is, which skips only C's `isspace`; a text with any
      other character first has all its whitespace turned into spaces. */
  function IntSpaces(s: string): Spaces {
    if AllAscii(s) then AsciiSpaces else StrSpaces
  }

  /** What is left of `s` once `int()` has skipped the whitespace around it. */
  function IntStrip(s: string): (r: string)
    ensures |r| <= |s|
    ensures r == [] || (!IsBlank(IntSpaces(s), r[0]) && !IsBlank(IntSpaces(s), r[|r| - 1]))
  {
    StripBy(IntSpaces(s), s)
  }

  /** Python's `int(s)` in base 10: surrounding whitespace, then an optional
      sign, then one or more decimal digits. It succeeds exactly on such text,
      and then its magnitude is the value of the digits, negative only after
      a minus sign. A string with no digit at all (such as "" or "TBD") is
      never an integer. */
  function ParseInt(s: string): (r: Option<int>)
    ensures r.Some? <==> IntText(IntStrip(s))
    ensures r.Some? ==> r.value == DigitsValue(Unsigned(IntStrip(s))) || r.value == -(DigitsValue(Unsigned(IntStrip(s))) as int)
    ensures r.Some? && r.value < 0 ==> IntStrip(s)[0] == '-'
    ensures r.Some? && IntStrip(s)[0] == '-' ==> r.value <= 0
    ensures (forall i :: 0 <= i < |s| ==> !IsDigit(s[i])) ==> r.None?
  {
    var t := IntStrip(s);
    var r := ParseSigned(t);
    assert r.Some? ==> exists i :: 0 <= i < |s| && IsDigit(s[i]) by {
      if r.Some? {
        var k :| 0 <= k < |t| && IsDigit(t[k]);
        StripKeepsCharacters(IntSpaces(s), s, t[k]);
      }
    }
    r
  }

  /** An optional sign followed by one or more decimal digits, nothing else. */
  function ParseSigned(t: string): (r: Option<int>)
    ensures r.Some? <==> IntText(t)
    ensures r.Some? ==> exists k :: 0 <= k < |t| && IsDigit(t[k])
  {
    var body := Unsigned(t);
    if body != [] && AllDigits(body) then
      assert IsDigit(t[|t| - |body|]);
      var n: int := DigitsValue(body);
      Some(if t[0] == '-' then -n else n)
    else None
  }

  /** Every character that survives `Strip` comes from the original string. */
  lemma StripKeepsCharacters(k: Spaces, s: string, c: char)
    requires c in StripBy(k, s)
    ensures c in s
  {
    var t := StripLeft(k, s);
    assert c in StripRight(k, t);
    assert c in t;
  }

  // ---------------------------------------------------------------------------
  // Decimal rendering, the inverse of int()

  /** The decimal digits of `n` without leading zeros, as Python's `str(n)`. */
  function NatToString(n: nat): (r: string)
    ensures r != [] && AllDigits(r) && DigitsValue(r) == n
    decreases n
  {
    if n < 10 then [DigitChar(n)]
    else
      var r := NatToString(n / 10) + [DigitChar(n % 10)];
      assert r[..|r| - 1] == NatToString(n / 10);
      r
  }

  /** Python's `str(n)` for any integer. */
  function IntToString(n: int): (r: string)
    ensures r != [] && !IsSpace(r[0]) && !IsSpace(r[|r| - 1])
  {
    if n < 0 then "-" + NatToString(-n) else NatToString(n)
  }

  /** `int(str(n)) == n` for every integer `n`. */
  lemma ParseIntRoundTrip(n: int)
    ensures ParseInt(IntToString(n)) == Some(n)
  {
    var s := IntToString(n);
    assert IntStrip(s) == s;
    if n < 0 {
      assert s[1..] == NatToString(-n);
    } else {
      assert !(s[0] == '+' || s[0] == '-') by { assert IsDigit(s[0]); }
    }
  }

  /** Whitespace around a number does not change what `int()` reads, as long
      as it is whitespace `int()` skips in that text: any of C's `isspace`,
      and any whitespace at all once the text holds a non-ASCII character. */
  lemma ParseIntIgnoresPadding(pad1: string, s: string, pad2: string)
    requires forall i :: 0 <= i < |pad1| ==> IsBlank(IntSpaces(pad1 + s + pad2), pad1[i])
    requires forall i :: 0 <= i < |pad2| ==> IsBlank(IntSpaces(pad1 + s + pad2), pad2[i])
    requires s == [] || (!IsSpace(s[0]) && !IsSpace(s[|s| - 1]))
    ensures ParseInt(pad1 + s + pad2) == ParseInt(s)
  {
    StripPadding(IntSpaces(pad1 + s + pad2), pad1, s, pad2);
    assert IntStrip(s) == s;
  }

  /** The separators U+001C..U+001F count as whitespace for `str.strip()`
      but not for `int()` on an all-ASCII text: in front of a number they
      make `int()` fail. */
  lemma ParseIntRejectsSeparator(c: char, s: string)
    requires '\U{1C}' <= c <= '\U{1F}' && AllAscii(s)
    ensures ParseInt([c] + s) == None
  {
    var t := [c] + s;
    assert AllAscii(t) by {
      assert forall i :: 1 <= i < |t| ==> t[i] == s[i - 1];
    }
    assert StripLeft(AsciiSpaces, t) == t;
    var r := IntStrip(t);
    if r != [] {
      assert r[0] == c;
      assert !IsDigit(Unsigned(r)[0]);
    }
  }

  /** Stripping removes exactly the surrounding whitespace of its kind. */
  lemma StripPadding(k: Spaces, pad1: string, s: string, pad2: string)
    requires forall i :: 0 <= i < |pad1| ==> IsBlank(k, pad1[i])
    requires forall i :: 0 <= i < |pad2| ==> IsBlank(k, pad2[i])
    requires s == [] || (!IsBlank(k, s[0]) && !IsBlank(k, s[|s| - 1]))
    ensures StripBy(k, pad1 + s + pad2) == s
  {
    var x := s + pad2;
    assert pad1 + s + pad2 == pad1 + x;
    StripLeftPadding(k, pad1, x);
    if s == [] {
      AllPadding(k, pad2);
    } else {
      TrailingPadding(k, s, pad2);
    }
  }

  /** Whitespace alone strips to nothing. */
  lemma {:induction false} AllPadding(k: Spaces, pad: string)
    requires forall i :: 0 <= i < |pad| ==> IsBlank(k, pad[i])
    ensures StripRight(k, StripLeft(k, pad)) == []
    decreases |pad|
  {
    if pad != [] {
      assert IsBlank(k, pad[0]);
      assert StripLeft(k, pad) == StripLeft(k, pad[1..]);
      AllPadding(k, pad[1..]);
    }
  }

  /** Text that starts and ends with a non-space keeps all of itself and
      loses the whitespace after it. */
  lemma TrailingPadding(k: Spaces, s: string, pad: string)
    requires forall i :: 0 <= i < |pad| ==> IsBlank(k, pad[i])
    requires s != [] && !IsBlank(k, s[0]) && !IsBlank(k, s[|s| - 1])
    ensures StripRight(k, StripLeft(k, s + pad)) == s
  {
    assert (s + pad)[0] == s[0];
    StripRightPadding(k, s, pad);
  }

  /** Leading whitespace is all that `StripLeft` removes. */
  lemma {:induction false} StripLeftPadding(k: Spaces, pad: string, x: string)
    requires forall i :: 0 <= i < |pad| ==> IsBlank(k, pad[i])
    ensures StripLeft(k, pad + x) == StripLeft(k, x)
    decreases |pad|
  {
    if pad != [] {
      assert (pad + x)[1..] == pad[1..] + x;
      StripLeftPadding(k, pad[1..], x);
    } else {
      assert pad + x == x;
    }
  }

  /** Trailing whitespace is all that `StripRight` removes. */
  lemma {:induction false} StripRightPadding(k: Spaces, x: string, pad: string)
    requires forall i :: 0 <= i < |pad| ==> IsBlank(k, pad[i])
    ensures StripRight(k, x + pad) == StripRight(k, x)
    decreases |pad|
  {
    if pad != [] {
      assert (x + pad)[..|x + pad| - 1] == x + pad[..|pad| - 1];
      StripRightPadding(k, x, pad[..|pad| - 1]);
    } else {
      assert x + pad == x;
    }
  }
}
