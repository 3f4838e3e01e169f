/** Character-level models of the Python string operations the record
    builders and the deduplicator use: `str.strip()`, `str.lower()`,
    `str.split(sep)`, `sep.join(parts)` and `str(n)` for an integer. */
module Text {

  /** The characters for which Python's `str.isspace()` holds; these are the
      characters `str.strip()` removes when called without arguments. */
  predicate IsSpace(c: char) {
    || ('\U{9}' <= c <= '\U{D}')
    || ('\U{1C}' <= c <= '\U{20}')
    || c == '\U{85}' || c == '\U{A0}' || c == '\U{1680}'
    || ('\U{2000}' <= c <= '\U{200A}')
    || c == '\U{2028}' || c == '\U{2029}' || c == '\U{202F}'
    || c == '\U{205F}' || c == '\U{3000}'
  }

  predicate AllSpace(s: string) {
    forall i :: 0 <= i < |s| ==> IsSpace(s[i])
  }

  /** Neither the first nor the last character is whitespace. */
  predicate IsStripped(s: string) {
    s == [] || (!IsSpace(s[0]) && !IsSpace(s[|s| - 1]))
  }

  /** `r` is what is left of `s` once the whitespace run `s[..i]` in front and
      the whitespace run behind are removed. */
  predicate TrimsTo(s: string, r: string, i: nat) {
    i + |r| <= |s| && s[i..i + |r|] == r && AllSpace(s[..i]) && AllSpace(s[i + |r|..])
  }

  /** The length of the whitespace run at the front of `s`. */
  function LeadingSpace(s: string): (n: nat)
    ensures n <= |s|
    ensures forall i :: 0 <= i < n ==> IsSpace(s[i])
    ensures n == |s| || !IsSpace(s[n])
  {
    if s != [] && IsSpace(s[0]) then
      var n := LeadingSpace(s[1..]);
      assert forall i :: 1 <= i <= n ==> s[i] == s[1..][i - 1];
      1 + n
    else
      0
  }

  /** The length of the whitespace run at the back of `s`. */
  function TrailingSpace(s: string): (n: nat)
    ensures n <= |s|
    ensures forall i :: |s| - n <= i < |s| ==> IsSpace(s[i])
    ensures n == |s| || !IsSpace(s[|s| - n - 1])
  {
    if s != [] && IsSpace(s[|s| - 1]) then
      var n := TrailingSpace(s[..|s| - 1]);
      assert forall i :: |s| - 1 - n <= i < |s| - 1 ==> s[i] == s[..|s| - 1][i];
      1 + n
    else
      0
  }

  /** Python's `str.strip()`: only surrounding whitespace is removed, and
      what is left neither starts nor ends with whitespace. */
  function Strip(s: string): (r: string)
    ensures IsStripped(r)
    ensures TrimsTo(s, r, LeadingSpace(s))
  {
    var i := LeadingSpace(s);
    var t := s[i..];
    var j := TrailingSpace(t);
    var r := t[..|t| - j];
    TrimBoth(s, i, j, r);
    r
  }

  /** Removing a front run of `i` and a back run of `j` whitespace characters
      from `s` leaves `r` between two whitespace runs of `s`. */
  lemma TrimBoth(s: string, i: nat, j: nat, r: string)
    requires i + j <= |s| && r == s[i..][..|s| - i - j]
    requires forall k :: 0 <= k < i ==> IsSpace(s[k])
    requires i == |s| || !IsSpace(s[i])
    requires forall k :: |s| - i - j <= k < |s| - i ==> IsSpace(s[i..][k])
    requires i + j == |s| || !IsSpace(s[i..][|s| - i - j - 1])
    ensures IsStripped(r)
    ensures TrimsTo(s, r, i)
  {
    assert |r| == |s| - i - j;
    assert s[i..i + |r|] == r;
    assert forall k :: |s| - j <= k < |s| ==> s[k] == s[i..][k - i];
    if r != [] {
      assert r[0] == s[i];
      assert r[|r| - 1] == s[i..][|s| - i - j - 1];
    }
  }

  lemma {:induction false} LeadingOfSpacePrefix(a: string, t: string)
    requires AllSpace(a)
    requires t == [] || !IsSpace(t[0])
    ensures LeadingSpace(a + t) == |a|
    decreases |a|
  {
    if a == [] {
      assert a + t == t;
    } else {
      assert (a + t)[1..] == a[1..] + t;
      LeadingOfSpacePrefix(a[1..], t);
    }
  }

  lemma {:induction false} TrailingOfSpaceSuffix(t: string, b: string)
    requires AllSpace(b)
    requires t == [] || !IsSpace(t[|t| - 1])
    ensures TrailingSpace(t + b) == |b|
    decreases |b|
  {
    if b == [] {
      assert t + b == t;
    } else {
      assert (t + b)[..|t + b| - 1] == t + b[..|b| - 1];
      TrailingOfSpaceSuffix(t, b[..|b| - 1]);
    }
  }

  /** Stripping is determined by its meaning: whatever whitespace surrounds a
      string that does not itself start or end with whitespace is removed, and
      nothing else. */
  lemma StripUnique(a: string, m: string, b: string)
    requires AllSpace(a) && AllSpace(b) && IsStripped(m)
    ensures Strip(a + m + b) == m
  {
    var s := a + m + b;
    if m == [] {
      assert s == (a + b) + [];
      assert AllSpace(a + b);
      LeadingOfSpacePrefix(a + b, []);
    } else {
      assert s == a + (m + b);
      LeadingOfSpacePrefix(a, m + b);
      assert s[|a|..] == m + b;
      TrailingOfSpaceSuffix(m, b);
      assert (m + b)[..|m|] == m;
    }
  }

  /** Stripping a stripped string changes nothing. */
  lemma StripIdempotent(s: string)
    ensures Strip(Strip(s)) == Strip(s)
  {
    var r := Strip(s);
    assert LeadingSpace(r) == 0;
    assert r[0..] == r;
    assert TrailingSpace(r) == 0;
  }

  /** The ASCII part of Python's `str.lower()`. */
  function LowerChar(c: char): char {
    if 'A' <= c <= 'Z' then (c as int + 32) as char else c
  }

  predicate IsAsciiUpper(c: char) {
    'A' <= c <= 'Z'
  }

  /** `str.lower()`, restricted to the ASCII letters. */
  function Lower(s: string): (r: string)
    ensures |r| == |s|
    ensures forall i :: 0 <= i < |s| ==> r[i] == LowerChar(s[i])
  {
    if s == [] then [] else [LowerChar(s[0])] + Lower(s[1..])
  }

  /** Two characters are equal up to the case of an ASCII letter. */
  predicate SameLetterIgnoringCase(c: char, d: char) {
    || c == d
    || (IsAsciiUpper(c) && d as int == c as int + 32)
    || (IsAsciiUpper(d) && c as int == d as int + 32)
  }

  predicate EqualIgnoringCase(s: string, t: string) {
    |s| == |t| && forall i :: 0 <= i < |s| ==> SameLetterIgnoringCase(s[i], t[i])
  }

  /** Lower-casing leaves no upper-case ASCII letter behind. */
  lemma LowerHasNoUpper(s: string)
    ensures forall i :: 0 <= i < |s| ==> !IsAsciiUpper(Lower(s)[i])
  {
  }

  lemma LowerIdempotent(s: string)
    ensures Lower(Lower(s)) == Lower(s)
  {
    assert forall i :: 0 <= i < |s| ==> Lower(Lower(s))[i] == Lower(s)[i];
  }

  /** Two strings lower-case to the same string exactly when they are equal
      up to the case of their ASCII letters. */
  lemma LowerEqualIff(s: string, t: string)
    ensures Lower(s) == Lower(t) <==> EqualIgnoringCase(s, t)
  {
    if Lower(s) == Lower(t) {
      forall i | 0 <= i < |s| ensures SameLetterIgnoringCase(s[i], t[i]) {
        assert Lower(s)[i] == Lower(t)[i];
        SameLetterIffSameLower(s[i], t[i]);
      }
    }
    if EqualIgnoringCase(s, t) {
      forall i | 0 <= i < |s| ensures Lower(s)[i] == Lower(t)[i] {
        SameLetterIffSameLower(s[i], t[i]);
      }
    }
  }

  lemma SameLetterIffSameLower(c: char, d: char)
    ensures SameLetterIgnoringCase(c, d) <==> LowerChar(c) == LowerChar(d)
  {
  }

  /** `p` is the part of `s` in front of the first `c`, or all of `s` when
      it has no `c`. */
  predicate IsFirstField(s: string, c: char, p: string) {
    |p| <= |s| && p == s[..|p|] && c !in p && (|p| == |s| || s[|p|] == c)
  }

  /** Python's `s.split(c)` for a one-character separator: the pieces between
      the occurrences of `c`, so there is always at least one piece, and the
      first piece is the part of `s` in front of its first `c`. */
  function Split(s: string, c: char): (parts: seq<string>)
    ensures |parts| >= 1
    ensures forall i :: 0 <= i < |parts| ==> c !in parts[i]
    ensures IsFirstField(s, c, parts[0])
  {
    if s == [] then [""]
    else if s[0] == c then [""] + Split(s[1..], c)
    else
      var rest := Split(s[1..], c);
      [[s[0]] + rest[0]] + rest[1..]
  }

  /** Python's `sep.join(parts)`: the parts in order with `sep` between
      neighbours, so it starts with the first part and the separator
      follows the first of two or more parts; `SplitJoin` and `JoinSplit`
      pin down the rest. */
  function Join(parts: seq<string>, sep: string): (r: string)
    ensures |parts| == 0 ==> r == ""
    ensures |parts| >= 1 ==> parts[0] <= r
    ensures |parts| >= 2 ==> parts[0] + sep <= r
  {
    if |parts| == 0 then ""
    else if |parts| == 1 then parts[0]
    else parts[0] + sep + Join(parts[1..], sep)
  }

  /** Only one prefix fits `IsFirstField`, so it pins down `s.split(c)[0]`. */
  lemma FirstFieldUnique(s: string, c: char, p: string, q: string)
    requires IsFirstField(s, c, p) && IsFirstField(s, c, q)
    ensures p == q
  {
  }

  lemma {:induction false} SplitWithoutSeparator(s: string, c: char)
    requires c !in s
    ensures Split(s, c) == [s]
  {
    if s != [] {
      SplitWithoutSeparator(s[1..], c);
      assert [s[0]] + s[1..] == s;
    }
  }

  /** Joining the pieces of a split with the same separator gives back the
      original string. */
  lemma {:induction false} SplitJoin(s: string, c: char)
    ensures Join(Split(s, c), [c]) == s
  {
    if s == [] {
    } else if s[0] == c {
      SplitJoin(s[1..], c);
      var rest := Split(s[1..], c);
      if |rest| == 1 {
        assert Join([""] + rest, [c]) == "" + [c] + rest[0];
      } else {
        assert ([""] + rest)[1..] == rest;
      }
    } else {
      SplitJoin(s[1..], c);
      var rest := Split(s[1..], c);
      var parts := [[s[0]] + rest[0]] + rest[1..];
      if |rest| == 1 {
        assert Join(parts, [c]) == [s[0]] + rest[0];
      } else {
        assert parts[1..] == rest[1..];
        assert Join(rest, [c]) == rest[0] + [c] + Join(rest[1..], [c]);
      }
    }
  }

  lemma {:induction false} SplitAfterPrefix(t: string, s: string, c: char)
    requires c !in t
    ensures |Split(t + s, c)| == |Split(s, c)|
    ensures Split(t + s, c)[0] == t + Split(s, c)[0]
    ensures Split(t + s, c)[1..] == Split(s, c)[1..]
  {
    if t == [] {
      assert t + s == s;
    } else {
      assert (t + s)[1..] == t[1..] + s;
      SplitAfterPrefix(t[1..], s, c);
    }
  }

  lemma SplitAtSeparator(a: string, c: char, s: string)
    requires c !in a
    ensures Split(a + [c] + s, c) == [a] + Split(s, c)
  {
    assert a + [c] + s == a + ([c] + s);
    SplitAfterPrefix(a, [c] + s, c);
    assert ([c] + s)[1..] == s;
  }

  /** Every string of `ps` with `t` in front of it. */
  function Behind(t: string, ps: seq<string>): (r: seq<string>)
    ensures |r| == |ps| && forall i :: 0 <= i < |ps| ==> r[i] == t + ps[i]
  {
    seq(|ps|, i requires 0 <= i < |ps| => t + ps[i])
  }

  /** A separator-free prefix `t` in front of a string whose later pieces
      already carry `t` puts `t` in front of its first piece too. */
  lemma SplitBehind(t: string, tail: string, c: char, rest: seq<string>)
    requires c !in t && |rest| >= 1
    requires Split(tail, c) == [rest[0]] + Behind(t, rest[1..])
    ensures Split(t + tail, c) == Behind(t, rest)
  {
    var inner := Split(tail, c);
    SplitAfterPrefix(t, tail, c);
    var shifted := Split(t + tail, c);
    forall i | 0 <= i < |rest|
      ensures shifted[i] == Behind(t, rest)[i]
    {
      if i > 0 {
        assert shifted[i] == shifted[1..][i - 1] == inner[1..][i - 1];
        assert inner[1..] == Behind(t, rest[1..]);
        assert rest[1..][i - 1] == rest[i];
      }
    }
  }

  lemma JoinSeparatorStart(first: string, c: char, t: string, tail: string)
    ensures first + ([c] + t) + tail == first + [c] + (t + tail)
  {
  }

  /** Splitting a string joined with a separator that starts with `c` (and
      contains no other `c`) recovers one piece per joined part, in order,
      when no part contains `c`: the first part itself, and every later part
      behind the rest of the separator. */
  lemma {:induction false} JoinSplit(parts: seq<string>, c: char, t: string)
    requires |parts| >= 1
    requires forall i :: 0 <= i < |parts| ==> c !in parts[i]
    requires c !in t
    ensures Split(Join(parts, [c] + t), c) == [parts[0]] + Behind(t, parts[1..])
    decreases |parts|
  {
    var sep := [c] + t;
    if |parts| == 1 {
      SplitWithoutSeparator(parts[0], c);
      assert Behind(t, parts[1..]) == [];
    } else {
      var rest := parts[1..];
      var tail := Join(rest, sep);
      assert forall i :: 0 <= i < |rest| ==> rest[i] == parts[i + 1];
      JoinSplit(rest, c, t);
      JoinSeparatorStart(parts[0], c, t, tail);
      assert Join(parts, sep) == parts[0] + [c] + (t + tail);
      SplitAtSeparator(parts[0], c, t + tail);
      SplitBehind(t, tail, c, rest);
    }
  }

  /** With a one-character separator that no part contains, splitting undoes
      joining. */
  lemma {:induction false} JoinSplitInverse(parts: seq<string>, c: char)
    requires |parts| >= 1
    requires forall i :: 0 <= i < |parts| ==> c !in parts[i]
    ensures Split(Join(parts, [c]), c) == parts
    decreases |parts|
  {
    if |parts| == 1 {
      SplitWithoutSeparator(parts[0], c);
    } else {
      var rest := parts[1..];
      assert forall i :: 0 <= i < |rest| ==> rest[i] == parts[i + 1];
      JoinSplitInverse(rest, c);
      assert Join(parts, [c]) == parts[0] + [c] + Join(rest, [c]);
      SplitAtSeparator(parts[0], c, Join(rest, [c]));
      assert parts == [parts[0]] + rest;
    }
  }

  predicate IsDigit(c: char) {
    '0' <= c <= '9'
  }

  function DigitChar(d: nat): char
    requires d < 10
  {
    ('0' as int + d) as char
  }

  /** A digit string without a leading zero: `"0"` itself, or digits
      starting with `1` to `9`. */
  predicate IsCanonicalDigits(d: string) {
    && |d| >= 1
    && (forall i :: 0 <= i < |d| ==> IsDigit(d[i]))
    && (d[0] == '0' ==> d == "0")
  }

  /** Decimal digits of a natural number, most significant first, with no
      leading zero. */
  function NatDecimal(n: nat): (r: string)
    ensures IsCanonicalDigits(r)
    ensures r[0] == '0' <==> n == 0
  {
    if n < 10 then [DigitChar(n)] else NatDecimal(n / 10) + [DigitChar(n % 10)]
  }

  /** The strings `str` gives for integers: an optional minus sign, then
      at least one digit. */
  predicate IsDecimal(s: string) {
    |s| >= 1 && forall i :: (if s[0] == '-' then 1 else 0) <= i < |s| ==> IsDigit(s[i])
  }

  function DigitsValue(s: string): nat
    requires forall i :: 0 <= i < |s| ==> IsDigit(s[i])
  {
    if s == [] then 0
    else
      assert IsDigit(s[|s| - 1]);
      10 * DigitsValue(s[..|s| - 1]) + (s[|s| - 1] as int - '0' as int)
  }

  /** Python's `int(s)` on the strings `str` produces. */
  function ParseInt(s: string): int
    requires IsDecimal(s)
  {
    if s[0] == '-' then -(DigitsValue(s[1..]) as int) else DigitsValue(s)
  }

  lemma {:induction false} NatDecimalRoundTrip(n: nat)
    ensures DigitsValue(NatDecimal(n)) == n
  {
    if n >= 10 {
      NatDecimalRoundTrip(n / 10);
      var r := NatDecimal(n);
      assert r[..|r| - 1] == NatDecimal(n / 10);
    }
  }

  /** The strings Python's `str` gives for integers: a minus sign exactly
      for negative numbers, then digits without a leading zero (and no
      `"-0"`). */
  predicate IsCanonicalDecimal(s: string) {
    && |s| >= 1
    && (s[0] == '-' ==> IsCanonicalDigits(s[1..]) && s[1..] != "0")
    && (s[0] != '-' ==> IsCanonicalDigits(s))
  }

  lemma CanonicalIsDecimal(s: string)
    requires IsCanonicalDecimal(s)
    ensures IsDecimal(s)
  {
    if s[0] == '-' {
      assert forall i :: 1 <= i < |s| ==> s[i] == s[1..][i - 1];
    }
  }

  /** Python's `str(n)` for an integer `n`: a canonical numeral, signed
      exactly when `n` is negative, which reads back as `n`. */
  function IntDecimal(n: int): (r: string)
    ensures IsCanonicalDecimal(r)
    ensures r[0] == '-' <==> n < 0
    ensures IsDecimal(r) && ParseInt(r) == n
  {
    if n < 0 then
      NatDecimalRoundTrip(-n);
      var r := "-" + NatDecimal(-n);
      assert r[1..] == NatDecimal(-n);
      r
    else
      NatDecimalRoundTrip(n);
      NatDecimal(n)
  }

  /** A canonical digit string with a non-zero first digit is worth at
      least one. */
  lemma {:induction false} CanonicalDigitsPositive(d: string)
    requires IsCanonicalDigits(d) && d != "0"
    ensures DigitsValue(d) >= 1
    decreases |d|
  {
    var init := d[..|d| - 1];
    if |init| >= 1 {
      assert init[0] == d[0];
      assert IsCanonicalDigits(init);
      CanonicalDigitsPositive(init);
    } else {
      assert d == [d[0]];
    }
  }

  /** Every canonical digit string is the one `NatDecimal` prints for its
      value, so printing is the only way to write a number canonically. */
  lemma {:induction false} NatDecimalOfDigits(d: string)
    requires IsCanonicalDigits(d)
    ensures NatDecimal(DigitsValue(d)) == d
    decreases |d|
  {
    var init := d[..|d| - 1];
    var last := d[|d| - 1];
    if |d| == 1 {
      assert d == [last];
      assert DigitChar(last as int - '0' as int) == last;
    } else {
      assert init[0] == d[0];
      assert d != "0";
      assert IsCanonicalDigits(init);
      CanonicalDigitsPositive(init);
      NatDecimalOfDigits(init);
      var n := DigitsValue(d);
      assert n / 10 == DigitsValue(init) && n % 10 == last as int - '0' as int;
      assert DigitChar(n % 10) == last;
      assert init + [last] == d;
    }
  }

  /** `str(int(s)) == s` for every canonical numeral `s`: together with
      `IntDecimal`'s contract, `str` is the unique canonical spelling. */
  lemma IntDecimalOfCanonical(s: string)
    requires IsCanonicalDecimal(s)
    ensures IsDecimal(s) && IntDecimal(ParseInt(s)) == s
  {
    CanonicalIsDecimal(s);
    if s[0] == '-' {
      var d := s[1..];
      CanonicalDigitsPositive(d);
      NatDecimalOfDigits(d);
      assert "-" + d == s;
    } else {
      NatDecimalOfDigits(s);
    }
  }
}
