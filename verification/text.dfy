/** The Python string primitives the bot relies on: `str.isdigit` (ASCII
    digits only), `str.isspace` and `str.strip()`, `str.split(sep)`,
    `str.replace(old, '')`, `str.lower()` as far as it matters for comparing
    with an ASCII word, and `int(text)` for a base-10 literal. */
module Text {
  import opened Base

  predicate IsDigit(c: char) { '0' <= c <= '9' }

  /** The characters Python's `str.isspace` accepts, hence the ones
      `str.strip()` discards around a value. */
  predicate IsSpace(c: char) {
    || c == ' '
    || '\t' <= c <= '\r'
    || '\U{1C}' <= c <= '\U{1F}'
    || c == '\U{85}' || c == '\U{A0}' || c == '\U{1680}'
    || '\U{2000}' <= c <= '\U{200A}'
    || c == '\U{2028}' || c == '\U{2029}' || c == '\U{202F}' || c == '\U{205F}'
    || c == '\U{3000}'
  }

  predicate HasDigit(s: string) {
    exists i :: 0 <= i < |s| && IsDigit(s[i])
  }

  /** Neither end of `s` satisfies `p`. */
  predicate IsTrimmed(s: string, p: char -> bool) {
    |s| == 0 || (!p(s[0]) && !p(s[|s| - 1]))
  }

  /** Neither end of `s` is whitespace. */
  predicate IsStripped(s: string) {
    IsTrimmed(s, IsSpace)
  }

  /** Length of the run of characters satisfying `p` at the front of `s`. */
  function LeadingRun(s: string, p: char -> bool): (k: nat)
    ensures k <= |s|
    ensures forall i :: 0 <= i < k ==> p(s[i])
    ensures k < |s| ==> !p(s[k])
  {
    if |s| == 0 || !p(s[0]) then 0 else 1 + LeadingRun(s[1..], p)
  }

  /** Length of the run of characters satisfying `p` at the back of `s`. */
  function TrailingRun(s: string, p: char -> bool): (k: nat)
    ensures k <= |s|
    ensures forall i :: |s| - k <= i < |s| ==> p(s[i])
    ensures k < |s| ==> !p(s[|s| - k - 1])
  {
    if |s| == 0 || !p(s[|s| - 1]) then 0 else 1 + TrailingRun(s[..|s| - 1], p)
  }

  /** The infix of `s` left once the runs of characters satisfying `p` are
      cut off both ends. */
  function Trim(s: string, p: char -> bool): (r: string)
    ensures IsTrimmed(r, p)
    ensures exists a, b :: 0 <= a <= b <= |s| && r == s[a..b]
              && (forall i :: 0 <= i < a ==> p(s[i]))
              && (forall i :: b <= i < |s| ==> p(s[i]))
    ensures forall i :: 0 <= i < |r| ==> r[i] in s
  {
    var a := LeadingRun(s, p);
    var b := |s| - TrailingRun(s[a..], p);
    assert forall i :: b <= i < |s| ==> s[i] == s[a..][i - a];
    s[a..b]
  }

  /** The trimmed infix is unique: an infix with neither end satisfying `p`,
      and only such characters around it, is what `Trim` gives. */
  lemma TrimUnique(s: string, p: char -> bool, a: nat, b: nat)
    requires a <= b <= |s|
    requires forall i :: 0 <= i < a ==> p(s[i])
    requires forall i :: b <= i < |s| ==> p(s[i])
    requires IsTrimmed(s[a..b], p)
    ensures Trim(s, p) == s[a..b]
  {
    var a0 := LeadingRun(s, p);
    if a == b {
      assert a0 == |s|;
    } else {
      assert !p(s[a]) && !p(s[b - 1]);
      assert a0 == a;
      var k := TrailingRun(s[a..], p);
      assert s[a..][b - 1 - a] == s[b - 1];
      assert k <= |s| - b;
    }
  }

  /** `s.strip()`: the infix of `s` left once the whitespace runs at both
      ends are cut off. */
  function Strip(s: string): (r: string)
    ensures IsStripped(r)
    ensures exists a, b :: 0 <= a <= b <= |s| && r == s[a..b]
              && (forall i :: 0 <= i < a ==> IsSpace(s[i]))
              && (forall i :: b <= i < |s| ==> IsSpace(s[i]))
    ensures forall i :: 0 <= i < |r| ==> r[i] in s
  {
    Trim(s, IsSpace)
  }

  /** Text padded with whitespace on both sides strips to the text, when
      the text itself starts and ends with something else. */
  lemma StripUnique(x: string, t: string, y: string)
    requires forall i :: 0 <= i < |x| ==> IsSpace(x[i])
    requires forall i :: 0 <= i < |y| ==> IsSpace(y[i])
    requires IsStripped(t)
    ensures Strip(x + t + y) == t
  {
    TrimPadded(x, t, y, IsSpace);
  }

  lemma TrimPadded(x: string, t: string, y: string, p: char -> bool)
    requires forall i :: 0 <= i < |x| ==> p(x[i])
    requires forall i :: 0 <= i < |y| ==> p(y[i])
    requires IsTrimmed(t, p)
    ensures Trim(x + t + y, p) == t
  {
    var s := x + t + y;
    assert s[|x|..|x| + |t|] == t;
    assert forall i :: |x| + |t| <= i < |s| ==> s[i] == y[i - |x| - |t|];
    TrimUnique(s, p, |x|, |x| + |t|);
  }

  /** Stripping text that is already stripped changes nothing. */
  lemma StripStripped(s: string)
    requires IsStripped(s)
    ensures Strip(s) == s
  {
    assert s[0..|s|] == s;
    TrimUnique(s, IsSpace, 0, |s|);
  }

  /** `s.split(sep)` for every separator in `seps` at once: the maximal runs of
      non-separator characters, empty runs included, so that `k` separators
      give `k + 1` parts. */
  function Split(s: string, seps: set<char>): (parts: seq<string>)
    ensures |parts| >= 1
    ensures forall i, j :: 0 <= i < |parts| && 0 <= j < |parts[i]| ==> parts[i][j] !in seps
  {
    if |s| == 0 then [""]
    else
      var rest := Split(s[1..], seps);
      if s[0] in seps then [""] + rest
      else [[s[0]] + rest[0]] + rest[1..]
  }

  /** `sep.join(parts)`. */
  function Join(parts: seq<string>, sep: char): string
  {
    if |parts| == 0 then ""
    else if |parts| == 1 then parts[0]
    else parts[0] + [sep] + Join(parts[1..], sep)
  }

  /** Joining the parts of a split with the same separator gives back the
      original text. */
  lemma {:induction false} JoinSplit(s: string, sep: char)
    ensures Join(Split(s, {sep}), sep) == s
    decreases |s|
  {
    if |s| > 0 {
      var rest := Split(s[1..], {sep});
      JoinSplit(s[1..], sep);
      if s[0] == sep {
        assert Split(s, {sep}) == [""] + rest;
        assert ([""] + rest)[1..] == rest;
        assert s == [sep] + s[1..];
      } else {
        var parts := Split(s, {sep});
        assert parts == [[s[0]] + rest[0]] + rest[1..];
        assert parts[1..] == rest[1..];
        if |rest| == 1 {
          assert s == [s[0]] + rest[0];
        } else {
          assert Join(rest, sep) == rest[0] + [sep] + Join(rest[1..], sep);
          assert s == [s[0]] + s[1..];
        }
      }
    }
  }

  /** Text with no separator in it is one part. */
  lemma {:induction false} SplitNoSeparator(s: string, seps: set<char>)
    requires forall i :: 0 <= i < |s| ==> s[i] !in seps
    ensures Split(s, seps) == [s]
    decreases |s|
  {
    if |s| > 0 {
      SplitNoSeparator(s[1..], seps);
      assert s == [s[0]] + s[1..];
    }
  }

  /** The first character of a text opens its first part, or closes an empty
      one when it is a separator. */
  lemma SplitCons(c: char, s: string, seps: set<char>)
    ensures Split([c] + s, seps)
            == if c in seps then [""] + Split(s, seps)
               else [[c] + Split(s, seps)[0]] + Split(s, seps)[1..]
  {
    assert ([c] + s)[1..] == s;
  }

  /** A leading separator closes an empty first part. */
  lemma SplitConsSeparator(c: char, s: string, seps: set<char>)
    requires c in seps
    ensures Split([c] + s, seps) == [""] + Split(s, seps)
  {
    SplitCons(c, s, seps);
  }

  /** Extending the first field commutes with appending more fields. */
  lemma JoinFirst(c: char, r0: seq<string>, after: seq<string>)
    requires |r0| > 0
    ensures var tail := r0 + after;
            [[c] + r0[0]] + r0[1..] + after == [[c] + tail[0]] + tail[1..]
  {
    var tail := r0 + after;
    assert tail[1..] == r0[1..] + after;
  }

  /** A character put in front of two texts whose splits agree past the
      first parts keeps them agreeing. */
  lemma ConsSplitAppend(c: char, x: string, tail: string, more: seq<string>, seps: set<char>)
    requires Split(tail, seps) == Split(x, seps) + more
    ensures Split([c] + tail, seps) == Split([c] + x, seps) + more
  {
    SplitCons(c, tail, seps);
    SplitCons(c, x, seps);
    if c !in seps {
      JoinFirst(c, Split(x, seps), more);
    }
  }

  /** Splitting at a separator splits the two sides independently: the parts
      of `a` come first, in order, then the parts of `b`. */
  lemma {:induction false} SplitAtSeparator(a: string, c: char, b: string, seps: set<char>)
    requires c in seps
    ensures Split(a + [c] + b, seps) == Split(a, seps) + Split(b, seps)
    decreases |a|
  {
    if |a| == 0 {
      assert a + [c] + b == [c] + b;
      SplitCons(c, b, seps);
    } else {
      SplitAtSeparator(a[1..], c, b, seps);
      ConsSplitAppend(a[0], a[1..], a[1..] + [c] + b, Split(b, seps), seps);
      assert a + [c] + b == [a[0]] + (a[1..] + [c] + b);
      assert a == [a[0]] + a[1..];
    }
  }

  /** `s.replace(pat, '')`: every non-overlapping occurrence of `pat`, found
      from left to right, is deleted; the text left over is not rescanned. */
  function RemoveAll(s: string, pat: string): (r: string)
    requires |pat| > 0
    ensures |r| <= |s|
    decreases |s|
  {
    if |s| < |pat| then s
    else if s[..|pat|] == pat then RemoveAll(s[|pat|..], pat)
    else [s[0]] + RemoveAll(s[1..], pat)
  }

  /** `pat` occurs in `s` starting at index `i`. */
  predicate OccursAt(s: string, pat: string, i: nat) {
    i + |pat| <= |s| && s[i..i + |pat|] == pat
  }

  /** A leading occurrence of the pattern disappears. */
  lemma RemoveAllLeading(pat: string, rest: string)
    requires |pat| > 0
    ensures RemoveAll(pat + rest, pat) == RemoveAll(rest, pat)
  {
    assert (pat + rest)[..|pat|] == pat;
    assert (pat + rest)[|pat|..] == rest;
  }

  /** Text in which the pattern never occurs is left alone. */
  lemma {:induction false} RemoveAllAbsent(s: string, pat: string)
    requires |pat| > 0
    requires forall i: nat :: i < |s| ==> !OccursAt(s, pat, i)
    ensures RemoveAll(s, pat) == s
    decreases |s|
  {
    if |s| >= |pat| {
      assert !OccursAt(s, pat, 0);
      assert s[0..|pat|] == s[..|pat|];
      forall i: nat | i < |s[1..]|
        ensures !OccursAt(s[1..], pat, i)
      {
        assert !OccursAt(s, pat, i + 1);
        if i + |pat| <= |s[1..]| {
          assert s[1..][i..i + |pat|] == s[i + 1..i + 1 + |pat|];
        }
      }
      RemoveAllAbsent(s[1..], pat);
      assert s == [s[0]] + s[1..];
    }
  }

  /** Text lacking one of the pattern's characters holds no occurrence of
      it, so nothing is removed. */
  lemma RemoveAllMissingChar(s: string, pat: string, k: nat)
    requires k < |pat| && pat[k] !in s
    ensures RemoveAll(s, pat) == s
  {
    RemoveAllAbsent(s, pat);
  }

  /** `c.lower()` for the characters whose lower case is an ASCII letter: the
      ASCII capitals and the KELVIN SIGN, whose lower case is `k`. Any other
      character is kept as it is, which is enough to decide whether a reply
      lowers to an ASCII word. */
  function LowerChar(c: char): char
  {
    if 'A' <= c <= 'Z' then (c as int + 32) as char
    else if c == '\U{212A}' then 'k'
    else c
  }

  /** `s.lower() == word` for an all-lower-case ASCII `word`. */
  predicate LowersTo(s: string, word: string) {
    |s| == |word| && forall i :: 0 <= i < |s| ==> LowerChar(s[i]) == word[i]
  }

  function DigitValue(c: char): nat
    requires IsDigit(c)
  {
    c as int - '0' as int
  }

  function DigitChar(d: nat): (c: char)
    requires d < 10
    ensures IsDigit(c) && DigitValue(c) == d
  {
    ('0' as int + d) as char
  }

  /** A Python base-10 integer literal body: ASCII digits, with single
      underscores allowed between two digits. */
  predicate IsDecimalLiteral(s: string) {
    && |s| > 0
    && IsDigit(s[0])
    && IsDigit(s[|s| - 1])
    && (forall i :: 0 <= i < |s| ==> IsDigit(s[i]) || s[i] == '_')
    && (forall i :: 0 <= i < |s| - 1 ==> s[i] == '_' ==> s[i + 1] != '_')
  }

  /** The value of the digits of `s` read in base 10, underscores skipped. */
  function DecimalValue(s: string): nat
  {
    if |s| == 0 then 0
    else
      var c := s[|s| - 1];
      if IsDigit(c) then DecimalValue(s[..|s| - 1]) * 10 + DigitValue(c)
      else DecimalValue(s[..|s| - 1])
  }

  /** The characters `int()` ignores around a number: the ASCII space and
      `\t` to `\r`, and every non-ASCII character `str.isspace` accepts,
      which `int()` first turns into a space. The ASCII separators U+001C to
      U+001F are whitespace to `str.strip()` but not to `int()`. */
  predicate IsIntSpace(c: char) {
    c == ' ' || '\t' <= c <= '\r' || (c as int >= 0x80 && IsSpace(c))
  }

  /** `int(s)`: the characters of `IsIntSpace` around the value are ignored,
      then one optional sign and a decimal literal; anything else raises
      `ValueError`, modelled as `None`. */
  function ParseInt(s: string): (r: Option<int>)
    ensures r.Some? ==> HasDigit(s)
  {
    ParseTrimmed(Trim(s, IsIntSpace))
  }

  /** The sign and literal test `int()` applies once the ignored characters
      are gone. */
  function ParseTrimmed(t: string): (r: Option<int>)
    ensures r.Some? ==> HasDigit(t)
  {
    if |t| > 0 && (t[0] == '+' || t[0] == '-') then
      if IsDecimalLiteral(t[1..]) then
        assert IsDigit(t[1..][0]);
        var v: int := DecimalValue(t[1..]);
        Some(if t[0] == '-' then -v else v)
      else None
    else if IsDecimalLiteral(t) then
      assert IsDigit(t[0]);
      Some(DecimalValue(t))
    else None
  }

  /** `str(n)` for a natural number. */
  function ShowNat(n: nat): (s: string)
    ensures |s| > 0
    ensures forall i :: 0 <= i < |s| ==> IsDigit(s[i])
  {
    if n < 10 then [DigitChar(n)] else ShowNat(n / 10) + [DigitChar(n % 10)]
  }

  lemma {:induction false} DecimalValueShowNat(n: nat)
    ensures DecimalValue(ShowNat(n)) == n
  {
    if n >= 10 {
      DecimalValueShowNat(n / 10);
      var s := ShowNat(n / 10) + [DigitChar(n % 10)];
      assert s[..|s| - 1] == ShowNat(n / 10);
    } else {
      assert ShowNat(n)[..0] == [];
    }
  }

  /** `int()` of a decimal numeral with only characters it ignores around
      it is the numeral's value. */
  lemma ParseIntPadded(x: string, n: nat, y: string)
    requires forall i :: 0 <= i < |x| ==> IsIntSpace(x[i])
    requires forall i :: 0 <= i < |y| ==> IsIntSpace(y[i])
    ensures ParseInt(x + ShowNat(n) + y) == Some(n)
  {
    var d := ShowNat(n);
    assert IsDigit(d[0]) && IsDigit(d[|d| - 1]);
    TrimPadded(x, d, y, IsIntSpace);
    ParseNumeral(n);
  }

  lemma ParseNumeral(n: nat)
    ensures ParseTrimmed(ShowNat(n)) == Some(n)
  {
    var d := ShowNat(n);
    assert IsDigit(d[0]);
    assert IsDecimalLiteral(d);
    DecimalValueShowNat(n);
  }

  /** `int(str(n)) == n`: parsing the decimal rendering of a number gives the
      number back. */
  lemma ParseShowNat(n: nat)
    ensures ParseInt(ShowNat(n)) == Some(n)
  {
    var d := ShowNat(n);
    assert IsDigit(d[0]) && IsDigit(d[|d| - 1]);
    assert d[0..|d|] == d;
    TrimUnique(d, IsIntSpace, 0, |d|);
    ParseNumeral(n);
  }

  /** An ASCII separator U+001C to U+001F beside a numeral makes `int()`
      fail, although `str.strip()` would remove it. */
  lemma ParseIntRejectsSeparator(c: char, n: nat)
    requires '\U{1C}' <= c <= '\U{1F}'
    ensures ParseInt([c] + ShowNat(n)) == None
    ensures ParseInt(ShowNat(n) + [c]) == None
    ensures Strip([c] + ShowNat(n)) == ShowNat(n)
  {
    var d := ShowNat(n);
    SeparatorBeforeNumeral(c, d);
    SeparatorAfterNumeral(c, d);
    StripSeparator(c, d);
  }

  lemma StripSeparator(c: char, d: string)
    requires '\U{1C}' <= c <= '\U{1F}'
    requires |d| > 0 && IsDigit(d[0]) && IsDigit(d[|d| - 1])
    ensures Strip([c] + d) == d
  {
    StripUnique([c], d, "");
    assert [c] + d + "" == [c] + d;
  }

  lemma SeparatorBeforeNumeral(c: char, d: string)
    requires '\U{1C}' <= c <= '\U{1F}'
    requires |d| > 0 && IsDigit(d[|d| - 1])
    ensures ParseInt([c] + d) == None
  {
    var s := [c] + d;
    assert s[|s| - 1] == d[|d| - 1];
    assert !IsIntSpace(c);
    assert Trim(s, IsIntSpace) == s by {
      TrimPadded("", s, "", IsIntSpace);
      assert "" + s + "" == s;
    }
    NoLeadingDigit(s);
  }

  /** Text opening with neither a sign nor a digit is no integer. */
  lemma NoLeadingDigit(t: string)
    requires |t| > 0 && !IsDigit(t[0]) && t[0] != '+' && t[0] != '-'
    ensures ParseTrimmed(t) == None
  {
  }

  lemma SeparatorAfterNumeral(c: char, d: string)
    requires '\U{1C}' <= c <= '\U{1F}'
    requires |d| > 0 && IsDigit(d[0])
    ensures ParseInt(d + [c]) == None
  {
    var s := d + [c];
    assert s[0] == d[0];
    assert Trim(s, IsIntSpace) == s by {
      TrimPadded("", s, "", IsIntSpace);
      assert "" + s + "" == s;
    }
    assert !IsDigit(s[|s| - 1]);
  }
}
