/** `WhatsAppChecker.clean_phone_number`: the input is trimmed, its prefix is
    rewritten to carry the Nigerian country calling code, and every character
    other than a digit or `+` is dropped. */
module Phone {
  import opened Base
  import opened Text

  /** The national trunk prefix replaced by the country code. */
  const TrunkPrefix: char := '0'

  /** The country calling code, without its `+`. */
  const CountryCode: string := "234"

  /** The characters the cleaner keeps: digits and `+`, wherever they are. */
  predicate IsDialable(c: char) { IsDigit(c) || c == '+' }

  /** What the cleaner guarantees of its output. */
  predicate IsCanonical(r: string) {
    |r| > 0 && r[0] == '+' && forall i :: 0 <= i < |r| ==> IsDialable(r[i])
  }

  predicate StartsWithCountryCode(s: string) {
    |s| >= |CountryCode| && s[..|CountryCode|] == CountryCode
  }

  /** The prefix rewrite applied to the trimmed input: a leading trunk prefix
      becomes `+234`, a leading `234` gets a `+`, and so does anything else
      that does not already start with `+`. */
  function WithPlusPrefix(s: string): (r: string)
    ensures |r| > 0 && r[0] == '+'
    ensures |s| > 0 && s[0] != TrunkPrefix ==> r[|r| - 1] == s[|s| - 1]
  {
    if |s| > 0 && s[0] == TrunkPrefix then "+" + CountryCode + s[1..]
    else if StartsWithCountryCode(s) then "+" + s
    else if |s| > 0 && s[0] == '+' then s
    else "+" + s
  }

  /** `clean_phone_number(raw)`. The Python version's `except` branch, which
      returns `None`, cannot be taken for a string argument. */
  function Clean(raw: string): (r: string)
    ensures IsCanonical(r)
  {
    var w := WithPlusPrefix(Strip(raw));
    assert w == [w[0]] + w[1..];
    FilterAppend(IsDialable, [w[0]], w[1..]);
    Filter(IsDialable, w)
  }

  /** A number that already has the canonical shape is its own cleaning. */
  lemma CanonicalIsFixed(c: string)
    requires IsCanonical(c)
    ensures Clean(c) == c
  {
    StripStripped(c);
    assert !StartsWithCountryCode(c) by {
      if |c| >= |CountryCode| {
        assert c[..|CountryCode|][0] == c[0];
      }
    }
    assert WithPlusPrefix(c) == c;
    FilterKeepsAll(IsDialable, c);
  }

  /** Cleaning is idempotent: a cleaned number is its own cleaning. */
  lemma CleanIdempotent(raw: string)
    ensures Clean(Clean(raw)) == Clean(raw)
  {
    CanonicalIsFixed(Clean(raw));
  }

  /** A dialable prefix passes the character filter untouched. */
  lemma FilterDialablePrefix(prefix: string, s: string)
    requires forall i :: 0 <= i < |prefix| ==> IsDialable(prefix[i])
    ensures Filter(IsDialable, prefix + s) == prefix + Filter(IsDialable, s)
  {
    FilterAppend(IsDialable, prefix, s);
    FilterKeepsAll(IsDialable, prefix);
  }

  /** Both a leading trunk prefix and a leading `234` end up as `+234`
      followed by the dialable characters of the rest of the trimmed input. */
  lemma CleanCountryPrefix(raw: string)
    requires var s := Strip(raw); (|s| > 0 && s[0] == TrunkPrefix) || StartsWithCountryCode(s)
    ensures |Clean(raw)| >= 4 && Clean(raw)[..4] == "+234"
    ensures var s := Strip(raw);
            Clean(raw) == "+234" + Filter(IsDialable, if s[0] == TrunkPrefix then s[1..] else s[3..])
  {
    var s := Strip(raw);
    var rest := if s[0] == TrunkPrefix then s[1..] else s[3..];
    if s[0] == TrunkPrefix {
      assert WithPlusPrefix(s) == "+234" + rest;
    } else {
      assert s == "234" + rest;
      assert WithPlusPrefix(s) == "+" + s;
      assert "+" + s == "+234" + rest;
    }
    FilterDialablePrefix("+234", rest);
    assert Clean(raw) == "+234" + Filter(IsDialable, rest);
  }

  predicate IsPlusSign(c: char) { c == '+' }

  /** The prefix rewrite in three cases: the trunk prefix is replaced, a
      leading `+` is kept, and everything else, a leading `234` included,
      gets a `+` in front. */
  lemma RewriteShape(s: string)
    ensures WithPlusPrefix(s)
            == if |s| > 0 && s[0] == TrunkPrefix then "+" + CountryCode + s[1..]
               else if |s| > 0 && s[0] == '+' then s
               else "+" + s
  {
    if StartsWithCountryCode(s) {
      assert s[..|CountryCode|][0] == s[0];
    }
  }

  /** The replacement for the trunk prefix: one `+` and the digits of the
      country code. */
  lemma CountryPrefixParts()
    ensures Filter(IsDigit, "+" + CountryCode) == CountryCode
    ensures Filter(IsPlusSign, "+" + CountryCode) == "+"
  {
  }

  /** The rewritten prefix of a number with a trunk prefix adds the digits of
      the country code and one `+`. */
  lemma TrunkRewriteCounts(s: string)
    requires |s| > 0 && s[0] == TrunkPrefix
    ensures Filter(IsDigit, "+" + CountryCode + s[1..]) == CountryCode + Filter(IsDigit, s[1..])
    ensures |Filter(IsPlusSign, "+" + CountryCode + s[1..])| == 1 + |Filter(IsPlusSign, s)|
  {
    CountryPrefixParts();
    FilterAppend(IsDigit, "+" + CountryCode, s[1..]);
    FilterAppend(IsPlusSign, "+" + CountryCode, s[1..]);
    TrunkHasNoPlus(s);
  }

  lemma TrunkHasNoPlus(s: string)
    requires |s| > 0 && s[0] == TrunkPrefix
    ensures Filter(IsPlusSign, s) == Filter(IsPlusSign, s[1..])
  {
    assert s == [s[0]] + s[1..];
    FilterAppend(IsPlusSign, [s[0]], s[1..]);
  }

  /** A `+` put in front adds no digit and one `+`. */
  lemma PlusPrependCounts(s: string)
    ensures Filter(IsDigit, "+" + s) == Filter(IsDigit, s)
    ensures |Filter(IsPlusSign, "+" + s)| == 1 + |Filter(IsPlusSign, s)|
  {
    FilterAppend(IsDigit, "+", s);
    FilterAppend(IsPlusSign, "+", s);
  }

  /** No digit is lost or invented, except that a trunk prefix is traded for
      the digits of the country code. */
  lemma CleanDigits(raw: string)
    ensures var s := Strip(raw);
            Filter(IsDigit, Clean(raw))
            == if |s| > 0 && s[0] == TrunkPrefix then CountryCode + Filter(IsDigit, s[1..])
               else Filter(IsDigit, s)
  {
    var s := Strip(raw);
    FilterOfFilter(IsDigit, IsDialable, WithPlusPrefix(s));
    RewriteShape(s);
    if |s| > 0 && s[0] == TrunkPrefix {
      TrunkRewriteCounts(s);
    } else if !(|s| > 0 && s[0] == '+') {
      PlusPrependCounts(s);
    }
  }

  /** Input that is already trimmed is only rewritten and filtered. */
  lemma CleanTrimmed(s: string)
    requires IsStripped(s)
    ensures Clean(s) == Filter(IsDialable, WithPlusPrefix(s))
  {
    StripStripped(s);
  }

  /** A `+` is kept wherever it appears, not only in front: the cleaned number
      holds every `+` of the trimmed input, plus the leading one the rewrite
      adds when the input did not start with `+`. */
  lemma CleanKeepsEveryPlus(raw: string)
    ensures var s := Strip(raw);
            |Filter(IsPlusSign, Clean(raw))|
            == |Filter(IsPlusSign, s)| + (if |s| > 0 && s[0] == '+' then 0 else 1)
  {
    var s := Strip(raw);
    FilterOfFilter(IsPlusSign, IsDialable, WithPlusPrefix(s));
    RewriteShape(s);
    if |s| > 0 && s[0] == TrunkPrefix {
      TrunkRewriteCounts(s);
    } else if !(|s| > 0 && s[0] == '+') {
      PlusPrependCounts(s);
    }
  }

  /** Input without a single digit cleans to nothing but `+` signs. */
  lemma CleanWithoutDigits(raw: string)
    requires !HasDigit(raw)
    ensures forall i :: 0 <= i < |Clean(raw)| ==> Clean(raw)[i] == '+'
  {
    var s := Strip(raw);
    assert !HasDigit(s) by {
      forall i | 0 <= i < |s| ensures !IsDigit(s[i]) {
        assert s[i] in raw;
      }
    }
    assert !(|s| > 0 && s[0] == TrunkPrefix);
    assert !StartsWithCountryCode(s) by {
      if |s| >= 3 {
        assert s[..3][0] == s[0];
      }
    }
  }
}
