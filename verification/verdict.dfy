/** `WhatsAppChecker.check_number` with the deterministic stand-in for the
    registration lookup, `_check_with_api`. The simulated delay is left out;
    the lookup is a pure function of the cleaned number. */
module Verdict {
  import opened Base
  import opened Text
  import opened Phone

  /** The four status strings the checker produces: `on_whatsapp`,
      `not_on_whatsapp`, `invalid` and `error`. */
  datatype Status = OnWhatsApp | NotOnWhatsApp | Invalid | Error

  /** Last digits the stand-in lookup reads as "registered". */
  predicate IsEvenDigit(c: char) { c in "02468" }

  /** `_check_with_api(phone)`: the verdict is read off the last character of
      the number. `phone[-1]` raises on an empty string; `None` stands for
      that exception. */
  function CheckWithApi(phone: string): (r: Option<Status>)
    ensures r.None? <==> |phone| == 0
    ensures r.Some? ==> r.value == OnWhatsApp || r.value == NotOnWhatsApp
  {
    if |phone| == 0 then None
    else if IsEvenDigit(phone[|phone| - 1]) then Some(OnWhatsApp)
    else Some(NotOnWhatsApp)
  }

  /** `check_number(raw)`: clean, report `invalid` for an empty cleaning, ask
      the lookup, and turn any exception into `error`. Because the cleaner
      never returns an empty string and the lookup only raises on one, the
      `invalid` and `error` outcomes cannot occur. */
  function CheckNumber(raw: string): (s: Status)
    ensures s == OnWhatsApp || s == NotOnWhatsApp
    ensures s != Invalid && s != Error
  {
    var clean := Clean(raw);
    if |clean| == 0 then Invalid
    else match CheckWithApi(clean)
      case None => Error
      case Some(v) => v
  }

  /** The verdict is `on_whatsapp` exactly when the cleaned number ends in an
      even digit, and `not_on_whatsapp` otherwise. */
  lemma VerdictFromCleanNumber(raw: string)
    ensures var c := Clean(raw);
            (CheckNumber(raw) == OnWhatsApp <==> IsEvenDigit(c[|c| - 1]))
            && (CheckNumber(raw) == NotOnWhatsApp <==> !IsEvenDigit(c[|c| - 1]))
  {
  }

  /** The rewritten number ends like the trimmed input, except for a lone
      trunk prefix, which becomes `+234`. */
  lemma RewriteKeepsLast(s: string)
    requires |s| > 0
    ensures var w := WithPlusPrefix(s);
            w[|w| - 1] == if s == [TrunkPrefix] then '4' else s[|s| - 1]
  {
    if s[0] == TrunkPrefix {
      var w := WithPlusPrefix(s);
      assert w == "+234" + s[1..];
      if |s| == 1 {
        assert s == [TrunkPrefix];
      }
    }
  }

  /** Read against the caller's input: when the trimmed input ends in a digit,
      that digit alone decides the verdict. */
  lemma VerdictFromInput(raw: string)
    requires var s := Strip(raw); |s| > 0 && IsDigit(s[|s| - 1])
    ensures var s := Strip(raw); CheckNumber(raw) == OnWhatsApp <==> IsEvenDigit(s[|s| - 1])
  {
    var s := Strip(raw);
    var w := WithPlusPrefix(s);
    RewriteKeepsLast(s);
    FilterLast(IsDialable, w);
    assert Clean(raw) == Filter(IsDialable, w);
  }

  /** Input with no digit at all is not rejected as `invalid`: it cleans to
      `+` signs only and is reported as `not_on_whatsapp`. */
  lemma DigitlessInputIsNotOnWhatsApp(raw: string)
    requires !HasDigit(raw)
    ensures CheckNumber(raw) == NotOnWhatsApp
  {
    CleanWithoutDigits(raw);
  }
}
