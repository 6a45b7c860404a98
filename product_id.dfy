/** The `/product` page's id check: `id && id >= 0 && id < dataObj.length`
    followed by `dataObj[id]`. The query value is a string; JavaScript
    compares it with numbers by converting it to a number, but then indexes
    the catalog with the string itself, which names a product only when it is
    the canonical decimal form of an index. */
module ProductId {
  import opened Strings

  predicate IsDigit(c: char) {
    '0' <= c <= '9'
  }

  predicate AllDigits(s: string) {
    forall i :: 0 <= i < |s| ==> IsDigit(s[i])
  }

  function DigitValue(c: char): (d: nat)
    requires IsDigit(c)
  {
    c as int - '0' as int
  }

  function DigitChar(d: nat): (c: char)
    requires d < 10
    ensures IsDigit(c) && DigitValue(c) == d
  {
    ('0' as int + d) as char
  }

  /** The number a string of decimal digits denotes. */
  function DecimalValue(s: string): (n: nat)
    requires AllDigits(s)
    decreases |s|
  {
    if s == [] then 0 else DecimalValue(s[..|s| - 1]) * 10 + DigitValue(s[|s| - 1])
  }

  /** The decimal form JavaScript gives a non-negative integer: no sign, no
      leading zero except for `0` itself. */
  predicate Canonical(s: string) {
    s != [] && AllDigits(s) && (s[0] == '0' ==> |s| == 1)
  }

  /** `String(n)` for a natural number `n`. */
  function DecimalString(n: nat): (s: string)
    ensures Canonical(s) && DecimalValue(s) == n
    decreases n
  {
    if n < 10 then [DigitChar(n)]
    else
      var prefix := DecimalString(n / 10);
      var s := prefix + [DigitChar(n % 10)];
      assert s[..|s| - 1] == prefix;
      s
  }

  lemma {:induction false} LeadingDigitPositive(s: string)
    requires s != [] && AllDigits(s) && s[0] != '0'
    ensures DecimalValue(s) >= 1
    decreases |s|
  {
    if |s| > 1 {
      LeadingDigitPositive(s[..|s| - 1]);
    }
  }

  /** Canonical decimal strings and natural numbers correspond one to one:
      the string is recovered from its value. */
  lemma {:induction false} CanonicalRoundTrip(s: string)
    requires Canonical(s)
    ensures DecimalString(DecimalValue(s)) == s
    decreases |s|
  {
    if |s| > 1 {
      var prefix := s[..|s| - 1];
      assert Canonical(prefix);
      LeadingDigitPositive(prefix);
      CanonicalRoundTrip(prefix);
      assert s == prefix + [s[|s| - 1]];
    }
  }

  /** `Number(s)` as the comparisons see it: `None` for `NaN`. Digit strings
      are converted here; any other string goes to JavaScript's own
      conversion, `toNumber`, which the model does not define. */
  function LooseNumber(s: string, toNumber: string -> Option<real>): (n: Option<real>) {
    if AllDigits(s) then Some(DecimalValue(s) as real) else toNumber(s)
  }

  /** What the id check leads to: a product, the not-found page, or a value
      that passes the check but names no product (`dataObj[id]` is
      `undefined`). */
  datatype IdCheck = InRange(index: nat) | Rejected | Dangling

  /** `id && id >= 0 && id < count`: the value is present and not empty, and
      its number is neither `NaN` nor outside `[0, count)`. */
  predicate PassesCheck(count: nat, id: Option<string>, toNumber: string -> Option<real>) {
    && id.Some? && id.value != []
    && LooseNumber(id.value, toNumber).Some?
    && 0.0 <= LooseNumber(id.value, toNumber).value < count as real
  }

  /** For a non-empty digit string the check passes exactly when its value
      is below the catalog size; the host conversion plays no part. */
  lemma PassesCheckDigits(count: nat, s: string, toNumber: string -> Option<real>)
    requires s != [] && AllDigits(s)
    ensures PassesCheck(count, Some(s), toNumber) <==> DecimalValue(s) < count
  {
  }

  /** The check on line 83 and the lookup on line 85 of the handler. */
  function CheckId(count: nat, id: Option<string>, toNumber: string -> Option<real>): (r: IdCheck)
    ensures r.InRange? ==> r.index < count
    ensures r.InRange? <==> id.Some? && Canonical(id.value) && DecimalValue(id.value) < count
    ensures r.InRange? ==> id == Some(DecimalString(r.index))
    ensures r == Dangling <==> PassesCheck(count, id, toNumber) && !Canonical(id.value)
    ensures r == Rejected <==> !PassesCheck(count, id, toNumber)
    ensures id == None || id == Some([]) ==> r == Rejected
    ensures id.Some? && AllDigits(id.value) && DecimalValue(id.value) >= count ==> r == Rejected
  {
    match id
    case None => Rejected
    case Some(s) =>
      if s == [] then Rejected
      else
        var n := LooseNumber(s, toNumber);
        if n.Some? && 0.0 <= n.value < count as real then
          if Canonical(s) then
            CanonicalRoundTrip(s);
            InRange(DecimalValue(s))
          else Dangling
        else Rejected
  }

  /** Every index of the catalog, written in decimal, selects that product. */
  lemma CheckIdAccepts(count: nat, i: nat, toNumber: string -> Option<real>)
    requires i < count
    ensures CheckId(count, Some(DecimalString(i)), toNumber) == InRange(i)
  {
  }

  /** An id JavaScript reads as `NaN`, as negative, or as at least the
      catalog size (`"abc"`, `"-1"`, the size itself) gives the not-found page. */
  lemma CheckIdRejectsOutOfRange(count: nat, s: string, toNumber: string -> Option<real>)
    requires LooseNumber(s, toNumber).None?
          || LooseNumber(s, toNumber).value < 0.0
          || LooseNumber(s, toNumber).value >= count as real
    ensures CheckId(count, Some(s), toNumber) == Rejected
  {
  }

  /** Digits with a leading zero that pass the check, such as `"01"`, name no
      product. */
  lemma CheckIdLeadingZero(count: nat, s: string, toNumber: string -> Option<real>)
    requires |s| >= 2 && AllDigits(s) && s[0] == '0' && DecimalValue(s) < count
    ensures CheckId(count, Some(s), toNumber) == Dangling
  {
  }
}
