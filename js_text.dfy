/** The small pieces of JavaScript string and number semantics that the
    booking pipeline relies on: `parseInt(s, 10)`, `String.prototype.includes`,
    template-literal interpolation of `null`/`undefined`, and the decimal
    rendering of a court number. */
module JsText {

  /** A JavaScript value that may be missing: `undefined`, `null` or `NaN`
      depending on where it is used. */
  datatype Option<+T> = None | Some(value: T)

  predicate IsDigit(c: char) {
    '0' <= c <= '9'
  }

  /** The white space `parseInt` skips before the number: the ASCII blanks,
      line terminators, no-break space and the byte-order mark. */
  predicate IsSpace(c: char) {
    c == ' ' || c == '\t' || c == '\n' || c == '\r' || c == '\U{000B}' || c == '\U{000C}'
    || c == '\U{00A0}' || c == '\U{FEFF}' || c == '\U{2028}' || c == '\U{2029}'
  }

  function TrimStart(s: string): (t: string)
    ensures |t| <= |s| && t == s[|s| - |t|..]
    ensures t == [] || !IsSpace(t[0])
    ensures forall i :: 0 <= i < |s| - |t| ==> IsSpace(s[i])
  {
    if |s| > 0 && IsSpace(s[0]) then TrimStart(s[1..]) else s
  }

  /** Number of leading decimal digits of `s`. */
  function DigitRun(s: string): (n: nat)
    ensures n <= |s|
    ensures forall i :: 0 <= i < n ==> IsDigit(s[i])
    ensures n < |s| ==> !IsDigit(s[n])
  {
    if |s| > 0 && IsDigit(s[0]) then 1 + DigitRun(s[1..]) else 0
  }

  /** The value of a string of decimal digits, most significant first. */
  function DigitsValue(d: string): (v: int)
    ensures (forall i :: 0 <= i < |d| ==> IsDigit(d[i])) ==> 0 <= v
  {
    if |d| == 0 then 0 else 10 * DigitsValue(d[..|d| - 1]) + DigitValue(d[|d| - 1])
  }

  function DigitValue(c: char): int {
    c as int - '0' as int
  }

  /** The value of the leading digits of `s`, `None` when there are none. */
  function ParseDigits(s: string): (r: Option<int>)
    ensures r.None? <==> s == [] || !IsDigit(s[0])
    ensures r.Some? ==> 0 <= r.value
  {
    var n := DigitRun(s);
    if n == 0 then None else Some(DigitsValue(s[..n]))
  }

  function Negate(x: Option<int>): Option<int> {
    match x
    case None => None
    case Some(v) => Some(-v)
  }

  /** `parseInt(s, 10)`: skip leading white space, read an optional sign and
      the longest run of decimal digits, ignore whatever follows; `None`
      stands for `NaN` (no digit at all). */
  function ParseInt(s: string): (r: Option<int>)
    ensures var t := TrimStart(s);
      var u := if |t| > 0 && (t[0] == '-' || t[0] == '+') then t[1..] else t;
      && (r.None? <==> u == [] || !IsDigit(u[0]))
      && (r.Some? && !(|t| > 0 && t[0] == '-') ==> r.value >= 0)
  {
    var t := TrimStart(s);
    if |t| > 0 && t[0] == '-' then Negate(ParseDigits(t[1..]))
    else if |t| > 0 && t[0] == '+' then ParseDigits(t[1..])
    else ParseDigits(t)
  }

  /** The decimal text of a non-negative number, as `${n}` renders it. */
  function DecimalText(n: nat): (s: string)
    ensures |s| > 0
    ensures forall i :: 0 <= i < |s| ==> IsDigit(s[i])
  {
    if n < 10 then [('0' as int + n) as char]
    else DecimalText(n / 10) + [('0' as int + n % 10) as char]
  }

  lemma {:induction false} DecimalTextValue(n: nat)
    ensures DigitsValue(DecimalText(n)) == n
  {
    if n >= 10 {
      var s := DecimalText(n);
      assert s[..|s| - 1] == DecimalText(n / 10);
      DecimalTextValue(n / 10);
    }
  }

  lemma {:induction false} DigitRunOfDigits(d: string, rest: string)
    requires forall i :: 0 <= i < |d| ==> IsDigit(d[i])
    requires rest == [] || !IsDigit(rest[0])
    ensures DigitRun(d + rest) == |d|
  {
    if d != [] {
      assert (d + rest)[1..] == d[1..] + rest;
      DigitRunOfDigits(d[1..], rest);
    }
  }

  /** `parseInt` reads a run of digits followed by a non-digit suffix as
      the digits' value. */
  lemma ParseIntOfDigits(d: string, suffix: string)
    requires |d| > 0 && forall i :: 0 <= i < |d| ==> IsDigit(d[i])
    requires suffix == [] || !IsDigit(suffix[0])
    ensures ParseInt(d + suffix) == Some(DigitsValue(d))
  {
    assert (d + suffix)[0] == d[0];
    UnsignedParse(d + suffix);
    LeadingDigits(d, suffix);
  }

  lemma LeadingDigits(d: string, suffix: string)
    requires |d| > 0 && forall i :: 0 <= i < |d| ==> IsDigit(d[i])
    requires suffix == [] || !IsDigit(suffix[0])
    ensures ParseDigits(d + suffix) == Some(DigitsValue(d))
  {
    DigitRunOfDigits(d, suffix);
    assert (d + suffix)[..|d|] == d;
  }

  /** A string that starts with a digit has no white space or sign to skip. */
  lemma UnsignedParse(s: string)
    requires |s| > 0 && IsDigit(s[0])
    ensures ParseInt(s) == ParseDigits(s)
  {
    NothingToTrim(s);
    assert s[0] != '-' && s[0] != '+';
  }

  lemma NothingToTrim(s: string)
    requires |s| > 0 && !IsSpace(s[0])
    ensures TrimStart(s) == s
  {
  }

  /** Round trip between the decimal rendering of a number and `parseInt`:
      `parseInt(`${n}px`, 10) === n` for every suffix that does not start
      with a digit. */
  lemma ParseIntOfDecimal(n: nat, suffix: string)
    requires suffix == [] || !IsDigit(suffix[0])
    ensures ParseInt(DecimalText(n) + suffix) == Some(n)
  {
    ParseIntOfDigits(DecimalText(n), suffix);
    DecimalTextValue(n);
  }

  /** `s.startsWith(p)`. */
  predicate StartsWith(s: string, p: string) {
    |p| <= |s| && s[..|p|] == p
  }

  /** `s.includes(p)`, scanning start positions left to right. */
  predicate Includes(s: string, p: string)
    decreases |s|
  {
    StartsWith(s, p) || (|s| > 0 && Includes(s[1..], p))
  }

  /** `p` occurs in `s` starting at position `i`. */
  predicate OccursAt(s: string, p: string, i: int) {
    0 <= i && i + |p| <= |s| && s[i..i + |p|] == p
  }

  /** `includes` holds exactly when `p` occurs at some position of `s`. */
  lemma {:induction false} IncludesIffOccurs(s: string, p: string)
    ensures Includes(s, p) <==> exists i :: OccursAt(s, p, i)
  {
    if StartsWith(s, p) {
      assert OccursAt(s, p, 0);
    } else if |s| > 0 {
      IncludesIffOccurs(s[1..], p);
      forall i | OccursAt(s[1..], p, i) ensures OccursAt(s, p, i + 1) {
        assert s[i + 1..i + 1 + |p|] == s[1..][i..i + |p|];
      }
      forall i | OccursAt(s, p, i) ensures OccursAt(s[1..], p, i - 1) {
        assert i != 0;
        assert s[1..][i - 1..i - 1 + |p|] == s[i..i + |p|];
      }
    }
  }

  /** `${x}` for a string attribute that may be `null`. */
  function NullableText(x: Option<string>): string {
    match x
    case Some(s) => s
    case None => "null"
  }

  /** `${x}` for a property that may be `undefined`. */
  function OptionalText(x: Option<string>): string {
    match x
    case Some(s) => s
    case None => "undefined"
  }
}
