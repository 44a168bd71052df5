/**
 * The JavaScript number handling the controller relies on: `parseInt(s, 10)`,
 * the `|| default` fallback, `String(n)` and `Math.ceil(total / limit)`.
 * Numbers are modelled as unbounded integers.
 */
module JsNum {
  import opened Base

  /** The result of `parseInt`: a number, or NaN when no digit was found. */
  datatype Parsed = NaN | Num(n: int)

  /**
   * The characters `parseInt` skips before the number: the ECMAScript
   * StrWhiteSpaceChar set (WhiteSpace, including every Zs space, and LineTerminator).
   */
  predicate IsWhiteSpace(c: char) {
    var k := c as int;
    k == 0x09 || k == 0x0A || k == 0x0B || k == 0x0C || k == 0x0D || k == 0x20
    || k == 0xA0 || k == 0x1680 || (0x2000 <= k <= 0x200A) || k == 0x2028 || k == 0x2029
    || k == 0x202F || k == 0x205F || k == 0x3000 || k == 0xFEFF
  }

  predicate IsDigit(c: char) {
    '0' <= c <= '9'
  }

  /** `s` with its leading white space removed. */
  function TrimStart(s: string): (t: string)
    ensures |t| <= |s| && t == s[|s| - |t|..]
    ensures forall i :: 0 <= i < |s| - |t| ==> IsWhiteSpace(s[i])
    ensures t == [] || !IsWhiteSpace(t[0])
  {
    if s != [] && IsWhiteSpace(s[0]) then TrimStart(s[1..]) else s
  }

  /** The longest prefix of `s` made of decimal digits. */
  function DigitPrefix(s: string): (d: string)
    ensures d <= s
    ensures forall i :: 0 <= i < |d| ==> IsDigit(d[i])
    ensures |d| == |s| || !IsDigit(s[|d|])
  {
    if s != [] && IsDigit(s[0]) then [s[0]] + DigitPrefix(s[1..]) else []
  }

  /** The value of a digit string read in base 10. */
  function DigitsValue(ds: string): nat
    requires forall i :: 0 <= i < |ds| ==> IsDigit(ds[i])
  {
    if ds == [] then 0
    else
      var last := ds[|ds| - 1];
      assert IsDigit(last);
      DigitsValue(ds[..|ds| - 1]) * 10 + (last as int - '0' as int)
  }

  /**
   * `parseInt(s, 10)`: skip leading white space, read an optional sign, then
   * the longest run of decimal digits; NaN when that run is empty. Whatever
   * follows the digits is ignored.
   */
  function ParseInt(s: string): (p: Parsed)
    ensures p.NaN? <==> DigitPrefix(Unsigned(TrimStart(s))) == []
    ensures p.Num? && p.n < 0 ==> TrimStart(s)[0] == '-'
  {
    var t := TrimStart(s);
    var negative := t != [] && t[0] == '-';
    var ds := DigitPrefix(Unsigned(t));
    if ds == [] then NaN
    else
      var v: int := DigitsValue(ds);
      if negative then Num(-v) else Num(v)
  }

  /** `t` without its leading sign character, if it has one. */
  function Unsigned(t: string): (u: string)
    ensures u == t || (t != [] && (t[0] == '-' || t[0] == '+') && u == t[1..])
  {
    if t != [] && (t[0] == '-' || t[0] == '+') then t[1..] else t
  }

  /** `String(n)` for a non-negative integer: its base-10 digits, no leading zeros. */
  function NatDigits(n: nat): (s: string)
    ensures s != [] && forall i :: 0 <= i < |s| ==> IsDigit(s[i])
  {
    var last := ('0' as int + n % 10) as char;
    if n < 10 then [last] else NatDigits(n / 10) + [last]
  }

  /** `String(n)`: the decimal text a number is sent as in a query string. */
  function Decimal(n: int): string {
    if n < 0 then "-" + NatDigits(-n) else NatDigits(n)
  }

  lemma {:induction false} DigitsValueOfNatDigits(n: nat)
    ensures DigitsValue(NatDigits(n)) == n
  {
    var s := NatDigits(n);
    if n >= 10 {
      DigitsValueOfNatDigits(n / 10);
      assert s[..|s| - 1] == NatDigits(n / 10);
    }
  }

  lemma {:induction false} DigitPrefixOfDigits(ds: string, rest: string)
    requires forall i :: 0 <= i < |ds| ==> IsDigit(ds[i])
    requires rest == [] || !IsDigit(rest[0])
    ensures DigitPrefix(ds + rest) == ds
  {
    if ds != [] {
      assert (ds + rest)[1..] == ds[1..] + rest;
      DigitPrefixOfDigits(ds[1..], rest);
      assert ds == [ds[0]] + ds[1..];
    } else {
      assert ds + rest == rest;
    }
  }

  /** The text of `String(n) + rest` after white space and sign are stripped. */
  lemma {:induction false} DecimalDigitsAfterSign(n: int, rest: string)
    ensures var t := TrimStart(Decimal(n) + rest);
            t == Decimal(n) + rest
            && (t[0] == '-' <==> n < 0)
            && Unsigned(t) == NatDigits(Abs(n)) + rest
  {
    var ds := NatDigits(Abs(n));
    var s := Decimal(n) + rest;
    var u := ds + rest;
    assert IsDigit(ds[0]) && u[0] == ds[0];
    if n < 0 {
      assert s == ['-'] + u;
    } else {
      assert s == u;
    }
    assert !IsWhiteSpace(s[0]);
  }

  /**
   * Round trip: `parseInt(String(n) + rest, 10) == n` whenever `rest` does not
   * continue the digits, so a page number sent as text comes back unchanged.
   */
  lemma ParseDecimal(n: int, rest: string)
    requires rest == [] || !IsDigit(rest[0])
    ensures ParseInt(Decimal(n) + rest) == Num(n)
  {
    var ds := NatDigits(Abs(n));
    DecimalDigitsAfterSign(n, rest);
    DigitPrefixOfDigits(ds, rest);
    DigitsValueOfNatDigits(Abs(n));
  }

  /**
   * `parseInt(q, 10) || fallback`: the parsed number unless the parse gave
   * NaN or zero (both falsy), in which case `fallback`. An absent query
   * parameter parses to NaN. Negative numbers pass through.
   */
  function ParamOr(q: Option<string>, fallback: int): (r: int)
    ensures fallback != 0 ==> r != 0
    ensures q.None? ==> r == fallback
    ensures q.Some? && ParseInt(q.value).Num? && ParseInt(q.value).n != 0 ==> r == ParseInt(q.value).n
    ensures q.Some? && (ParseInt(q.value).NaN? || ParseInt(q.value) == Num(0)) ==> r == fallback
  {
    match q
    case None => fallback
    case Some(text) =>
      match ParseInt(text)
      case NaN => fallback
      case Num(v) => if v == 0 then fallback else v
  }

  /** A non-zero number sent as decimal text is read back as itself, never replaced by the fallback. */
  lemma ParamOfDecimal(n: int, fallback: int)
    requires n != 0
    ensures ParamOr(Some(Decimal(n)), fallback) == n
  {
    ParseDecimal(n, []);
    assert Decimal(n) + [] == Decimal(n);
  }

  /**
   * `Math.ceil(total / limit)` as it reaches the JSON body (where -0 prints as 0):
   * the least integer at or above the quotient.
   */
  function CeilDiv(total: nat, limit: int): (r: int)
    requires limit != 0
    ensures limit > 0 ==> r * limit >= total && (r - 1) * limit < total
    ensures limit < 0 ==> r * limit <= total < (r - 1) * limit
  {
    if limit > 0 then (total + limit - 1) / limit else -(total / -limit)
  }

  /** For a positive limit the page count is 0 exactly when there is nothing to page. */
  lemma CeilDivPositive(total: nat, limit: int)
    requires limit > 0
    ensures CeilDiv(total, limit) >= 0
    ensures CeilDiv(total, limit) == 0 <==> total == 0
  {
  }

  /** The contract of CeilDiv pins the result down: no other integer has it. */
  lemma CeilDivUnique(total: nat, limit: int, k: int)
    requires limit > 0
    requires k * limit >= total && (k - 1) * limit < total
    ensures k == CeilDiv(total, limit)
  {
    var r := CeilDiv(total, limit);
    if k < r {
      MulMonotone(k, r - 1, limit);
    } else if k > r {
      MulMonotone(r, k - 1, limit);
    }
  }

  lemma MulMonotone(a: int, b: int, c: int)
    requires a <= b && c >= 0
    ensures a * c <= b * c
  {
    assert b * c - a * c == (b - a) * c;
  }

  /** The page a position falls on is unique: `a` is the quotient whenever `k` lies in `[a*l, a*l + l)`. */
  lemma DivUnique(k: nat, l: int, a: int, start: int)
    requires l >= 1 && start == a * l
    requires start <= k < start + l
    ensures a == k / l
  {
    var q := k / l;
    assert k == q * l + k % l;
    if a < q {
      MulMonotone(a + 1, q, l);
    } else if a > q {
      MulMonotone(q + 1, a, l);
    }
  }

  /** Where a position sits relative to its quotient's page boundaries. */
  lemma DivBounds(k: nat, l: int)
    requires l >= 1
    ensures 0 <= k / l && (k / l) * l <= k < (k / l) * l + l
  {
    assert k == (k / l) * l + k % l;
  }

  /** The page holding position `k < n` is within the first `ceil(n / l)` pages. */
  lemma PageWithinCount(k: nat, n: nat, l: int)
    requires l >= 1 && k < n
    ensures k / l + 1 <= CeilDiv(n, l)
  {
    var t := CeilDiv(n, l);
    DivBounds(k, l);
    if k / l + 1 > t {
      MulMonotone(t, k / l, l);
    }
  }

  /** The offset of page `page` of `limit` items, for the page numbers and limits a client can ask for. */
  function PageSkip(page: int, limit: int): (skip: nat)
    requires page >= 1 && limit >= 1
    ensures skip == (page - 1) * limit
  {
    MulMonotone(0, page - 1, limit);
    (page - 1) * limit
  }

  /** Only page `k / l + 1` covers position `k`. */
  lemma SkipCovers(k: nat, l: int, q: int)
    requires l >= 1 && q >= 1
    requires PageSkip(q, l) <= k < PageSkip(q, l) + l
    ensures q == k / l + 1
  {
    DivUnique(k, l, q - 1, PageSkip(q, l));
  }

  /** Page `k / l + 1` covers position `k`. */
  lemma PageCovers(k: nat, l: int)
    requires l >= 1
    ensures k / l + 1 >= 1
    ensures PageSkip(k / l + 1, l) <= k < PageSkip(k / l + 1, l) + l
  {
    DivBounds(k, l);
  }
}
