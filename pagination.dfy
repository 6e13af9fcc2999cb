/** `parsePagination`: page and limit from the query string, with JavaScript's `parseInt`
    (radix 10), `Math.max` and number arithmetic, where a text without leading digits
    reads as `NaN` and `NaN` survives `Math.max` and every arithmetic step. */
module Pagination {
  import opened Common
  import opened Text

  /** A JavaScript number as far as these steps produce one: an integer or `NaN`. */
  datatype JsNum = Num(n: int) | NaN

  datatype Page = Page(page: JsNum, limit: JsNum, offset: JsNum)

  function SkipSpaces(s: string): (t: string)
    ensures |t| <= |s| && t == s[|s| - |t|..]
    ensures t != [] ==> !IsSpace(t[0])
  {
    if s != [] && IsSpace(s[0]) then SkipSpaces(s[1..]) else s
  }

  /** How many digits `s` starts with. */
  function DigitRun(s: string): (n: nat)
    ensures n <= |s|
    ensures forall i :: 0 <= i < n ==> IsDigit(s[i])
    ensures n < |s| ==> !IsDigit(s[n])
  {
    if s != [] && IsDigit(s[0]) then 1 + DigitRun(s[1..]) else 0
  }

  /** The decimal value of a run of digits. */
  function DigitsValue(d: string): (v: nat)
    requires forall i :: 0 <= i < |d| ==> IsDigit(d[i])
  {
    if d == [] then 0
    else
      assert IsDigit(d[|d| - 1]);
      var last: nat := d[|d| - 1] as int - '0' as int;
      10 * DigitsValue(d[..|d| - 1]) + last
  }

  /** What follows the white space and an optional sign. */
  function Unsigned(s: string): (u: string)
    ensures |u| <= |s|
  {
    var t := SkipSpaces(s);
    if t != [] && (t[0] == '+' || t[0] == '-') then t[1..] else t
  }

  predicate Negative(s: string) {
    var t := SkipSpaces(s);
    t != [] && t[0] == '-'
  }

  /** `parseInt(s, 10)`: optional white space, an optional sign, then the longest run of
      digits; `NaN` when there is no digit. */
  function ParseInt(s: string): (r: JsNum)
    ensures r.Num? <==> DigitRun(Unsigned(s)) > 0
    ensures r.Num? && !Negative(s) ==> r.n >= 0
  {
    var u := Unsigned(s);
    var n := DigitRun(u);
    if n == 0 then NaN
    else
      var v: int := DigitsValue(u[..n]);
      Num(if Negative(s) then -v else v)
  }

  /** `Math.max(x, 1)`. */
  function AtLeastOne(x: JsNum): (r: JsNum)
    ensures x.NaN? <==> r.NaN?
    ensures r.Num? ==> r.n >= 1 && r.n >= x.n && (r.n == x.n || r.n == 1)
  {
    if x.NaN? then NaN else if x.n >= 1 then x else Num(1)
  }

  /** `(page - 1) * limit`. */
  function OffsetOf(page: JsNum, limit: JsNum): (r: JsNum)
    ensures r.NaN? <==> page.NaN? || limit.NaN?
    ensures page.Num? && limit.Num? && page.n >= 1 && limit.n >= 1 ==> r.n >= 0
  {
    if page.NaN? || limit.NaN? then NaN
    else
      assert page.n >= 1 && limit.n >= 1 ==> (page.n - 1) * limit.n >= 0 by {
        if page.n >= 1 && limit.n >= 1 {
          MulNonNegative(page.n - 1, limit.n);
        }
      }
      Num((page.n - 1) * limit.n)
  }

  /** `q || fallback` on a query-string value: a missing or empty value takes the fallback. */
  function QueryOr(q: Option<string>, fallback: string): string {
    if TruthyText(q) then q.value else fallback
  }

  /** `Math.max(parseInt(q || fallback, 10), 1)`. */
  function Clamped(q: Option<string>, fallback: string): (r: JsNum)
    ensures !TruthyText(q) ==> r == AtLeastOne(ParseInt(fallback))
    ensures r.Num? ==> r.n >= 1
  {
    AtLeastOne(ParseInt(QueryOr(q, fallback)))
  }

  /** `parsePagination`: page defaults to 1 and limit to 10; both are clamped to at least 1;
      offset skips the rows of the earlier pages. */
  function ParsePagination(pageQuery: Option<string>, limitQuery: Option<string>): (r: Page)
    ensures !TruthyText(pageQuery) ==> r.page == Num(1)
    ensures !TruthyText(limitQuery) ==> r.limit == Num(10)
    ensures r.page.Num? ==> r.page.n >= 1
    ensures r.limit.Num? ==> r.limit.n >= 1
    ensures r.page.Num? && r.limit.Num? ==>
              r.offset.Num? && r.offset.n >= 0 && r.offset.n == (r.page.n - 1) * r.limit.n
    ensures r.page.NaN? || r.limit.NaN? ==> r.offset.NaN?
  {
    DefaultsParse();
    var page := Clamped(pageQuery, "1");
    var limit := Clamped(limitQuery, "10");
    Page(page, limit, OffsetOf(page, limit))
  }

  /** The fallback texts read as 1 and 10. */
  lemma DefaultsParse()
    ensures ParseInt("1") == Num(1) && ParseInt("10") == Num(10)
  {
    ParseDecimal(1);
    ParseDecimal(10);
    assert Decimal(1) == "1";
    assert Decimal(10) == "10";
  }

  lemma MulNonNegative(a: int, b: int)
    requires a >= 0 && b >= 0
    ensures a * b >= 0
  {
  }

  /** Consecutive pages tile the rows: page p + 1 starts where page p ends. */
  lemma PagesTile(p: int, limit: int)
    requires p >= 1 && limit >= 1
    ensures OffsetOf(Num(p + 1), Num(limit)) == Num(OffsetOf(Num(p), Num(limit)).n + limit)
  {
  }

  /** The decimal text of a natural number, as a client would send it. */
  function Decimal(n: nat): (s: string)
    ensures s != [] && forall i :: 0 <= i < |s| ==> IsDigit(s[i])
  {
    if n < 10 then [('0' as int + n) as char] else Decimal(n / 10) + [('0' as int + n % 10) as char]
  }

  lemma {:induction false} DecimalValue(n: nat)
    ensures DigitsValue(Decimal(n)) == n
  {
    if n >= 10 {
      DecimalValue(n / 10);
      var s := Decimal(n);
      assert s[..|s| - 1] == Decimal(n / 10);
    }
  }

  /** `parseInt` reads back the decimal text of every natural number. */
  lemma ParseDecimal(n: nat)
    ensures ParseInt(Decimal(n)) == Num(n)
  {
    var s := Decimal(n);
    assert IsDigit(s[0]) && !IsSpace(s[0]);
    assert SkipSpaces(s) == s;
    assert Unsigned(s) == s;
    assert DigitRun(s) == |s| by {
      DigitRunAll(s);
    }
    assert s[..|s|] == s;
    DecimalValue(n);
  }

  lemma {:induction false} DigitRunAll(s: string)
    requires forall i :: 0 <= i < |s| ==> IsDigit(s[i])
    ensures DigitRun(s) == |s|
  {
    if s != [] {
      DigitRunAll(s[1..]);
    }
  }

  /** For a page and a limit sent as decimal numbers, the result is the clamped numbers and
      the offset of that page. */
  lemma NumericQuery(p: nat, l: nat)
    requires p != 0 && l != 0
    ensures ParsePagination(Some(Decimal(p)), Some(Decimal(l))) == Page(Num(p), Num(l), Num((p - 1) * l))
  {
    var sp, sl := Decimal(p), Decimal(l);
    ParseDecimal(p);
    ParseDecimal(l);
    assert QueryOr(Some(sp), "1") == sp && QueryOr(Some(sl), "10") == sl;
    assert Clamped(Some(sp), "1") == Num(p);
    assert Clamped(Some(sl), "10") == Num(l);
    assert OffsetOf(Num(p), Num(l)) == Num((p - 1) * l);
  }

  /** A query value without digits, such as `abc`, reads as `NaN` and so does the offset. */
  lemma TextPageIsNaN()
    ensures ParsePagination(Some("abc"), None).page.NaN?
    ensures ParsePagination(Some("abc"), None).offset.NaN?
  {
    assert SkipSpaces("abc") == "abc";
    assert Unsigned("abc") == "abc";
  }
}
