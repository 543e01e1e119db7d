/**
 * The fixed exchange-rate table of Models/RateTable.cs: every supported
 * currency code is mapped to the number of Brazilian reais one unit of it is
 * worth, and every conversion is routed through the real (BRL).
 *
 * The table is a `const`: it is built once and no operation can change it,
 * so every call sees the same rates.
 */
module RateTable {
  import Lexicographic

  /** The base currency, through which every conversion is routed. */
  const BASE: string := "BRL"

  /** Reais per unit of each supported currency. */
  const RATES: map<string, real> := map["BRL" := 1.00, "USD" := 5.60, "EUR" := 6.10]

  /** The base currency is in the table at exactly 1, and every rate is strictly positive. */
  ghost predicate WellFormed(rates: map<string, real>)
  {
    && BASE in rates
    && rates[BASE] == 1.0
    && forall c :: c in rates ==> rates[c] > 0.0
  }

  /** The read-only view of the table that callers get. */
  function ToBRL(): (view: map<string, real>)
    ensures WellFormed(view)
    ensures view.Keys == {"BRL", "EUR", "USD"}
  {
    RATES
  }

  /** The supported codes, each once, in ascending order. */
  function GetCurrencies(): (codes: seq<string>)
    ensures Lexicographic.StrictlySorted(codes)
    ensures forall c :: c in codes <==> c in RATES
    ensures |codes| == |RATES|
  {
    Lexicographic.SortSet(RATES.Keys)
  }

  /** Whether `code` names a currency of the table. */
  function Supports(code: string): (b: bool)
    ensures b <==> code == "BRL" || code == "EUR" || code == "USD"
  {
    code in RATES
  }

  /** Converts `amount` from currency `from` to currency `to`; 0 when either
      code is unsupported, checked before the same-currency shortcut. */
  function Convert(amount: real, from: string, to: string): (r: real)
    ensures !Supports(from) || !Supports(to) ==> r == 0.0
    ensures Supports(from) && Supports(to) ==> r * RATES[to] == amount * RATES[from]
    ensures Supports(from) && from == to ==> r == amount
  {
    if !Supports(from) || !Supports(to) then 0.0
    else if from == to then amount
    else
      var brl := amount * RATES[from];
      brl / RATES[to]
  }

  /** The listing of the codes is exactly BRL, EUR, USD in that order. */
  lemma CurrenciesInOrder()
    ensures GetCurrencies() == ["BRL", "EUR", "USD"]
  {
    var expected := ["BRL", "EUR", "USD"];
    assert Lexicographic.Less("BRL", "EUR");
    assert Lexicographic.Less("EUR", "USD");
    assert Lexicographic.Less("BRL", "USD");
    assert Lexicographic.StrictlySorted(expected);
    Lexicographic.SortedUnique(GetCurrencies(), expected);
  }

  /** A code is supported exactly when the listing of the codes contains it. */
  lemma SupportsIffListed(code: string)
    ensures Supports(code) <==> code in GetCurrencies()
  {
  }

  /** For every supported pair the result is multiply-by-source, divide-by-target,
      also when both codes are the same. */
  lemma ConvertFormula(amount: real, from: string, to: string)
    requires Supports(from) && Supports(to)
    ensures RATES[to] != 0.0
    ensures Convert(amount, from, to) == amount * RATES[from] / RATES[to]
  {
  }

  /** Converting into the base currency multiplies by the source rate. */
  lemma ConvertToBase(amount: real, from: string)
    requires Supports(from)
    ensures Convert(amount, from, BASE) == amount * RATES[from]
  {
  }

  /** Converting out of the base currency divides by the target rate. */
  lemma ConvertFromBase(amount: real, to: string)
    requires Supports(to)
    ensures Convert(amount, BASE, to) == amount / RATES[to]
  {
  }

  /** Converting there and back gives the amount back. */
  lemma ConvertRoundTrip(amount: real, a: string, b: string)
    requires Supports(a) && Supports(b)
    ensures Convert(Convert(amount, a, b), b, a) == amount
  {
  }

  /** Converting in two steps through any supported currency is converting in one. */
  lemma ConvertCompose(amount: real, a: string, b: string, c: string)
    requires Supports(a) && Supports(b) && Supports(c)
    ensures Convert(Convert(amount, a, b), b, c) == Convert(amount, a, c)
  {
  }

  /** The same code on both sides gives the amount back only when the code is supported. */
  lemma ConvertSameCode(amount: real, code: string)
    ensures Convert(amount, code, code) == if Supports(code) then amount else 0.0
  {
  }

  /** The sentinel 0 cannot be told apart from a genuine zero amount. */
  lemma ConvertZeroIff(amount: real, from: string, to: string)
    ensures Convert(amount, from, to) == 0.0 <==> !Supports(from) || !Supports(to) || amount == 0.0
  {
  }

  /** Conversion is linear in the amount. */
  lemma ConvertLinear(k: real, amount: real, from: string, to: string)
    ensures Convert(k * amount, from, to) == k * Convert(amount, from, to)
  {
  }

  /** Between supported currencies a conversion keeps the sign of the amount. */
  lemma ConvertKeepsSign(amount: real, from: string, to: string)
    requires Supports(from) && Supports(to)
    ensures amount > 0.0 ==> Convert(amount, from, to) > 0.0
    ensures amount < 0.0 ==> Convert(amount, from, to) < 0.0
  {
  }

  /** Worked cases: unsupported codes give 0 even when both sides are equal,
      and a supported pair uses the table's own constants. */
  lemma ConvertExamples(x: real)
    ensures Convert(x, "XXX", "USD") == 0.0
    ensures Convert(x, "XXX", "XXX") == 0.0
    ensures Convert(x, "USD", "EUR") == x * 5.60 / 6.10
    ensures Convert(10.0, "USD", "BRL") == 56.0
    ensures Convert(61.0, "BRL", "EUR") == 10.0
  {
  }
}
