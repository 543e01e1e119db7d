# Currency rate table

A model of the exchange-rate table of the currency converter
(`Models/RateTable.cs`). The table maps each supported currency code to the
number of Brazilian reais one unit of it is worth: BRL 1.00, USD 5.60,
EUR 6.10. BRL is the base currency. The table offers three read-only
operations:

- `GetCurrencies` lists the supported codes in ascending order;
- `Supports` tells whether a code is in the table;
- `Convert` turns an amount in one currency into another. It returns 0 when
  either code is unsupported. That check comes before the same-currency
  shortcut, so an unsupported code converted to itself also gives 0. A
  supported code converted to itself gives the amount unchanged. Any other
  supported pair goes through BRL: multiply by the source rate, then divide
  by the target rate.

The project has two modules:

- `RateTable` (`rate_table.dfy`) holds the table as a constant map and the
  operations as functions. The lemmas beside them state the conversion's
  properties: it preserves value in BRL, follows the multiply-then-divide
  formula, has the base-currency special cases, and round-trips and composes
  exactly. They also pin down the sentinel behaviour and the concrete
  listing `["BRL", "EUR", "USD"]`.
- `Lexicographic` (`lexicographic.dfy`) defines the ordinal lexicographic
  order on strings, which the listing sorts by. It proves that order is a
  strict total order. It also has `SortSet`, which lists a finite set of
  strings in ascending order, each element once. Finally it proves that a
  strictly sorted sequence is fully determined by its elements.

The source keeps the table in a `readonly` field and exposes it only as an
`IReadOnlyDictionary`. That does not stop a caller from casting the view back
to `Dictionary` and changing it. The model makes the table a `const`, so no operation
can change it, and every call sees the same rates by construction.

## Model

| member | source | states |
|---|---|---|
| `RateTable.ToBRL` | Models/RateTable.cs:5-14 | the exposed table holds exactly BRL, EUR and USD, BRL's rate is exactly 1, and every rate is strictly positive, so no division by a rate divides by zero |
| `RateTable.GetCurrencies` | Models/RateTable.cs:16-17 | the listing is strictly ascending, has exactly the table's keys as elements, and has as many entries as the table has keys, so it lists each key once |
| `RateTable.CurrenciesInOrder` | Models/RateTable.cs:8-10 | for this table the listing is exactly `["BRL", "EUR", "USD"]` |
| `RateTable.Supports` | Models/RateTable.cs:19-20 | a code is supported exactly when it is BRL, EUR or USD |
| `RateTable.SupportsIffListed` | Models/RateTable.cs:16-20 | a code is supported exactly when the listing of the codes contains it |
| `RateTable.Convert` | Models/RateTable.cs:22-31 | gives 0 when either code is unsupported; for a supported pair the result is worth in BRL what the amount was worth (result × target rate = amount × source rate); a supported code converted to itself gives the amount unchanged |
| `RateTable.ConvertFormula` | Models/RateTable.cs:28-30 | for every supported pair, including equal codes, the result is amount × source rate ÷ target rate, and the target rate is non-zero |
| `RateTable.ConvertToBase` | Models/RateTable.cs:8 | converting a supported currency into BRL multiplies by its rate |
| `RateTable.ConvertFromBase` | Models/RateTable.cs:8 | converting BRL into a supported currency divides by that currency's rate |
| `RateTable.ConvertRoundTrip` | Models/RateTable.cs:28-30 | converting between two supported currencies and back returns the original amount |
| `RateTable.ConvertCompose` | Models/RateTable.cs:28-30 | converting in two steps through any supported currency equals converting directly |
| `RateTable.ConvertSameCode` | Models/RateTable.cs:24-25 | a code converted to itself gives the amount when the code is supported and 0 otherwise |
| `RateTable.ConvertZeroIff` | Models/RateTable.cs:24 | the result is 0 exactly when a code is unsupported or the amount is 0, so the sentinel cannot be told apart from a zero amount |
| `RateTable.ConvertLinear` | Models/RateTable.cs:24-30 | scaling the amount by k scales the result by k, for every pair of codes |
| `RateTable.ConvertKeepsSign` | Models/RateTable.cs:28-30 | between supported currencies a positive amount gives a positive result and a negative amount a negative one |
| `RateTable.ConvertExamples` | Models/RateTable.cs:22-31 | XXX→USD and XXX→XXX give 0; USD→EUR is x × 5.60 ÷ 6.10; 10 USD is 56 BRL; 61 BRL is 10 EUR |
| `Lexicographic.LessIrreflexive` | Models/RateTable.cs:17 | no string comes before itself in the order the listing uses |
| `Lexicographic.LessTransitive` | Models/RateTable.cs:17 | the listing order is transitive |
| `Lexicographic.LessTrichotomy` | Models/RateTable.cs:17 | any two strings are equal or one comes before the other |
| `Lexicographic.LeastExists` | Models/RateTable.cs:17 | every non-empty finite set of strings has an element that comes before all the others |
| `Lexicographic.SortSet` | Models/RateTable.cs:17 | ordering a set of keys by the keys gives a strictly ascending sequence with exactly the set's elements, each once |
| `Lexicographic.SortedUnique` | Models/RateTable.cs:17 | two strictly ascending sequences with the same elements are equal, so the ordered listing is unique |

## Left out

- `decimal` arithmetic: amounts and rates are exact `real`, and every arithmetic lemma about `Convert` holds exactly only in this exact-real model. C# `decimal` keeps at most 28 decimal places and rounds the quotient, so in the source the round trip and composition are only approximate. An `OverflowException` from `amount * rate` near `decimal.MaxValue` is not modelled either.
- ConvertZeroIff: its "only if" half does not hold of the source, where a tiny non-zero amount can underflow to 0 (1e-28 BRL to EUR rounds to 0m), because rounding is not modelled.
- ConvertKeepsSign: does not hold of the source for amounts small enough to round to 0m, because rounding is not modelled.
- ConvertLinear: holds in the source only up to rounding, because rounding is not modelled.
- Culture-sensitive string comparison in `OrderBy`: the listing is ordered by ordinal lexicographic order. For the three upper-case ASCII codes of the table both orders agree.
- A `null` code, on which the dictionary lookup throws: Dafny strings cannot be null.
- `GetCurrencies` returns a lazily evaluated `IEnumerable<string>` in the source; the model returns the finished sequence.
- The application's GUI, view models, data binding and shell are not part of this model; they only call into this table.
