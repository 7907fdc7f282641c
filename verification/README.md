# SLCSP calculator — Dafny model

This project models the join-and-select core of the SLCSP ("second-lowest
cost Silver plan") calculator in `slcsp.py`. The model has three parts.

- **ZIP index** (`ZipCodes`). ZIP-table rows are grouped by `zipcode` into a
  dictionary of lists. A lookup returns the group, or `[]` for an unknown
  zipcode.
- **Plan index** (`CoveragePlans`). Plan rows are grouped under the text key
  `state + " " + rate_area`. A lookup rebuilds the same key.
- **Resolver** (`Resolver`, `Ranking`). For each request row, the resolver
  walks the ZIP rows of its zipcode. It adopts the first non-empty rate area.
  At the first row with a different area, it discards the collected rates and
  stops. Otherwise it collects the rate of every `Silver` plan of each row's
  own (state, rate area). The collected rates are deduplicated and sorted.
  Index 0 is written when one distinct rate remains, index 1 otherwise. When
  nothing was collected, the row is left as it was.

Both indexes use one generic grouping (`Grouping.GroupBy`). It mirrors the
loading loop: a new key opens an empty list, then the row is appended.
`Grouping.Select` is its reference meaning: the rows with a given key, in
input order.

The module `Slcsp` restates the resolver against the raw tables.
`Candidates` is the set of rates of Silver plans whose key equals the key of
some ZIP row of the zipcode. `Resolver.Consistent` says the zipcode's rows do
not conflict: no row after one with a non-empty rate area carries a different
area. `Ranking.IsSlcsp(S, r)` is the declarative meaning of the selected rate:
`r` is in `S`, and either exactly one distinct value of `S` lies below `r`, or
`S` is `{r}`.

Modelling choices:
- Rates are `real`, already parsed. Only equality and order are used.
- Python's initial `None` rate area is modelled as `""`. The code tests it
  only for truthiness, and `None` and `""` are both falsy, so the behaviour
  is the same.
- A request row is its `zipcode`, a rate cell and its other columns. The rate
  cell is either the text read from the request table or a computed rate.
- The model keeps these behaviours of the code as written:
  - The plan key is the concatenated string `state + " " + rate_area`, so
    two (state, rate area) pairs can share a key when a state contains a
    space (`CoveragePlans.KeyCollision`).
  - A row with an empty rate area does not fix the zipcode's area, so the
    next row's area is adopted instead. The empty-area row's own plans are
    still read.
  - Only rate areas are compared, not states.
  - An unresolved row keeps whatever its rate cell held. It is not reset to
    empty.

## Model

| member | source | states |
|---|---|---|
| Grouping.Select | slcsp.py:118-121 | The rows filed under a key are exactly the input rows with that key. |
| Grouping.GroupBy | slcsp.py:115-121 | The grouping loop's dictionary has as keys exactly the keys of the rows read. Each key's list is exactly that key's rows, in input order. |
| Grouping.LookupGroupBy | slcsp.py:128-131 | Looking a key up after grouping yields exactly that key's rows in input order. It yields `[]` exactly when no row has the key. |
| ZipCodes.Load | slcsp.py:115-121 | The ZIP index has an entry for exactly the zipcodes that appear in the ZIP table. |
| ZipCodes.GetByZipcode | slcsp.py:128-131 | No contract of its own; `ZipCodes.GetByZipcodeAfterLoad` states what it returns. |
| ZipCodes.GetByZipcodeAfterLoad | slcsp.py:115-131 | `get_by_zipcode(z)` returns exactly the ZIP rows with zipcode `z`, in input order. It returns `[]` exactly when the zipcode is unknown. |
| CoveragePlans.Load | slcsp.py:146-154 | The plan index has an entry for exactly the `state + " " + rate_area` keys of the plan rows. |
| CoveragePlans.Key | slcsp.py:149 | No contract of its own; `CoveragePlans.KeyInjective` and `CoveragePlans.KeyCollision` state when it identifies a (state, rate area) pair. |
| CoveragePlans.GetByStateRateArea | slcsp.py:162-168 | No contract of its own; `CoveragePlans.GetByStateRateAreaAfterLoad` states what it returns. |
| CoveragePlans.GetByStateRateAreaAfterLoad | slcsp.py:146-168 | `get_by_state_rate_area(s, a)` returns exactly the plan rows whose key equals `s + " " + a`, in input order. It returns `[]` exactly when no plan row has that key. |
| CoveragePlans.KeyInjective | slcsp.py:149 | When no state contains a space, equal text keys come from equal (state, rate area) pairs. |
| CoveragePlans.KeyCollision | slcsp.py:163 | Two different (state, rate area) pairs can share a text key when a state contains a space. |
| Resolver.SilverRates | slcsp.py:68-70 | The collected values are exactly the rates of the plans whose metal level is `Silver`. |
| Resolver.Walk | slcsp.py:53-70 | No contract of its own; `Resolver.WalkCollects` states what it collects. |
| Resolver.CollectRates | slcsp.py:49-70 | No contract of its own; `Slcsp.CollectRatesFromTables` states what it collects for a zipcode. |
| Resolver.WalkCollects | slcsp.py:53-70 | When the ZIP rows conflict on the rate area, the walk ends with no rates, even if rates were collected before. Otherwise the walk collects exactly the Silver rates of every row's plans. |
| Resolver.ResolveRow | slcsp.py:72-86 | With no collected rate the request is returned unchanged. Otherwise only the rate cell changes, to a computed rate that is the SLCSP of the distinct collected rates. |
| Resolver.CalculateSlcsp | slcsp.py:47-86 | Row count and order are kept. Each row keeps its zipcode and other columns. Its rate cell either stays as it was or becomes a computed rate. |
| Resolver.ResolveRowIdempotent | slcsp.py:47-86 | Resolving an already resolved row changes nothing. |
| Resolver.CalculateSlcspIdempotent | slcsp.py:47-86 | Running the calculation on its own output gives the same output. |
| Resolver.EmptyRateAreaNotAdopted | slcsp.py:54-56 | A row with an empty rate area is not adopted, so a later non-empty area is not a conflict. A non-empty area followed by an empty one is a conflict. |
| Resolver.StatesNotCompared | slcsp.py:56 | Rows with the same rate area and different states do not conflict. |
| Ranking.Insert | slcsp.py:82 | Inserting into a strictly increasing list keeps it strictly increasing. It adds exactly the new value, at most once. |
| Ranking.SortedDistinct | slcsp.py:82 | `sorted(set(rates))` is strictly increasing and holds exactly the values of `rates`. |
| Ranking.Pick | slcsp.py:82-86 | Index 0 of one distinct rate, or index 1 of several, is the SLCSP of the distinct rates: the only value, or the value with exactly one distinct value below it. |
| Ranking.IsSlcspUnique | slcsp.py:82-86 | At most one value of a set is its SLCSP, so the selection is fully determined by the distinct values. |
| Ranking.PickIgnoresDuplicates | slcsp.py:82 | Two rate lists with the same distinct values select the same rate, so repeated rates do not change the result. |
| Ranking.PickSkipsRepeatedLowest | slcsp.py:82-86 | For the rates 198.88, 198.88 and 205.77, the selected rate is 205.77. |
| Ranking.PickSingleRate | slcsp.py:83-84 | A single rate of 189.22 is selected as it is. |
| Slcsp.CollectRatesFromTables | slcsp.py:49-70 | A zipcode with conflicting ZIP rows collects nothing. Otherwise its distinct collected rates are exactly the candidates: Silver plans whose key matches some ZIP row of the zipcode. |
| Slcsp.RowSilverRates | slcsp.py:66-70 | The Silver rates a ZIP row contributes are exactly the rates of the Silver plans whose key equals that row's `state + " " + rate_area`. |
| Slcsp.CollectedIsCandidate | slcsp.py:53-70 | For a zipcode with consistent rows, every collected rate is a candidate. |
| Slcsp.CandidateIsCollected | slcsp.py:53-70 | For a zipcode with consistent rows, every candidate is collected. |
| Slcsp.ResolveFromTables | slcsp.py:47-86 | The request is unchanged when its ZIP rows conflict or it has no candidate. Otherwise only its rate cell changes, to the SLCSP of its candidates. |
| Slcsp.UnknownZipcodeUnchanged | slcsp.py:49-81 | A request whose zipcode has no ZIP rows comes back unchanged, including any rate it already held. |
| Slcsp.ConflictUnchanged | slcsp.py:54-64 | If a ZIP row after one with a rate area has a different area, the request is unchanged, however many agreeing rows came first. |
| Slcsp.NoSilverUnchanged | slcsp.py:66-81 | If no plan reached from the zipcode's rows has metal level exactly `Silver`, the request is unchanged. |
| Slcsp.SingleRateWritten | slcsp.py:82-84 | With consistent ZIP rows and exactly one distinct candidate, that rate is written and nothing else changes. |
| Slcsp.SecondLowestWritten | slcsp.py:82-86 | With consistent ZIP rows and two or more distinct candidates, the written rate is a candidate with exactly one distinct candidate below it. |
| Slcsp.CalculateFromTablesShape | slcsp.py:47-86 | Over the raw tables, the output keeps row count and order. Only rate cells change, and every changed cell holds the SLCSP of that row's candidates. |

## Left out

- File opening, `csv.DictReader`, `csv.DictWriter` and `write_slcsp` (slcsp.py:34-45, 90-100, 112-113, 143-144) are I/O plumbing. The tables are sequences of records here.
- The `logging` calls (slcsp.py:11, 42, 58-63, 73, 77, 88, 99, 123, 156) have no effect on results.
- `generate_slcsp_report` and the module-level call (slcsp.py:14-20, 173) are orchestration and run at import time.
- Parsing a rate with `float(...)` and its `ValueError` on bad text (slcsp.py:70) are left out. Rates arrive parsed, and floating-point details such as NaN or rounding are not modelled.
- A `KeyError` from a missing CSV column is schema checking done by the CSV library. Every record here has all its fields.
- The optional file-name arguments of the `load` methods (slcsp.py:30-32, 108-110, 139-141) only choose which file to read.
