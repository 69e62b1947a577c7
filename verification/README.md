# health_census: a Dafny model of the patient list logic

`health_analysis.js` drives a single page that keeps a list of patient records in browser storage.
Behind the DOM wiring sits a small core of list logic, which this project models as pure functions
over `seq<Patient>`. A record has `id`, `name`, `gender`, `age`, `condition` and `added`. The core covers:

- **record store** (`Patients`): submitting the form (add or update), delete, and the sample import;
- **table view** (`Query`): a case-insensitive search on name or condition, then an optional sort by
  name, age or condition;
- **report and dashboard** (`Dashboard`): per-condition counts (the report line, the pie chart and
  the summary cards), the rounded mean age per condition (the bar chart), and the six-record
  "recent" window;
- **CSV export** (`Csv`): quoted fields, comma-joined, with rows joined by a single space;
- **`escapeHtml`** (`Html`);
- **condition lookup** (`Lookup`): the matching rule applied to the fetched reference list.

Supporting modules: `Wrappers` defines `Option` and `Result`. `Seqs` defines the order-preserving
filter and subsequences. `Text` covers ASCII lower-casing, `includes`, `trim`, decimal numerals and
`join`. `Order` defines the lexicographic string order that stands in for `localeCompare`.

Modelling choices:
- The clock and the random source are parameters. This covers the fresh id from `uid()`, the `added`
  stamp and the three sample ids and stamps. No property assumes that `uid()` yields unique ids.
- The fetched reference data is a parameter: `None` stands for a failed fetch or parse.
- Ages are `nat`. The form's age field is `Option<nat>`, and `None` means the field was left empty.
- `Math.round(sum / n)` over non-negative ages is the integer `(2*sum + n) / (2*n)`. It is proved
  to satisfy `Math.round`'s defining inequality.
- ECMAScript requires `Array.prototype.sort` to be stable (since the 2019 edition). The model sorts
  with an insertion sort and proves three things about the result: it is a permutation, it is sorted,
  and ties keep their order. Only one list has all three properties, so the model's list is the one
  the engine produces.

The model follows the code as written, including:
- CSV rows are joined by a space, not a newline. Every field is quoted, so a space outside quotes
  can only be a row break. `Csv.ReadRows` reads the export back exactly.
- Updating an id that no record has changes nothing silently. No not-found error is raised.
- A condition outside the three buckets is accepted. It is left out of the report line and the
  bar chart. It still becomes an extra pie slice, because the pie's labels are
  `Object.keys(condCounts)`, and that object gains a key for every condition it sees
  (`Dashboard.CondCountsSpec`).

## Model

| member | source | states |
|---|---|---|
| Patients.Add | health_analysis.js:73 | the result is the old list with exactly one record appended, carrying the given id, fields and stamp; earlier records unchanged |
| Patients.AddThenFind | health_analysis.js:73 | after adding with an id no record had, looking that id up finds exactly the new record |
| Patients.FindIndex | health_analysis.js:70 | the index returned holds the id and no earlier record does; `None` exactly when no record has the id |
| Patients.FindById | health_analysis.js:82 | the record returned has the id and is the one at the first position holding that id; `None` exactly when no record has the id |
| Patients.Update | health_analysis.js:70-71 | same length; the first record with the id gets the new name, gender, age and condition and keeps its id and `added`; every other record is unchanged; an absent id leaves the list as it was |
| Patients.UpdateThenFind | health_analysis.js:68-71 | looking the id up after an update shows every changed field and the old id and stamp; absent id stays absent |
| Patients.UpdateIdempotent | health_analysis.js:70-71 | repeating the same update changes nothing further |
| Patients.Delete | health_analysis.js:94 | no record in the result has the deleted id |
| Patients.DeleteKeepsOthers | health_analysis.js:94 | the result is an order-preserving subsequence of the list; each record with another id keeps its multiplicity, records with the id have none |
| Patients.DeleteIdempotent | health_analysis.js:94 | deleting the same id twice equals deleting it once |
| Patients.DeleteAbsent | health_analysis.js:94 | deleting an id no record has leaves the list unchanged |
| Patients.DeleteUndoesAdd | health_analysis.js:73 | deleting the id of a record just added with a fresh id restores the old list |
| Patients.Submit | health_analysis.js:58-74 | refused exactly when the trimmed name, the gender choice, the age or the condition is missing; with no id the new record is appended with the trimmed name, fresh id and stamp; with an id the result is `Update` with the trimmed name, so only the first record with that id changes, the lookup by that id shows the new fields, and an absent id leaves the list as it was |
| Patients.LoadSample | health_analysis.js:123-129 | the three fixed sample records come first with their names, genders, ages and conditions, the k-th given id and stamp going to the k-th record, and the old list follows unchanged |
| Text.ContainsIff | health_analysis.js:102 | `includes` holds exactly when the query occurs at some position of the text |
| Text.TrimSlice | health_analysis.js:61 | the trimmed text lies between the end of the leading whitespace and the start of the trailing whitespace: everything cut off is whitespace, and what is kept, when not empty, begins and ends with non-whitespace |
| Text.TrimUnique | health_analysis.js:61 | any two bounds that cut off only whitespace and leave non-whitespace at both ends give exactly the trimmed text, so that property alone determines trimming |
| Text.TrimEmpty | health_analysis.js:136-138 | the trimmed text is empty exactly when the input is all whitespace |
| Text.TrimLower | health_analysis.js:136 | trimming and lower-casing commute |
| Text.NatToString | health_analysis.js:115 | the age's text is a non-empty numeral, with no leading zero, whose decimal value is the age |
| Order.LexTotal | health_analysis.js:104 | any two strings are comparable under the name/condition order |
| Order.LexTransitive | health_analysis.js:106 | the name/condition order is transitive |
| Order.LexAntisymmetric | health_analysis.js:104 | strings that sort no later than each other are equal |
| Query.Filter | health_analysis.js:101-102 | every kept record matches the lower-cased query in its lower-cased name or condition |
| Query.FilterSpec | health_analysis.js:101-102 | the filtered list is an order-preserving subsequence of the store; each matching record keeps its multiplicity and no other record is kept |
| Query.EmptySearchKeepsAll | health_analysis.js:101-102 | an empty search keeps the whole store, and the view has every record whatever the sort selector says |
| Query.ParseSortKey | health_analysis.js:103-106 | `name` selects the name key, `age` the age key and `condition` the condition key; every other value selects no sort |
| Query.Insert | health_analysis.js:104-106 | inserting adds exactly the one record to the multiset of records |
| Query.Sort | health_analysis.js:104-106 | the sorted list is a permutation of its input |
| Query.SortSorted | health_analysis.js:104-106 | by age the ages are non-decreasing; by name or condition each record sorts no later than every later one |
| Query.SortStable | health_analysis.js:104-106 | records that tie on the key keep their relative order |
| Query.View | health_analysis.js:100-108 | the view is a permutation of the filtered list, and an unrecognised sort value leaves the filtered order unchanged |
| Query.ViewSorted | health_analysis.js:103-107 | with a recognised key the view is a sorted, stable permutation of the filtered list |
| Dashboard.BucketOf | health_analysis.js:52 | a condition falls into a bucket only by exact match with its label; otherwise into none |
| Dashboard.CountIsMultiplicity | health_analysis.js:53 | a condition's count is its multiplicity among the records' conditions |
| Dashboard.CountsPartition | health_analysis.js:52-53 | the three bucket counts plus the unknown-condition records add up to the number of records |
| Dashboard.BumpSpec | health_analysis.js:160 | one tally step keeps keys distinct, raises only that condition's value by one, appends only a new key, and adds one to the total |
| Dashboard.TallyFromSpec | health_analysis.js:160 | tallying a list adds each condition's count to the starting tally, keeps existing keys in place and adds only keys that are record conditions |
| Dashboard.CondCountsSpec | health_analysis.js:159-160 | the pie's tally has distinct keys starting with the three buckets, each value is its condition's count, extra keys are record conditions outside the buckets, values sum to the number of records |
| Dashboard.SummaryCounts | health_analysis.js:50-55 | total is the record count; each bucket count is the number of records with that exact condition; the three sum to at most the total, and to exactly the total iff every condition is a bucket |
| Dashboard.SampleFillsEachBucket | health_analysis.js:124-129 | the sample import raises each bucket count by one |
| Dashboard.AgesIn | health_analysis.js:175 | a bucket's age group holds, in store order, the ages of exactly the records whose condition is that bucket's label |
| Dashboard.WithConditionSpec | health_analysis.js:175 | the records with a given condition form an order-preserving subsequence of the store holding each such record as often as the store does, and no other record |
| Dashboard.RoundedQuotientNearest | health_analysis.js:177 | the rounded quotient `m` satisfies `m - 1/2 <= sum/n < m + 1/2`, as `Math.round` does |
| Dashboard.MeanWithinRange | health_analysis.js:177 | for a non-empty group the rounding formula gives a value between the smallest and largest age |
| Dashboard.Mean | health_analysis.js:177 | 0 for an empty group; otherwise the integer nearest to the exact mean, as `Math.round` defines it, lying between the smallest and largest age |
| Dashboard.AgeMeans | health_analysis.js:174-178 | one bar per bucket in bucket order: 0 for an empty bucket, otherwise the integer nearest to the mean of that bucket's ages, between the youngest and oldest of them |
| Dashboard.UnknownJoinsNoGroup | health_analysis.js:175 | a record with an unknown condition joins no age group, wherever it stands |
| Dashboard.Recent | health_analysis.js:196 | the recent window is the first `min(6, n)` records in store order |
| Dashboard.Project | health_analysis.js:158-197 | the pie has distinct keys, the three buckets first, each key sized by its number of records and every extra key an unknown record condition, its slices adding up to the total card; each bucket card shows the pie's value for its key; each bar is 0 for an empty bucket and otherwise the integer nearest to the mean age, between the youngest and oldest; the recent list is the first `min(6, n)` records |
| Csv.UnquoteQuote | health_analysis.js:116 | removing the outer quotes and halving the doubled quotes gives back the field |
| Csv.ReadRowOfRow | health_analysis.js:116 | a comma-joined row of quoted fields reads back as exactly those fields, leaving what follows untouched |
| Csv.ReadRowsOfRows | health_analysis.js:116 | space-joined rows read back as exactly the table |
| Csv.Table | health_analysis.js:114-115 | the header row first; then, for each record in store order, a row holding its name, gender, a decimal numeral whose value is its age, its condition and its stamp |
| Csv.Export | health_analysis.js:112-116 | refused exactly when the store is empty; otherwise the text reads back as the header followed by each record's fields in store order |
| Csv.ExportFields | health_analysis.js:115 | each exported row reads back as the record's name, gender, condition and stamp, with the age as a numeral whose value is the age |
| Html.EscapeHtml | health_analysis.js:205 | the output contains no `<`, `>`, `"` or `'` |
| Html.AmpersandsOpenEntities | health_analysis.js:205 | every `&` in the output opens one of the five entities |
| Html.UnescapeEscape | health_analysis.js:205 | decoding the five entities gives back the input |
| Html.EscapePlain | health_analysis.js:205 | text without any of the five characters is returned unchanged |
| Lookup.FindCondition | health_analysis.js:143 | the entry found is the first whose lower-cased name equals the query; `None` exactly when no entry matches |
| Lookup.Search | health_analysis.js:135-144 | prompt exactly for a blank query; load error exactly when a non-blank query meets failed data; a found entry is in the data and matches the trimmed, lower-cased query; not found exactly when no entry matches |
| Lookup.SearchIgnoresCase | health_analysis.js:136 | lower-casing the query first gives the same outcome, so the letter case of the query is ignored |
| Lookup.SearchFirstMatch | health_analysis.js:143 | when several names match, the first one is shown |
| WorkedExamples.MeanExample | health_analysis.js:177 | the bar for a bucket with ages 52 and 48 is 50 |
| WorkedExamples.QuoteExample | health_analysis.js:116 | a field `A,B` is quoted as one field with its comma inside, and a field `a"b` is quoted with its inner quote doubled |

## Left out

- DOM reads and writes: form reset, table rendering including the "No records" row, `editPatient`'s
  form filling, scrolling, and event wiring. This is presentation. Only `editPatient`'s lookup by id
  (`Patients.FindById`) is modelled.
- `alert` and `confirm`. The refused form is `Failure(Incomplete)`. `Patients.Delete` is the branch
  taken after the user confirms.
- `localStorage` persistence and the dark-mode flag. These are external storage.
- The `fetch` of the reference data, its promise chain, and the rendering of a found entry. These are
  network I/O and markup. Any fetch or parse failure is `None` data, shown as `LoadError`.
- Chart.js creation and destruction, Blob and object-URL download, the file name and the MIME type.
  These are foreign libraries and browser file APIs.
- `uid()` and `new Date()`. They are non-deterministic, so they are parameters.
- The unused `recents = patients.slice(0,3)`, and the markup of the recent list. The list's `escapeHtml`
  is modelled.
- Order.LexTotal: `localeCompare` is modelled as lexicographic order on Unicode code points.
  Locale collation rules are left out. Code-point order also differs from JavaScript's UTF-16
  code-unit order for characters above U+FFFF: U+1F600 sorts after U+FF5E here, but before it in
  code-unit order, because its first surrogate is 0xD83D.
- Text.Lower: only ASCII letters are lower-cased. Unicode `toLowerCase` mappings are left out.
- Ages are natural numbers. JavaScript's coercion of text ages (`Number(...)`, `a.age - b.age`,
  `String(...)`) is left out. So are `NaN` ages and floating-point division.
- Dashboard.CondCountsSpec: the model appends each new key as the records are visited, with plain keys, but its contract does not state the order of the keys after the three buckets.
  Two JavaScript object quirks are left out. First, `Object.keys` lists integer-like keys first.
  Second, condition texts named like `Object.prototype` members, such as `constructor`, meet
  inherited properties.
- Dashboard.AgeMeans: a record whose condition names an `Object.prototype` member, such as
  `toString`, `constructor` or `__proto__`, makes `groups[p.condition]` an inherited non-array
  value. `?.` does not guard against that, so the `.push` call throws a TypeError and
  `updateDashboard` stops before the bar chart, the summary cards and the recent list are drawn.
  `Dashboard.AgeMeans` and `Dashboard.Project` return values for such records instead.
- Csv.Fields: `p.added || ''` is the identity, because `added` is always a string in the model.
  Older records without `added` are not modelled.
- Ids are compared as strings. JavaScript's loose `==` between a number and a string is not modelled.
