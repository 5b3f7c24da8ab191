# Worker directory filtering, in Dafny

This project models the filtering logic of a small service-worker directory
(a Next.js page that lists plumbers, electricians and so on). The model covers
three pieces:

- **`useWorkersFilter`**, the filtering hook. It takes the raw worker list, a
  search term, a service selector and a sort key, and returns three things:
  - the visible workers: a record is visible when its price is positive, its id
    is not null, its name or service contains the term regardless of case, and
    its service matches the selector (`'all'` matches every service). The
    visible workers are sorted by name or by price;
  - the sorted list of distinct services;
  - the total count.
- **The directory page `Home`**, with its older filtering **effect** (a
  function React runs again whenever its inputs change). That effect has no
  validity stage, treats `''` as "every service", and leaves the order alone
  for an unknown sort key. When no filter is active, it sorts the `workers`
  state array itself in place, and `filteredWorkers` then refers to that same
  array. The page also builds its service options as the distinct services in
  order of first appearance, unsorted.
- **`getInitials`** on the worker card: the first character of each
  space-separated piece of the name, upper-cased.

Modules:

- `Wrappers`: `Option`.
- `Workers`: the worker record; `id` is `Option<int>`, because records may
  carry a null id.
- `Text`: ASCII case mapping, substring search and scalar-value comparison.
- `Seqs`: filtering, de-duplication and first occurrence on sequences, plus an
  array filter.
- `StableSort`: JavaScript's stable `Array.prototype.sort`, written as an
  insertion sort over a comparator. It is defined once as a function on
  sequences and once as an in-place array method proved equal to that function.
- `WorkersFilter`: the hook, as pure functions.
- `HomePage`: the page, as the class `Home` whose array fields are updated by
  the method `ApplyFilters`.
- `WorkerCard`: `getInitials`.
- `WorkersFilterExamples`: the hook's test scenarios, restated as lemmas.

The sort comparators must be consistent. This is proved for both
comparators, and it is the precondition of the ordering and stability lemmas;
the permutation and membership lemmas hold for any comparator. Stability is
stated per sort key: the records sharing a key come out in their input order.

## Model

| member | source | states |
|---|---|---|
| Workers.ServicesOf | src/hooks/useWorkersFilter.ts:24 | `workers.map(worker => worker.service)`: one entry per record, the i-th being the i-th record's service |
| Text.LowerChar | src/hooks/useWorkersFilter.ts:33-34 | lower-casing a character turns each upper-case ASCII letter into the lower-case letter at the same alphabet position, and leaves every other character unchanged |
| Text.ToLower | src/hooks/useWorkersFilter.ts:33-34 | `toLowerCase()` keeps the length and lower-cases each character in place |
| Text.ToLowerIdempotent | src/hooks/useWorkersFilter.ts:33-34 | lower-casing twice is lower-casing once, so the lower-cased term and field compare stably |
| Text.IncludesEmpty | src/hooks/useWorkersFilter.ts:33 | every string includes the empty string, so an empty search term matches every record |
| Text.IncludesIffOccurs | src/hooks/useWorkersFilter.ts:33-34 | `s.includes(t)` holds exactly when `t` occurs in `s` at some index, wholly inside `s` |
| Text.Compare | src/hooks/useWorkersFilter.ts:39 | the name comparator's result is -1, 0 or 1 |
| Text.CompareAntisymmetric | src/hooks/useWorkersFilter.ts:39 | swapping the arguments negates the result |
| Text.CompareZeroIffEqual | src/hooks/useWorkersFilter.ts:39 | two names compare equal exactly when they are the same string |
| Text.CompareTransitive | src/hooks/useWorkersFilter.ts:39 | "not after" is transitive, so the order is a total preorder |
| Text.UpperChar | src/components/WorkerCard.tsx:14 | upper-casing a character turns each lower-case ASCII letter into the capital at the same alphabet position, leaves every other character unchanged, and maps a space to a space and nothing else to one |
| Text.ToUpper | src/components/WorkerCard.tsx:14 | `toUpperCase()` keeps the length and upper-cases each character in place |
| Text.ToUpperOfUpper | src/components/WorkerCard.tsx:14 | a string with no lower-case letter is its own upper-casing |
| Seqs.Filter | src/hooks/useWorkersFilter.ts:30-36 | `.filter(p)` is no longer than its input and keeps only input elements satisfying `p` |
| Seqs.FilterMember | src/hooks/useWorkersFilter.ts:30-36 | an element is in the filtered list exactly when it is in the input and satisfies the predicate |
| Seqs.FilterCounts | src/hooks/useWorkersFilter.ts:30-36 | each kept element occurs as often as in the input, and each dropped one not at all |
| Seqs.FilterFilter | src/hooks/useWorkersFilter.ts:29-36 | two chained `.filter` calls equal one filter by the conjunction |
| Seqs.FilterAppend | src/hooks/useWorkersFilter.ts:30-36 | filtering distributes over concatenation, so order is preserved |
| Seqs.FilterSamePredicate | src/hooks/useWorkersFilter.ts:32-35 | predicates that agree on the input's elements filter it alike |
| Seqs.FilterKeepsAll | src/hooks/useWorkersFilter.ts:30-36 | a predicate true of every element returns the input unchanged |
| Seqs.FilterKeepsNone | src/hooks/useWorkersFilter.ts:30-36 | a predicate false of every element returns the empty list |
| Seqs.FirstIndex | src/app/page.tsx:68-70 | the index of the first occurrence: it holds `x` and nothing before it does |
| Seqs.Dedup | src/hooks/useWorkersFilter.ts:24 | `[...new Set(xs)]` has no duplicates and holds exactly the elements of `xs` |
| Seqs.DedupFirstOccurrenceOrder | src/app/page.tsx:68-70 | a `Set` keeps insertion order: the distinct elements appear in order of first occurrence |
| Seqs.FilterArray | src/app/page.tsx:47-50 | `array.filter` returns a fresh array holding exactly the filter of the input's contents |
| StableSort.Insert | src/hooks/useWorkersFilter.ts:37-43 | inserting one element lengthens the list by one |
| StableSort.InsertPermutes | src/hooks/useWorkersFilter.ts:37-43 | insertion adds exactly the inserted element |
| StableSort.InsertSorted | src/hooks/useWorkersFilter.ts:37-43 | inserting into a sorted list under a consistent comparator keeps it sorted |
| StableSort.InsertEquivalents | src/hooks/useWorkersFilter.ts:37-43 | after an insertion, the elements equivalent to a key are those before it, followed by the inserted element when it is equivalent too |
| StableSort.Sort | src/hooks/useWorkersFilter.ts:37-43 | `sort` keeps the length |
| StableSort.SortPermutes | src/hooks/useWorkersFilter.ts:37-43 | `sort` returns a permutation of its input |
| StableSort.SortMember | src/hooks/useWorkersFilter.ts:37-43 | an element is in the sorted list exactly when it is in the input |
| StableSort.SortSorted | src/hooks/useWorkersFilter.ts:37-43 | under a consistent comparator, every earlier element compares `<= 0` with every later one |
| StableSort.SortStable | src/hooks/useWorkersFilter.ts:37-43 | stability: for every key, the elements equivalent to it keep their input order |
| StableSort.SortOfSorted | src/hooks/useWorkersFilter.ts:37-43 | input that is already in order comes back unchanged |
| StableSort.SortIdempotent | src/hooks/useWorkersFilter.ts:37-43 | sorting a sorted list again changes nothing |
| StableSort.InsertInPlace | src/app/page.tsx:59-63 | one in-place insertion step: the first `i+1` slots become the insertion of `a[i]` into the first `i`, and the rest is untouched |
| StableSort.SortInPlace | src/app/page.tsx:59-63 | the in-place `filtered.sort(cmp)` leaves the array holding the stable sort of its old contents |
| WorkersFilter.ComparatorConsistent | src/hooks/useWorkersFilter.ts:37-43 | both comparators (names by `localeCompare`, prices by subtraction) are consistent |
| WorkersFilter.ComparatorMeaning | src/hooks/useWorkersFilter.ts:37-43 | a comparator result `<= 0` means "in order by that key", and `0` means "same name" or "same price" |
| WorkersFilter.SortOrder | src/hooks/useWorkersFilter.ts:38-42 | `'name'` selects the name order, and every other key selects the price order |
| WorkersFilter.ScalarOrderConsistent | src/hooks/useWorkersFilter.ts:25 | the scalar-value order that stands for the default string sort order is consistent |
| WorkersFilter.SortDistinctStrings | src/hooks/useWorkersFilter.ts:24-25 | sorting distinct strings gives a strictly ascending list with the same elements |
| WorkersFilter.Services | src/hooks/useWorkersFilter.ts:23-26 | the services facet: duplicate-free, strictly ascending, and holding exactly the services offered in the raw list, invalid records included |
| WorkersFilter.UseWorkersFilter | src/hooks/useWorkersFilter.ts:46-50 | `totalCount` is the length of the raw list, whatever the criteria |
| WorkersFilter.SurvivorsAreSelected | src/hooks/useWorkersFilter.ts:29-36 | the four filter stages equal one filter by "valid, matches the search, matches the service" |
| WorkersFilter.FilteredIsPermutationOfSelected | src/hooks/useWorkersFilter.ts:28-44 | the visible workers are a permutation of the selected raw records, with multiplicities |
| WorkersFilter.VisibleIffSelected | src/hooks/useWorkersFilter.ts:28-44 | a record is visible exactly when it is in the raw list, has a positive price, has a non-null id, matches the term and matches the service |
| WorkersFilter.NoCriteriaSurvivors | src/hooks/useWorkersFilter.ts:30-36 | with an empty term and `'all'`, the survivors are exactly the valid records |
| WorkersFilter.EmptyCriteriaShowAllValid | src/hooks/useWorkersFilter.ts:28-44 | with an empty term and `'all'`, the visible workers are the valid records, permuted |
| WorkersFilter.SearchIgnoresTermCase | src/hooks/useWorkersFilter.ts:32-35 | two terms that lower-case alike give identical hook results |
| WorkersFilter.SearchIgnoresFieldCase | src/hooks/useWorkersFilter.ts:32-35 | two records whose names and services lower-case alike match every search term alike |
| WorkersFilter.AllKeepsEveryService | src/hooks/useWorkersFilter.ts:36 | `'all'` turns the service stage off |
| WorkersFilter.FilteredOrdered | src/hooks/useWorkersFilter.ts:37-43 | the visible list is ordered by name for `'name'`, and by non-decreasing price for any other key |
| WorkersFilter.FilteredStable | src/hooks/useWorkersFilter.ts:37-43 | for every key, the visible records sharing it are the selected raw records sharing it, in raw order |
| WorkersFilter.NoMatchShowsNothing | src/hooks/useWorkersFilter.ts:28-49 | a term no valid record matches leaves nothing visible, while the count keeps the raw length |
| HomePage.PageOrder | src/app/page.tsx:59-63 | `'name'` and `'price'` pick their orders, and any other key picks none |
| HomePage.UniqueServices | src/app/page.tsx:68-70 | the page's options: each offered service once, in order of first occurrence, all drawn from the raw list |
| HomePage.PageSurvivorsMember | src/app/page.tsx:46-57 | a record survives the two optional filters exactly when it is in the list and matches each criterion that is set |
| HomePage.PageVisibleIff | src/app/page.tsx:43-66 | the same for the stored `filteredWorkers`: there is no price or id check |
| HomePage.NoCriteriaShowEverything | src/app/page.tsx:43-66 | with no term and `''` selected, every raw record is shown, invalid ones included, as often as in the list |
| HomePage.PageOrdered | src/app/page.tsx:59-63 | for `'name'` and `'price'` the result is a permutation of the survivors, ordered by the key and stable; any other key leaves the survivors as they were |
| HomePage.PageAgreesWithHookOnValidData | src/app/page.tsx:43-66 | on valid records, with `''` matched to `'all'` and a known sort key, the page and the hook show the same list |
| HomePage.FilterStages | src/app/page.tsx:44-57 | the filter stages yield the survivors; with no filter active the result is the input array itself, and otherwise a fresh array |
| HomePage.SortStage | src/app/page.tsx:59-63 | the in-place sort stage leaves the array sorted by the chosen key, or untouched for an unknown key, and keeps its elements |
| HomePage.Home.constructor | src/app/page.tsx:8-12 | once a fetch stores data, both lists refer to the same array (lines 27-28), and the criteria are `''`, `''` and `'name'` |
| HomePage.Home.ApplyFilters | src/app/page.tsx:43-66 | the effect stores the page's filtered and sorted view of the old `workers`. It is never longer than `workers`, and `workers` keeps its elements. With no filter active, `filteredWorkers` becomes `workers` itself, now sorted in place; otherwise it is fresh and `workers` is untouched |
| HomePage.Home.ServiceOptions | src/app/page.tsx:68-70 | the options read from the current `workers` array: duplicate-free, holding exactly its offered services, in order of first occurrence in that array (so an in-place sort of `workers` reorders them) |
| WorkerCard.Split | src/components/WorkerCard.tsx:14 | `split(' ')` returns at least one piece, and no piece contains a space |
| WorkerCard.JoinSplit | src/components/WorkerCard.tsx:14 | joining the pieces with a space gives back the name |
| WorkerCard.SplitJoin | src/components/WorkerCard.tsx:14 | splitting a join of space-free pieces gives back those pieces |
| WorkerCard.NonEmptyPieces | src/components/WorkerCard.tsx:14 | a piece is kept exactly when it is a non-empty piece of the input |
| WorkerCard.FirstCharsOfWords | src/components/WorkerCard.tsx:14 | `map(n => n[0]).join('')` gives one character per non-empty piece, its first; an empty piece adds nothing |
| WorkerCard.InitialsOfEmpty | src/components/WorkerCard.tsx:13-15 | an empty name has empty initials |
| WorkerCard.InitialsPerWord | src/components/WorkerCard.tsx:13-15 | one initial per non-empty word, in word order, each the upper-cased first character of its word |
| WorkerCard.InitialsHaveNoSpace | src/components/WorkerCard.tsx:13-15 | the initials contain no space |
| WorkerCard.InitialsAreUpperCase | src/components/WorkerCard.tsx:13-15 | the initials are already upper case |
| WorkersFilterExamples.ValidMockWorkers | src/hooks/__tests__/useWorkersFilter.test.ts:5-11 | of the five mock records, the one priced 0 and the one with a null id are dropped |
| WorkersFilterExamples.SortsByName | src/hooks/__tests__/useWorkersFilter.test.ts:71-83 | with no criteria, sorting by name shows Alice, Bob, Charlie |
| WorkersFilterExamples.SortsByPrice | src/hooks/__tests__/useWorkersFilter.test.ts:85-97 | with no criteria, sorting by price shows prices 400, 500, 600 |
| WorkersFilterExamples.SelectsElectrician | src/hooks/__tests__/useWorkersFilter.test.ts:57-69 | selecting `'Electrician'` shows only Bob |
| WorkersFilterExamples.PlumberMatchesAnyCase | src/hooks/__tests__/useWorkersFilter.test.ts:43-55 | a record whose service is `'Plumber'` matches both the search `'plumber'` and `'PLUMBER'` |

## Left out

- Fetching (`fetchWorkers`, `refetch`, `useWorkers`), the loading and error states, and all rendering are not modelled. The raw list is an input: doing I/O is outside what the model covers.
- React hooks are not modelled. `useMemo` and `useState` become plain values, and an effect becomes a method the caller runs. React's bail-out on a `setState` with the same reference is React machinery.
- `localeCompare` and the default string `sort()` are modelled by one lexicographic order on scalar values. Locale-aware collation depends on the runtime's locale data.
- `toLowerCase` and `toUpperCase` are modelled on ASCII letters only. Full Unicode case mapping, including mappings that change length, is left out.
- Strings are sequences of Unicode scalar values, not of UTF-16 code units. Outside the Basic Multilingual Plane the model therefore differs from the source: the default `.sort()` of the services orders by code unit, `n[0]` in `getInitials` takes a lone high surrogate, and string lengths count surrogate pairs as two.
- Prices are integers, and the price comparator is exact subtraction. Fractional prices and floating-point rounding are left out.
- The record's `id` is `Option<int>`, with `None` standing for `null`. `src/types/worker.ts` declares `id: number`, but the hook's tests pass `null`, and the hook checks `id !== null`; the model follows the hook. An absent (`undefined`) id passes that check in the source and has no counterpart in the model.
- The `Array.isArray(workers)` guard on page.tsx line 69 always holds in the model, because `workers` is typed as an array.
- The page's state setters (`setSearchTerm`, `setSelectedService` and `setSortBy`) are plain field assignments and get no methods of their own. `ApplyFilters` reads whatever values the fields hold.
- `Home.constructor` models the state once a fetch has stored its data (page.tsx lines 27-28). It does not model the empty initial state before the fetch.
- WorkersFilterExamples: the test scenarios that use a search term (`'alice'`, `'plumber'`, `'charlie'`, `'nonexistent'`) and the expected services list are not restated on the literal mock data. `VisibleIffSelected`, `SearchIgnoresTermCase`, `NoMatchShowsNothing` and `Services` state those behaviours for every input. The scenario lemmas constrain only the fields that each scenario depends on.
