/**
 * The `useWorkersFilter` hook: from the raw worker list and the search term,
 * service selector and sort key chosen in the UI, derive the visible workers,
 * the facet of distinct services and the total count. Hook machinery
 * (`useMemo`) is dropped; each memoised value is a plain function of its inputs.
 */
module WorkersFilter {

  import opened Wrappers
  import opened Workers
  import Text
  import opened Seqs
  import opened StableSort

  /** The two orders the directory can be sorted in. */
  datatype Order = ByName | ByPrice

  /**
   * The comparators handed to `sort`: `a.name.localeCompare(b.name)` (modelled
   * by scalar-value order) and `a.pricePerDay - b.pricePerDay`.
   */
  function Comparator(o: Order): (Worker, Worker) -> int
  {
    match o
    case ByName => (a: Worker, b: Worker) => Text.Compare(a.name, b.name)
    case ByPrice => (a: Worker, b: Worker) => a.pricePerDay - b.pricePerDay
  }

  /** `a` may come before `b` in order `o`. */
  predicate InOrder(o: Order, a: Worker, b: Worker)
  {
    match o
    case ByName => Text.Compare(a.name, b.name) <= 0
    case ByPrice => a.pricePerDay <= b.pricePerDay
  }

  /** `a` and `b` have the same sort key under `o`. */
  predicate SameKey(o: Order, a: Worker, b: Worker)
  {
    match o
    case ByName => a.name == b.name
    case ByPrice => a.pricePerDay == b.pricePerDay
  }

  /** Both comparators are consistent, so `sort` is well defined on them. */
  lemma ComparatorConsistent(o: Order)
    ensures Consistent(Comparator(o))
  {
    var cmp := Comparator(o);
    if o == ByName {
      forall a: Worker, b: Worker
        ensures cmp(a, b) < 0 <==> cmp(b, a) > 0
      {
        Text.CompareAntisymmetric(a.name, b.name);
      }
      forall a: Worker, b: Worker, c: Worker | cmp(a, b) <= 0 && cmp(b, c) <= 0
        ensures cmp(a, c) <= 0
      {
        Text.CompareTransitive(a.name, b.name, c.name);
      }
    }
  }

  lemma ComparatorMeaning(o: Order, a: Worker, b: Worker)
    ensures Comparator(o)(a, b) <= 0 <==> InOrder(o, a, b)
    ensures Comparator(o)(a, b) == 0 <==> SameKey(o, a, b)
  {
    if o == ByName {
      Text.CompareZeroIffEqual(a.name, b.name);
    }
  }

  /** `sortBy === 'name'` selects the name order; any other key sorts by price. */
  function SortOrder(sortBy: string): (o: Order)
    ensures o == ByName <==> sortBy == "name"
  {
    if sortBy == "name" then ByName else ByPrice
  }

  predicate HasPositivePrice(w: Worker) { w.pricePerDay > 0 }

  predicate HasId(w: Worker) { w.id != None }

  /** A record the directory may show: a positive price and an identifier. */
  predicate IsValid(w: Worker) { HasPositivePrice(w) && HasId(w) }

  /** The lower-cased name or service contains the lower-cased term. */
  predicate MatchesSearch(w: Worker, term: string)
  {
    Text.Includes(Text.ToLower(w.name), Text.ToLower(term))
    || Text.Includes(Text.ToLower(w.service), Text.ToLower(term))
  }

  /** `'all'` selects every service; anything else must match exactly. */
  predicate MatchesService(w: Worker, selected: string)
  {
    selected == "all" || w.service == selected
  }

  /** All four conditions the hook applies to a record. */
  predicate Selected(w: Worker, term: string, selected: string)
  {
    IsValid(w) && MatchesSearch(w, term) && MatchesService(w, selected)
  }

  /** The search stage's predicate for the term `term`. */
  function SearchFor(term: string): Worker -> bool
  {
    (w: Worker) => MatchesSearch(w, term)
  }

  /** The service stage's predicate for the selector `selected`. */
  function ServiceIs(selected: string): Worker -> bool
  {
    (w: Worker) => MatchesService(w, selected)
  }

  /** The four stages as one predicate. */
  function SelectedBy(term: string, selected: string): Worker -> bool
  {
    (w: Worker) => Selected(w, term, selected)
  }

  /** The chain of four `.filter` calls, applied in the hook's order. */
  function Survivors(ws: seq<Worker>, term: string, selected: string): seq<Worker>
  {
    var priced := Filter(ws, HasPositivePrice);
    var identified := Filter(priced, HasId);
    var found := Filter(identified, SearchFor(term));
    Filter(found, ServiceIs(selected))
  }

  /** The first memoised value: the survivors, sorted by the chosen key. */
  function FilteredWorkers(ws: seq<Worker>, term: string, selected: string, sortBy: string): seq<Worker>
  {
    Sort(Survivors(ws, term, selected), Comparator(SortOrder(sortBy)))
  }

  /** Strictly ascending in scalar-value order. */
  ghost predicate StrictlyAscending(s: seq<string>)
  {
    forall i, j :: 0 <= i < j < |s| ==> Text.Compare(s[i], s[j]) < 0
  }

  /** The default order of `Array.prototype.sort` on strings is a consistent comparator. */
  lemma ScalarOrderConsistent()
    ensures Consistent(Text.Compare)
  {
    forall a: string, b: string
      ensures Text.Compare(a, b) < 0 <==> Text.Compare(b, a) > 0
    {
      Text.CompareAntisymmetric(a, b);
    }
    forall a: string, b: string, c: string | Text.Compare(a, b) <= 0 && Text.Compare(b, c) <= 0
      ensures Text.Compare(a, c) <= 0
    {
      Text.CompareTransitive(a, b, c);
    }
  }

  /**
   * Sorting a duplicate-free list of strings in scalar-value order leaves it
   * strictly ascending, with the same elements.
   */
  lemma SortDistinctStrings(d: seq<string>)
    requires NoDups(d)
    ensures NoDups(Sort(d, Text.Compare)) && StrictlyAscending(Sort(d, Text.Compare))
    ensures forall x :: x in Sort(d, Text.Compare) <==> x in d
  {
    var r := Sort(d, Text.Compare);
    SortPermutes(d, Text.Compare);
    ScalarOrderConsistent();
    SortSorted(d, Text.Compare);
    PermutationKeepsNoDups(d, r);
    SameElements(d, r);
    forall i, j | 0 <= i < j < |r|
      ensures Text.Compare(r[i], r[j]) < 0
    {
      Text.CompareZeroIffEqual(r[i], r[j]);
    }
  }

  /**
   * The second memoised value, `[...new Set(services)].sort()`: every service
   * of the raw list, invalid records included, once each and in ascending order.
   */
  function Services(ws: seq<Worker>): (r: seq<string>)
    ensures NoDups(r) && StrictlyAscending(r)
    ensures forall s :: s in r ==> Offered(ws, s)
    ensures forall i :: 0 <= i < |ws| ==> ws[i].service in r
  {
    var all := ServicesOf(ws);
    var distinct := Dedup(all);
    SortDistinctStrings(distinct);
    assert forall i :: 0 <= i < |ws| ==> all[i] in distinct;
    Sort(distinct, Text.Compare)
  }

  /** What the hook returns. */
  datatype FilterResult = FilterResult(filteredWorkers: seq<Worker>, services: seq<string>, totalCount: int)

  /** `useWorkersFilter({ workersData, searchTerm, selectedService, sortBy })` */
  function UseWorkersFilter(ws: seq<Worker>, term: string, selected: string, sortBy: string): (r: FilterResult)
    ensures r.totalCount == |ws|
  {
    FilterResult(FilteredWorkers(ws, term, selected, sortBy), Services(ws), |ws|)
  }

  /** Records with the same sort key as `k`, as a predicate value. */
  function SameKeyAs(o: Order, k: Worker): Worker -> bool
  {
    (w: Worker) => SameKey(o, w, k)
  }

  /** The four chained filters keep exactly the records passing all four tests, in input order. */
  lemma SurvivorsAreSelected(ws: seq<Worker>, term: string, selected: string)
    ensures Survivors(ws, term, selected) == Filter(ws, SelectedBy(term, selected))
  {
    var found := (w: Worker) => IsValid(w) && MatchesSearch(w, term);
    FilterFilter(ws, HasPositivePrice, HasId, IsValid);
    FilterFilter(ws, IsValid, SearchFor(term), found);
    FilterFilter(ws, found, ServiceIs(selected), SelectedBy(term, selected));
  }

  /**
   * Nothing is added, lost or duplicated: the visible list holds the selected
   * input records, each as often as in the input.
   */
  lemma FilteredIsPermutationOfSelected(ws: seq<Worker>, term: string, selected: string, sortBy: string)
    ensures multiset(UseWorkersFilter(ws, term, selected, sortBy).filteredWorkers)
         == multiset(Filter(ws, SelectedBy(term, selected)))
  {
    SurvivorsAreSelected(ws, term, selected);
    SortPermutes(Survivors(ws, term, selected), Comparator(SortOrder(sortBy)));
  }

  /**
   * A record is visible exactly when it is in the input and passes every stage:
   * positive price, an identifier, the search and the service selector.
   */
  lemma VisibleIffSelected(ws: seq<Worker>, term: string, selected: string, sortBy: string, w: Worker)
    ensures w in UseWorkersFilter(ws, term, selected, sortBy).filteredWorkers
        <==> w in ws && w.pricePerDay > 0 && w.id != None && MatchesSearch(w, term)
             && (selected == "all" || w.service == selected)
  {
    SurvivorsAreSelected(ws, term, selected);
    SortMember(Survivors(ws, term, selected), Comparator(SortOrder(sortBy)), w);
    FilterMember(ws, SelectedBy(term, selected), w);
  }

  /** With an empty term and `'all'`, every valid record is shown, and only those. */
  lemma NoCriteriaSurvivors(ws: seq<Worker>)
    ensures Survivors(ws, "", "all") == Filter(ws, IsValid)
  {
    SurvivorsAreSelected(ws, "", "all");
    forall w: Worker
      ensures SelectedBy("", "all")(w) == IsValid(w)
    {
      Text.IncludesEmpty(Text.ToLower(w.name));
    }
    FilterSamePredicate(ws, SelectedBy("", "all"), IsValid);
  }

  lemma EmptyCriteriaShowAllValid(ws: seq<Worker>, sortBy: string)
    ensures multiset(UseWorkersFilter(ws, "", "all", sortBy).filteredWorkers) == multiset(Filter(ws, IsValid))
  {
    NoCriteriaSurvivors(ws);
    SortPermutes(Filter(ws, IsValid), Comparator(SortOrder(sortBy)));
  }

  /** The search ignores case: terms that lower-case alike give the same result. */
  lemma SearchIgnoresTermCase(ws: seq<Worker>, t1: string, t2: string, selected: string, sortBy: string)
    requires Text.ToLower(t1) == Text.ToLower(t2)
    ensures UseWorkersFilter(ws, t1, selected, sortBy) == UseWorkersFilter(ws, t2, selected, sortBy)
  {
    var ids := Filter(Filter(ws, HasPositivePrice), HasId);
    FilterSamePredicate(ids, SearchFor(t1), SearchFor(t2));
  }

  /** The search ignores the case of the fields too: fields that lower-case alike match alike. */
  lemma SearchIgnoresFieldCase(w: Worker, v: Worker, term: string)
    requires Text.ToLower(w.name) == Text.ToLower(v.name)
    requires Text.ToLower(w.service) == Text.ToLower(v.service)
    ensures MatchesSearch(w, term) == MatchesSearch(v, term)
  {
  }

  /** `'all'` turns the service stage off. */
  lemma AllKeepsEveryService(ws: seq<Worker>, term: string)
    ensures Survivors(ws, term, "all") == Filter(Filter(Filter(ws, HasPositivePrice), HasId), SearchFor(term))
  {
    FilterKeepsAll(Filter(Filter(Filter(ws, HasPositivePrice), HasId), SearchFor(term)), ServiceIs("all"));
  }

  /**
   * The visible list is ordered by the chosen key: by name for `'name'`, and by
   * price, non-decreasing, for `'price'` or any other key.
   */
  lemma FilteredOrdered(ws: seq<Worker>, term: string, selected: string, sortBy: string)
    ensures var r := UseWorkersFilter(ws, term, selected, sortBy).filteredWorkers;
      forall i, j :: 0 <= i < j < |r| ==> InOrder(SortOrder(sortBy), r[i], r[j])
    ensures var r := UseWorkersFilter(ws, term, selected, sortBy).filteredWorkers;
      sortBy != "name" ==> forall i, j :: 0 <= i < j < |r| ==> r[i].pricePerDay <= r[j].pricePerDay
  {
    var o := SortOrder(sortBy);
    var r := UseWorkersFilter(ws, term, selected, sortBy).filteredWorkers;
    ComparatorConsistent(o);
    SortSorted(Survivors(ws, term, selected), Comparator(o));
    forall i, j | 0 <= i < j < |r|
      ensures InOrder(o, r[i], r[j])
    {
      ComparatorMeaning(o, r[i], r[j]);
    }
  }

  /**
   * The sort is stable: for every key `k`, the visible records with key `k`
   * are the selected input records with key `k`, in input order.
   */
  lemma FilteredStable(ws: seq<Worker>, term: string, selected: string, sortBy: string, k: Worker)
    ensures var o := SortOrder(sortBy);
      Filter(UseWorkersFilter(ws, term, selected, sortBy).filteredWorkers, SameKeyAs(o, k))
      == Filter(Filter(ws, SelectedBy(term, selected)), SameKeyAs(o, k))
  {
    var o := SortOrder(sortBy);
    var cmp := Comparator(o);
    var s := Survivors(ws, term, selected);
    ComparatorConsistent(o);
    SortStable(s, k, cmp);
    forall w: Worker
      ensures EquivalentTo(k, cmp)(w) == SameKeyAs(o, k)(w)
    {
      ComparatorMeaning(o, w, k);
    }
    FilterSamePredicate(s, EquivalentTo(k, cmp), SameKeyAs(o, k));
    FilterSamePredicate(Sort(s, cmp), EquivalentTo(k, cmp), SameKeyAs(o, k));
    SurvivorsAreSelected(ws, term, selected);
  }

  /** A term no valid record matches leaves nothing visible, yet the count is unchanged. */
  lemma NoMatchShowsNothing(ws: seq<Worker>, term: string, selected: string, sortBy: string)
    requires forall w :: w in ws && IsValid(w) ==> !MatchesSearch(w, term)
    ensures UseWorkersFilter(ws, term, selected, sortBy).filteredWorkers == []
    ensures UseWorkersFilter(ws, term, selected, sortBy).totalCount == |ws|
  {
    SurvivorsAreSelected(ws, term, selected);
    FilterKeepsNone(ws, SelectedBy(term, selected));
  }
}
