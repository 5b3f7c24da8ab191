/**
 * The directory page `Home` (src/app/page.tsx): its state fields and the
 * effect that re-derives `filteredWorkers` whenever the raw list or a
 * criterion changes. This older derivation differs from the hook: it has no
 * validity stage, `''` (not `'all'`) means "every service", an unknown sort
 * key leaves the order alone, and with no filter active it sorts the
 * `workers` state array itself, in place.
 */
module HomePage {

  import opened Wrappers
  import opened Workers
  import opened Seqs
  import opened StableSort
  import opened WorkersFilter

  /** `sortBy === 'name'` or `'price'` picks a sort; any other key sorts nothing. */
  function PageOrder(sortBy: string): (o: Option<Order>)
    ensures o == Some(ByName) <==> sortBy == "name"
    ensures o == Some(ByPrice) <==> sortBy == "price"
    ensures o == None <==> sortBy != "name" && sortBy != "price"
  {
    if sortBy == "name" then Some(ByName)
    else if sortBy == "price" then Some(ByPrice)
    else None
  }

  /** `worker => worker.service === selectedService` */
  function ServiceEquals(selected: string): Worker -> bool
  {
    (w: Worker) => w.service == selected
  }

  /** The records left after the two optional filters; an empty criterion is skipped. */
  function PageSurvivors(ws: seq<Worker>, term: string, selected: string): seq<Worker>
  {
    var searched := if term != "" then Filter(ws, SearchFor(term)) else ws;
    if selected != "" then Filter(searched, ServiceEquals(selected)) else searched
  }

  /** What the effect stores in `filteredWorkers`, as a function of the raw list. */
  function PageFiltered(ws: seq<Worker>, term: string, selected: string, sortBy: string): seq<Worker>
  {
    var survivors := PageSurvivors(ws, term, selected);
    match PageOrder(sortBy)
    case Some(o) => Sort(survivors, Comparator(o))
    case None => survivors
  }

  /**
   * `Array.from(new Set(workers.map(worker => worker.service)))`: each
   * service of the raw list once, in order of first occurrence, unsorted.
   */
  function UniqueServices(ws: seq<Worker>): (r: seq<string>)
    ensures NoDups(r)
    ensures forall s :: s in r ==> s in ServicesOf(ws) && Offered(ws, s)
    ensures forall i :: 0 <= i < |ws| ==> ws[i].service in r
    ensures forall i, j :: 0 <= i < j < |r| ==>
      FirstIndex(ServicesOf(ws), r[i]) < FirstIndex(ServicesOf(ws), r[j])
  {
    var all := ServicesOf(ws);
    DedupFirstOccurrenceOrder(all);
    assert forall i :: 0 <= i < |ws| ==> all[i] in Dedup(all);
    Dedup(all)
  }

  /**
   * A record survives the page's filters exactly when it is in the raw list
   * and matches every criterion that is set; there is no validity stage.
   */
  lemma PageVisibleIff(ws: seq<Worker>, term: string, selected: string, sortBy: string, w: Worker)
    ensures w in PageFiltered(ws, term, selected, sortBy)
        <==> w in ws && (term == "" || MatchesSearch(w, term)) && (selected == "" || w.service == selected)
  {
    PageSurvivorsMember(ws, term, selected, w);
    if o :| PageOrder(sortBy) == Some(o) {
      SortMember(PageSurvivors(ws, term, selected), Comparator(o), w);
    }
  }

  lemma PageSurvivorsMember(ws: seq<Worker>, term: string, selected: string, w: Worker)
    ensures w in PageSurvivors(ws, term, selected)
        <==> w in ws && (term == "" || MatchesSearch(w, term)) && (selected == "" || w.service == selected)
  {
    var searched := if term != "" then Filter(ws, SearchFor(term)) else ws;
    FilterMember(ws, SearchFor(term), w);
    FilterMember(searched, ServiceEquals(selected), w);
  }

  /**
   * With no search term and `''` selected, every record of the raw list is
   * shown, invalid ones included, each as often as in the list.
   */
  lemma NoCriteriaShowEverything(ws: seq<Worker>, sortBy: string)
    ensures multiset(PageFiltered(ws, "", "", sortBy)) == multiset(ws)
    ensures forall w :: w in ws ==> w in PageFiltered(ws, "", "", sortBy)
  {
    if o :| PageOrder(sortBy) == Some(o) {
      SortPermutes(ws, Comparator(o));
      SameElements(ws, Sort(ws, Comparator(o)));
    }
  }

  /**
   * For `'name'` and `'price'` the result is the survivors, permuted, ordered
   * by the key and stable; any other key leaves the survivors as they were.
   */
  lemma PageOrdered(ws: seq<Worker>, term: string, selected: string, sortBy: string)
    ensures var r, s := PageFiltered(ws, term, selected, sortBy), PageSurvivors(ws, term, selected);
      match PageOrder(sortBy)
      case Some(o) =>
        && multiset(r) == multiset(s)
        && (forall i, j :: 0 <= i < j < |r| ==> InOrder(o, r[i], r[j]))
        && (forall k :: Filter(r, SameKeyAs(o, k)) == Filter(s, SameKeyAs(o, k)))
      case None => r == s
  {
    var r, s := PageFiltered(ws, term, selected, sortBy), PageSurvivors(ws, term, selected);
    if o :| PageOrder(sortBy) == Some(o) {
      var cmp := Comparator(o);
      ComparatorConsistent(o);
      SortPermutes(s, cmp);
      SortSorted(s, cmp);
      forall i, j | 0 <= i < j < |r|
        ensures InOrder(o, r[i], r[j])
      {
        ComparatorMeaning(o, r[i], r[j]);
      }
      forall k: Worker
        ensures Filter(r, SameKeyAs(o, k)) == Filter(s, SameKeyAs(o, k))
      {
        SortStable(s, k, cmp);
        forall w: Worker
          ensures EquivalentTo(k, cmp)(w) == SameKeyAs(o, k)(w)
        {
          ComparatorMeaning(o, w, k);
        }
        FilterSamePredicate(s, EquivalentTo(k, cmp), SameKeyAs(o, k));
        FilterSamePredicate(r, EquivalentTo(k, cmp), SameKeyAs(o, k));
      }
    }
  }

  /**
   * The page and the hook agree when the raw list holds only valid records,
   * the page's `''` stands for the hook's `'all'`, and the sort key is one of
   * the two known ones.
   */
  lemma PageAgreesWithHookOnValidData(ws: seq<Worker>, term: string, pageSelected: string,
                                      hookSelected: string, sortBy: string)
    requires forall w :: w in ws ==> IsValid(w)
    requires (pageSelected == "" && hookSelected == "all")
          || (pageSelected == hookSelected && pageSelected != "" && pageSelected != "all")
    requires sortBy == "name" || sortBy == "price"
    ensures PageFiltered(ws, term, pageSelected, sortBy)
         == UseWorkersFilter(ws, term, hookSelected, sortBy).filteredWorkers
  {
    FilterKeepsAll(ws, HasPositivePrice);
    FilterKeepsAll(ws, HasId);
    var searched := Filter(ws, SearchFor(term));
    if term == "" {
      forall w: Worker
        ensures SearchFor(term)(w)
      {
        Text.IncludesEmpty(Text.ToLower(w.name));
      }
      FilterKeepsAll(ws, SearchFor(term));
    }
    if pageSelected == "" {
      FilterKeepsAll(searched, ServiceIs(hookSelected));
    } else {
      FilterSamePredicate(searched, ServiceEquals(pageSelected), ServiceIs(hookSelected));
    }
    assert PageSurvivors(ws, term, pageSelected) == Survivors(ws, term, hookSelected);
  }

  /**
   * The two optional `.filter` stages of the effect. Each stage that runs
   * yields a fresh array; when neither runs, the result is `ws` itself.
   */
  method FilterStages(ws: array<Worker>, term: string, selected: string) returns (filtered: array<Worker>)
    ensures filtered[..] == PageSurvivors(ws[..], term, selected)
    ensures term == "" && selected == "" ==> filtered == ws
    ensures term != "" || selected != "" ==> fresh(filtered)
  {
    filtered := ws;
    if term != "" {
      filtered := FilterArray(filtered, SearchFor(term));
    }
    if selected != "" {
      filtered := FilterArray(filtered, ServiceEquals(selected));
    }
  }

  /** The sort stage of the effect, in place on `filtered`. */
  method SortStage(filtered: array<Worker>, sortBy: string)
    modifies filtered
    ensures filtered[..] == match PageOrder(sortBy)
      case Some(o) => Sort(old(filtered[..]), Comparator(o))
      case None => old(filtered[..])
    ensures multiset(filtered[..]) == multiset(old(filtered[..]))
  {
    ghost var survivors := filtered[..];
    if sortBy == "name" {
      SortInPlace(filtered, Comparator(ByName));
      SortPermutes(survivors, Comparator(ByName));
    } else if sortBy == "price" {
      SortInPlace(filtered, Comparator(ByPrice));
      SortPermutes(survivors, Comparator(ByPrice));
    }
  }

  /** The page's state: the raw list, the list on display and the three criteria. */
  class Home {

    var workers: array<Worker>
    var filteredWorkers: array<Worker>
    var searchTerm: string
    var selectedService: string
    var sortBy: string

    /**
     * The state once a fetch has stored `data`: both lists refer to the same
     * array and the criteria hold their initial values.
     */
    constructor (data: array<Worker>)
      ensures workers == data && filteredWorkers == data
      ensures searchTerm == "" && selectedService == "" && sortBy == "name"
    {
      workers := data;
      filteredWorkers := data;
      searchTerm := "";
      selectedService := "";
      sortBy := "name";
    }

    /**
     * The second effect. `filtered` starts as the `workers` array itself and
     * is replaced by a fresh array only when a filter runs, so with no filter
     * active the sort reorders `workers` in place and `filteredWorkers` ends
     * up aliasing it.
     */
    method ApplyFilters()
      modifies this`filteredWorkers, workers
      ensures filteredWorkers[..] == PageFiltered(old(workers[..]), searchTerm, selectedService, sortBy)
      ensures filteredWorkers.Length <= workers.Length
      ensures multiset(workers[..]) == multiset(old(workers[..]))
      ensures searchTerm == "" && selectedService == "" ==> filteredWorkers == workers
      ensures searchTerm != "" || selectedService != "" ==>
        fresh(filteredWorkers) && workers[..] == old(workers[..])
    {
      var filtered := FilterStages(workers, searchTerm, selectedService);
      SortStage(filtered, sortBy);
      filteredWorkers := filtered;
    }

    /** The options of the service selector, computed from the current `workers` array. */
    function ServiceOptions(): (r: seq<string>)
      reads this, workers
      ensures NoDups(r)
      ensures forall s :: s in r <==> Offered(workers[..], s)
      ensures forall i :: 0 <= i < |r| ==> r[i] in ServicesOf(workers[..])
      ensures forall i, j :: 0 <= i < j < |r| ==>
        FirstIndex(ServicesOf(workers[..]), r[i]) < FirstIndex(ServicesOf(workers[..]), r[j])
    {
      UniqueServices(workers[..])
    }
  }
}
