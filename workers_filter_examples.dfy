/**
 * The scenarios of the hook's test suite
 * (src/hooks/__tests__/useWorkersFilter.test.ts), stated about the model.
 */
module WorkersFilterExamples {

  import opened Wrappers
  import opened Workers
  import opened WorkersFilter
  import Text
  import opened Seqs
  import opened StableSort

  /**
   * The five mock records, reduced to the fields the scenario depends on:
   * three valid ones priced 500, 600 and 400, one priced 0 and one without
   * an id.
   */
  predicate MockRecords(a: Worker, b: Worker, c: Worker, d: Worker, e: Worker)
  {
    a.id.Some? && b.id.Some? && c.id.Some? && d.id.Some? && e.id.None?
    && a.pricePerDay == 500 && b.pricePerDay == 600 && c.pricePerDay == 400
    && d.pricePerDay == 0 && e.pricePerDay == 300
  }

  /** Filtering five records is filtering the first three and the last two. */
  lemma FilterThreeTwo(a: Worker, b: Worker, c: Worker, d: Worker, e: Worker, p: Worker -> bool)
    ensures Filter([a, b, c, d, e], p) == Filter([a, b, c], p) + Filter([d, e], p)
  {
    assert [a, b, c, d, e] == [a, b, c] + [d, e];
    FilterAppend([a, b, c], [d, e], p);
  }

  /** Exactly the first three records are valid. */
  lemma ValidMockWorkers(a: Worker, b: Worker, c: Worker, d: Worker, e: Worker)
    requires MockRecords(a, b, c, d, e)
    ensures Filter([a, b, c, d, e], IsValid) == [a, b, c]
  {
    FilterThreeTwo(a, b, c, d, e, IsValid);
    ValidKept(a, b, c);
    InvalidDropped(d, e);
    assert [a, b, c] + [] == [a, b, c];
  }

  lemma ValidKept(a: Worker, b: Worker, c: Worker)
    requires IsValid(a) && IsValid(b) && IsValid(c)
    ensures Filter([a, b, c], IsValid) == [a, b, c]
  {
    FilterKeepsAll([a, b, c], IsValid);
  }

  lemma InvalidDropped(d: Worker, e: Worker)
    requires !IsValid(d) && !IsValid(e)
    ensures Filter([d, e], IsValid) == []
  {
    FilterKeepsNone([d, e], IsValid);
  }

  /** The stable price sort of three records priced 500, 600 and 400. */
  lemma SortThreeByPrice(a: Worker, b: Worker, c: Worker)
    requires a.pricePerDay == 500 && b.pricePerDay == 600 && c.pricePerDay == 400
    ensures Sort([a, b, c], Comparator(ByPrice)) == [c, a, b]
  {
    var cmp := Comparator(ByPrice);
    assert [a, b, c][..2] == [a, b] && [a, b][..1] == [a] && [a][..0] == [];
    assert Sort([a, b], cmp) == [a, b];
    assert Insert([a], c, cmp) == [c, a];
  }

  /**
   * With no search and `'all'`, sorting by price shows the three valid
   * records as 400, 500, 600.
   */
  lemma SortsByPrice(a: Worker, b: Worker, c: Worker, d: Worker, e: Worker)
    requires MockRecords(a, b, c, d, e)
    ensures FilteredWorkers([a, b, c, d, e], "", "all", "price") == [c, a, b]
  {
    NoCriteriaSurvivors([a, b, c, d, e]);
    ValidMockWorkers(a, b, c, d, e);
    assert SortOrder("price") == ByPrice by {
      assert "price" != "name";
    }
    SortThreeByPrice(a, b, c);
  }
  /** The three valid mock records' names and services. */
  predicate MockNames(a: Worker, b: Worker, c: Worker)
  {
    a.name == "Alice Smith" && b.name == "Bob Johnson" && c.name == "Charlie Brown"
    && a.service == "Plumber" && b.service == "Electrician" && c.service == "Plumber"
  }

  /** The mock names are in strictly ascending scalar-value order. */
  lemma MockNamesAscend(a: Worker, b: Worker, c: Worker)
    requires MockNames(a, b, c)
    ensures Text.Compare(a.name, b.name) < 0 && Text.Compare(b.name, c.name) < 0
    ensures Text.Compare(a.name, c.name) < 0
  {
    assert a.name[0] == 'A' && b.name[0] == 'B' && c.name[0] == 'C';
  }

  lemma NamesSorted(a: Worker, b: Worker, c: Worker)
    requires MockNames(a, b, c)
    ensures Sorted([a, b, c], Comparator(ByName))
  {
    MockNamesAscend(a, b, c);
  }

  /** By default the valid records come out in name order: Alice, Bob, Charlie. */
  lemma SortsByName(a: Worker, b: Worker, c: Worker, d: Worker, e: Worker)
    requires MockRecords(a, b, c, d, e) && MockNames(a, b, c)
    ensures FilteredWorkers([a, b, c, d, e], "", "all", "name") == [a, b, c]
  {
    NoCriteriaSurvivors([a, b, c, d, e]);
    ValidMockWorkers(a, b, c, d, e);
    NamesSorted(a, b, c);
    SortOfSorted([a, b, c], Comparator(ByName));
  }

  /** Of the three valid records, only Bob is an electrician. */
  lemma ValidElectricians(a: Worker, b: Worker, c: Worker)
    requires MockNames(a, b, c)
    ensures Filter([a, b, c], ServiceIs("Electrician")) == [b]
  {
    var electrician := ServiceIs("Electrician");
    assert [a, b, c][..2] == [a, b] && [a, b][..1] == [a] && [a][..0] == [];
    assert a.service != "Electrician" && c.service != "Electrician" by {
      assert a.service[0] != 'E' && c.service[0] != 'E';
    }
    assert Filter([a], electrician) == [];
    assert Filter([a, b], electrician) == [b];
  }

  /** Selecting `'Electrician'` with an empty search keeps only Bob. */
  lemma SelectsElectrician(a: Worker, b: Worker, c: Worker, d: Worker, e: Worker)
    requires MockRecords(a, b, c, d, e) && MockNames(a, b, c)
    ensures FilteredWorkers([a, b, c, d, e], "", "Electrician", "name") == [b]
  {
    var ws := [a, b, c, d, e];
    var electrician := ServiceIs("Electrician");
    assert Survivors(ws, "", "Electrician") == Filter(Filter(ws, SelectedBy("", "all")), electrician) by {
      SurvivorsAreSelected(ws, "", "Electrician");
      forall w: Worker
        ensures SelectedBy("", "Electrician")(w) == (SelectedBy("", "all")(w) && electrician(w))
      {
      }
      FilterFilter(ws, SelectedBy("", "all"), electrician, SelectedBy("", "Electrician"));
    }
    assert Filter(ws, SelectedBy("", "all")) == [a, b, c] by {
      SurvivorsAreSelected(ws, "", "all");
      NoCriteriaSurvivors(ws);
      ValidMockWorkers(a, b, c, d, e);
    }
    ValidElectricians(a, b, c);
    assert [b][..0] == [];
  }

  /** A plumber matches the search `'plumber'` and `'PLUMBER'` alike. */
  lemma PlumberMatchesAnyCase(w: Worker)
    requires w.service == "Plumber"
    ensures MatchesSearch(w, "plumber") && MatchesSearch(w, "PLUMBER")
  {
    assert Text.ToLower("plumber") == "plumber";
    assert Text.ToLower("PLUMBER") == "plumber";
    assert Text.ToLower(w.service) == "plumber";
    assert Text.Includes("plumber", "plumber");
  }
}
