/** The list page (src/pages/ListView.tsx): the search term, sort field
    and sort order the user picks, the searched-then-sorted list they
    determine, the sort selector's option values and the empty-result
    notice. */
module ListView {

  import opened Wrappers
  import opened JsString
  import opened Seqs
  import opened PokemonTypes
  import opened UsePokemon
  import opened GalleryView

  // ---------------------------------------------------------------------
  // The sort selector

  /** The option values of the sort selector, in the order shown. */
  const SortOptionValues: seq<string> := ["name", "id", "height", "weight", "base_experience"]

  /** The option value that stands for a sort field. */
  function SortFieldValue(field: SortField): string
  {
    match field
    case Name => "name"
    case Id => "id"
    case Height => "height"
    case Weight => "weight"
    case BaseExperience => "base_experience"
  }

  /** `e.target.value as SortField`: the field an option value names, if any. */
  function SortFieldFromValue(value: string): Option<SortField>
  {
    if value == "name" then Some(Name)
    else if value == "id" then Some(Id)
    else if value == "height" then Some(Height)
    else if value == "weight" then Some(Weight)
    else if value == "base_experience" then Some(BaseExperience)
    else None
  }

  /** Every field has an option, its value reads back as that field, and
      the values that read as a field are exactly the option values. */
  lemma SortFieldValueRoundTrip(field: SortField, value: string)
    ensures SortFieldFromValue(SortFieldValue(field)) == Some(field)
    ensures SortFieldValue(field) in SortOptionValues
    ensures SortFieldFromValue(value).Some? <==> value in SortOptionValues
    ensures SortFieldFromValue(value).Some? ==> SortFieldValue(SortFieldFromValue(value).value) == value
  {
  }

  // ---------------------------------------------------------------------
  // filteredAndSortedPokemon

  /** The list shown: the loaded list searched by the term, then sorted by
      the field in the order. It holds each item the search keeps, as many
      times as the list does, in the chosen order. */
  function FilteredAndSorted(list: seq<Pokemon>, term: string, field: SortField, order: SortOrder): (r: seq<Pokemon>)
    ensures SortedBy(r, field, order)
    ensures |r| <= |list|
    ensures forall p :: multiset(r)[p] == if IsBlank(term) || Matches(p, term) then multiset(list)[p] else 0
  {
    var searched := SearchPokemon(list, term);
    if IsBlank(term) then SortPokemon(searched, field, order)
    else
      SubsequenceShape(searched, list);
      SortPokemon(searched, field, order)
  }

  /** Changing the sort field or order never changes which items are shown
      or how many. */
  lemma SortChoiceKeepsItems(list: seq<Pokemon>, term: string, f1: SortField, o1: SortOrder, f2: SortField, o2: SortOrder)
    ensures multiset(FilteredAndSorted(list, term, f1, o1)) == multiset(FilteredAndSorted(list, term, f2, o2))
    ensures |FilteredAndSorted(list, term, f1, o1)| == |FilteredAndSorted(list, term, f2, o2)|
  {
    var a, b := FilteredAndSorted(list, term, f1, o1), FilteredAndSorted(list, term, f2, o2);
    assert forall p :: multiset(a)[p] == multiset(b)[p];
    assert |multiset(a)| == |multiset(b)|;
  }

  /** The count line reads back as the number of items the search keeps,
      whichever sort field and order are chosen. */
  lemma ShownCountLabel(list: seq<Pokemon>, term: string, field: SortField, order: SortOrder)
    ensures StartsWith(CountLabel(|FilteredAndSorted(list, term, field, order)|), CountPrefix)
    ensures ParseInt(CountLabel(|FilteredAndSorted(list, term, field, order)|)[|CountPrefix|..]) == Int(|SearchPokemon(list, term)|)
  {
    var n := |FilteredAndSorted(list, term, field, order)|;
    ResultsLabelCount(n, []);
    assert ResultsLabel(n, []) == CountLabel(n);
  }

  /** The empty-result notice: nothing shown while the term is non-empty. */
  predicate ShowsNoResults(shown: seq<Pokemon>, term: string)
  {
    |shown| == 0 && term != ""
  }

  /** The notice appears exactly when the term is non-empty and either it
      is whitespace only and the list is empty, or it matches no item. */
  lemma NoResultsIff(list: seq<Pokemon>, term: string, field: SortField, order: SortOrder)
    ensures ShowsNoResults(FilteredAndSorted(list, term, field, order), term) <==>
              (term != "" && if IsBlank(term) then list == [] else forall p :: p in list ==> !Matches(p, term))
  {
    var r := FilteredAndSorted(list, term, field, order);
    if r == [] {
      if IsBlank(term) {
        assert multiset(list) == multiset(r);
      } else {
        forall p | p in list ensures !Matches(p, term) {
          assert multiset(list)[p] > 0;
          assert multiset(r)[p] == 0;
        }
      }
    } else {
      assert multiset(r)[r[0]] > 0;
      assert multiset(list)[r[0]] > 0;
      assert r[0] in list;
    }
  }

  // ---------------------------------------------------------------------
  // The page state

  /** The list page's own state: the search term and the sort choice. */
  class ListPage {
    var searchTerm: string
    var sortField: SortField
    var sortOrder: SortOrder

    /** The page opens with an empty search, sorted by ascending identifier. */
    constructor ()
      ensures searchTerm == "" && sortField == Id && sortOrder == Asc
    {
      searchTerm := "";
      sortField := Id;
      sortOrder := Asc;
    }

    /** The search box's change handler. */
    method SetSearchTerm(term: string)
      modifies this
      ensures searchTerm == term && sortField == old(sortField) && sortOrder == old(sortOrder)
    {
      searchTerm := term;
    }

    /** handleSortFieldChange: the selector only emits its option values. */
    method HandleSortFieldChange(value: string)
      requires value in SortOptionValues
      modifies this
      ensures SortFieldValue(sortField) == value
      ensures searchTerm == old(searchTerm) && sortOrder == old(sortOrder)
    {
      SortFieldValueRoundTrip(Id, value);
      sortField := SortFieldFromValue(value).value;
    }

    /** handleSortOrderChange. */
    method HandleSortOrderChange(order: SortOrder)
      modifies this
      ensures sortOrder == order && searchTerm == old(searchTerm) && sortField == old(sortField)
    {
      sortOrder := order;
    }

    /** The list the page shows for the loaded list: the search result
      reordered, which is the whole list while the search is blank, in the
      chosen order. */
    function Shown(list: seq<Pokemon>): (r: seq<Pokemon>)
      reads this
      ensures SortedBy(r, sortField, sortOrder)
      ensures IsBlank(searchTerm) ==> multiset(r) == multiset(list)
      ensures !IsBlank(searchTerm) ==> forall p :: p in r <==> p in list && Matches(p, searchTerm)
      ensures !IsBlank(searchTerm) ==> multiset(r) == multiset(SearchPokemon(list, searchTerm))
      ensures forall p :: multiset(r)[p] == if IsBlank(searchTerm) || Matches(p, searchTerm) then multiset(list)[p] else 0
    {
      var r := FilteredAndSorted(list, searchTerm, sortField, sortOrder);
      assert forall p :: p in r <==> multiset(r)[p] > 0;
      assert forall p :: p in list <==> multiset(list)[p] > 0;
      r
    }
  }
}
