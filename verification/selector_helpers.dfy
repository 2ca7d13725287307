/**
 * Business logic of the store selector screen: searching the store directory
 * by name and narrowing it to one category. Both operations are filters that
 * keep the directory's order.
 */
module SelectorHelpers {
  import opened Wrappers
  import opened SeqFilter
  import opened JsString

  /** One entry of the store directory, as read from the directory JSON. */
  datatype Store = Store(nombre: string, categoria: string)

  /** JavaScript falsiness of an optional string argument: absent or "". */
  predicate IsFalsy(arg: Option<string>)
  {
    arg.None? || arg.value == []
  }

  /** The search term as the filter compares it: lower-cased, then trimmed. */
  function NormalizeTerm(searchTerm: string): string
  {
    Trim(ToLowerCase(searchTerm))
  }

  /** The lower-cased store name contains `term`. */
  predicate NameContains(store: Store, term: string)
  {
    Includes(ToLowerCase(store.nombre), term)
  }

  function NameMatcher(term: string): Store -> bool
  {
    (store: Store) => NameContains(store, term)
  }

  /** `filterStore`: the stores whose name contains the search term, ignoring
      case and surrounding white space; an absent or empty term keeps every
      store. */
  function FilterStore(stores: seq<Store>, searchTerm: Option<string>): (r: seq<Store>)
    ensures IsFalsy(searchTerm) ==> r == stores
    ensures IsSubsequence(r, stores)
    ensures searchTerm.Some? ==>
      forall i :: 0 <= i < |r| ==> NameContains(r[i], NormalizeTerm(searchTerm.value))
    ensures searchTerm.Some? ==>
      forall i :: 0 <= i < |stores| && NameContains(stores[i], NormalizeTerm(searchTerm.value)) ==> stores[i] in r
  {
    if IsFalsy(searchTerm) then
      AllStoresMatchEmpty(stores);
      IsSubsequenceRefl(stores);
      stores
    else
      var p := NameMatcher(NormalizeTerm(searchTerm.value));
      FilterIsSubsequence(stores, p);
      forall i | 0 <= i < |stores| && p(stores[i]) ensures stores[i] in Filter(stores, p) {
        FilterMembership(stores, p, stores[i]);
      }
      Filter(stores, p)
  }

  lemma {:induction false} IsSubsequenceRefl(s: seq<Store>)
    ensures IsSubsequence(s, s)
    decreases |s|
  {
    if |s| > 0 {
      IsSubsequenceRefl(s[1..]);
    }
  }

  /** Every store name contains the empty term. */
  lemma AllStoresMatchEmpty(stores: seq<Store>)
    ensures forall i :: 0 <= i < |stores| ==> NameContains(stores[i], [])
  {
    forall i | 0 <= i < |stores| ensures NameContains(stores[i], []) {
      IncludesEmpty(ToLowerCase(stores[i].nombre));
    }
  }

  /** Normalising the term twice is normalising it once. */
  lemma NormalizeTermIdempotent(t: string)
    ensures NormalizeTerm(NormalizeTerm(t)) == NormalizeTerm(t)
  {
    var l := ToLowerCase(t);
    ToLowerCaseTrim(l);
    ToLowerCaseIdempotent(t);
    TrimIdempotent(l);
  }

  /** The count form of soundness and completeness: a matching store occurs
      in the result exactly as often as in the directory, any other store not
      at all. */
  lemma FilterStoreMultiplicity(stores: seq<Store>, searchTerm: string, store: Store)
    ensures multiset(FilterStore(stores, Some(searchTerm)))[store]
         == if NameContains(store, NormalizeTerm(searchTerm)) then multiset(stores)[store] else 0
  {
    if searchTerm == [] {
      assert NormalizeTerm(searchTerm) == [];
      IncludesEmpty(ToLowerCase(store.nombre));
    } else {
      FilterMultiplicity(stores, NameMatcher(NormalizeTerm(searchTerm)), store);
    }
  }

  /** A term that is white space only (but not empty) trims to "" and so
      keeps every store. */
  lemma FilterStoreWhiteSpaceTerm(stores: seq<Store>, searchTerm: string)
    requires AllWhiteSpace(searchTerm)
    ensures FilterStore(stores, Some(searchTerm)) == stores
  {
    if searchTerm != [] {
      ToLowerCaseWhiteSpace(searchTerm);
      assert NormalizeTerm(searchTerm) == [];
      AllStoresMatchEmpty(stores);
      FilterAllAccepted(stores, NameMatcher([]));
    }
  }

  /** Only the normalised term matters: searching for `t` is searching for
      `Trim(ToLowerCase(t))`. */
  lemma FilterStoreNormalized(stores: seq<Store>, searchTerm: string)
    ensures FilterStore(stores, Some(searchTerm)) == FilterStore(stores, Some(NormalizeTerm(searchTerm)))
  {
    var n := NormalizeTerm(searchTerm);
    NormalizeTermIdempotent(searchTerm);
    if searchTerm != [] && n == [] {
      AllStoresMatchEmpty(stores);
      FilterAllAccepted(stores, NameMatcher([]));
    } else if searchTerm == [] {
      assert ToLowerCase(searchTerm) == [];
    }
  }

  /** Terms that differ only in letter case give the same result. */
  lemma FilterStoreCaseInsensitive(stores: seq<Store>, t1: string, t2: string)
    requires ToLowerCase(t1) == ToLowerCase(t2)
    ensures FilterStore(stores, Some(t1)) == FilterStore(stores, Some(t2))
  {
    FilterStoreNormalized(stores, t1);
    FilterStoreNormalized(stores, t2);
  }

  /** White space around the term is irrelevant. */
  lemma FilterStorePadded(stores: seq<Store>, w1: string, searchTerm: string, w2: string)
    requires AllWhiteSpace(w1) && AllWhiteSpace(w2)
    ensures FilterStore(stores, Some(w1 + searchTerm + w2)) == FilterStore(stores, Some(searchTerm))
  {
    var padded := w1 + searchTerm + w2;
    ToLowerCaseAppend(w1 + searchTerm, w2);
    ToLowerCaseAppend(w1, searchTerm);
    ToLowerCaseWhiteSpace(w1);
    ToLowerCaseWhiteSpace(w2);
    TrimPadded(w1, ToLowerCase(searchTerm), w2);
    assert NormalizeTerm(padded) == NormalizeTerm(searchTerm);
    FilterStoreNormalized(stores, padded);
    FilterStoreNormalized(stores, searchTerm);
  }

  /** Searching the search result again with the same term changes nothing. */
  lemma FilterStoreIdempotent(stores: seq<Store>, searchTerm: Option<string>)
    ensures FilterStore(FilterStore(stores, searchTerm), searchTerm) == FilterStore(stores, searchTerm)
  {
    if !IsFalsy(searchTerm) {
      FilterIdempotent(stores, NameMatcher(NormalizeTerm(searchTerm.value)));
    }
  }

  /** An absent or empty category, or the catch-all "Todas", selects every store. */
  predicate IsAllCategories(category: Option<string>)
  {
    IsFalsy(category) || category.value == "Todas"
  }

  function CategoryMatcher(category: string): Store -> bool
  {
    (store: Store) => store.categoria == category
  }

  /** `getStoresByCategory`: the stores of exactly the given category, in
      directory order; "Todas", "" or no category keeps every store. */
  function GetStoresByCategory(stores: seq<Store>, category: Option<string>): (r: seq<Store>)
    ensures IsAllCategories(category) ==> r == stores
    ensures !IsAllCategories(category) ==> IsSubsequence(r, stores)
    ensures !IsAllCategories(category) ==>
      forall i :: 0 <= i < |r| ==> r[i].categoria == category.value
    ensures !IsAllCategories(category) ==>
      forall i :: 0 <= i < |stores| && stores[i].categoria == category.value ==> stores[i] in r
  {
    if IsAllCategories(category) then stores
    else
      var p := CategoryMatcher(category.value);
      FilterIsSubsequence(stores, p);
      forall i | 0 <= i < |stores| && p(stores[i]) ensures stores[i] in Filter(stores, p) {
        FilterMembership(stores, p, stores[i]);
      }
      Filter(stores, p)
  }

  /** The count form: each store of the category keeps its multiplicity. */
  lemma GetStoresByCategoryMultiplicity(stores: seq<Store>, category: string, store: Store)
    requires !IsAllCategories(Some(category))
    ensures multiset(GetStoresByCategory(stores, Some(category)))[store]
         == if store.categoria == category then multiset(stores)[store] else 0
  {
    FilterMultiplicity(stores, CategoryMatcher(category), store);
  }

  /** Selecting a category twice is selecting it once. */
  lemma GetStoresByCategoryIdempotent(stores: seq<Store>, category: Option<string>)
    ensures GetStoresByCategory(GetStoresByCategory(stores, category), category)
         == GetStoresByCategory(stores, category)
  {
    if !IsAllCategories(category) {
      FilterIdempotent(stores, CategoryMatcher(category.value));
    }
  }
}
