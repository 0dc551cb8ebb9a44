/**
 * The filter step: map the human-readable sort and category selections
 * through the two fixed catalogs to the site's option values, build the
 * XPath selector for each, and try each one on its own.
 */
module Filters {
  import opened Wrappers

  /** Sort label to the `value` of the `<option>` in the `s` select. */
  const SortOptions: map<string, string> := map[
    "Relevance" := "0",
    "Newest" := "3",
    "Oldest" := "2"
  ]

  /** Category label to the `value` of its filter checkbox. */
  const CategoryOptions: map<string, string> := map[
    "Stories" := "00000188-f942-d221-a78c-f9570e360000",
    "Subsections" := "00000189-9323-db0a-a7f9-9b7fb64a0000",
    "Videos" := "00000188-d597-dc35-ab8d-d7bf1ce10000"
  ]

  const SortPrefix: string := "//select[@name='s']/option[@value='"
  const CheckboxPrefix: string := "//input[@value='"
  const SelectorSuffix: string := "']"

  function SortSelector(value: string): string
  {
    SortPrefix + value + SelectorSuffix
  }

  function CheckboxSelector(value: string): string
  {
    CheckboxPrefix + value + SelectorSuffix
  }

  /** The value a selector of the form `prefix + value + "']"` names. */
  function SelectorValue(prefix: string, selector: string): Option<string>
  {
    var n := |selector|;
    if n >= |prefix| + |SelectorSuffix| && selector[..|prefix|] == prefix && selector[n - |SelectorSuffix|..] == SelectorSuffix
    then Some(selector[|prefix|..n - |SelectorSuffix|])
    else None
  }

  /** A built selector names exactly the value it was built from. */
  lemma SelectorRoundTrip(prefix: string, value: string)
    ensures SelectorValue(prefix, prefix + value + SelectorSuffix) == Some(value)
  {
    var s := prefix + value + SelectorSuffix;
    assert s[..|prefix|] == prefix;
    assert s[|s| - |SelectorSuffix|..] == SelectorSuffix;
    assert s[|prefix|..|s| - |SelectorSuffix|] == value;
  }

  /** Distinct catalog labels lead to distinct selectors, so each label clicks its own element. */
  lemma CatalogSelectorsDistinct(a: string, b: string)
    ensures a in SortOptions && b in SortOptions && a != b ==> SortSelector(SortOptions[a]) != SortSelector(SortOptions[b])
    ensures a in CategoryOptions && b in CategoryOptions && a != b ==>
      CheckboxSelector(CategoryOptions[a]) != CheckboxSelector(CategoryOptions[b])
  {
    if a in SortOptions && b in SortOptions && a != b {
      SelectorRoundTrip(SortPrefix, SortOptions[a]);
      SelectorRoundTrip(SortPrefix, SortOptions[b]);
    }
    if a in CategoryOptions && b in CategoryOptions && a != b {
      SelectorRoundTrip(CheckboxPrefix, CategoryOptions[a]);
      SelectorRoundTrip(CheckboxPrefix, CategoryOptions[b]);
    }
  }

  /** The sort selector to try: one when the label is in the catalog, none otherwise. */
  function SortSelectors(sortSelection: string): seq<string>
  {
    if sortSelection in SortOptions then [SortSelector(SortOptions[sortSelection])] else []
  }

  /** The checkbox selectors to try, one per known category, in the order given. */
  function CategorySelectors(categories: seq<string>): seq<string>
  {
    if categories == [] then []
    else
      var c := categories[0];
      (if c in CategoryOptions then [CheckboxSelector(CategoryOptions[c])] else []) + CategorySelectors(categories[1..])
  }

  /** Every selector `apply_filters` tries, in order: the sort option first, then the categories. */
  function FilterSelectors(sortSelection: string, categories: seq<string>): seq<string>
  {
    SortSelectors(sortSelection) + CategorySelectors(categories)
  }

  /** One filter tried: its selector, and whether the wait-then-click went through. */
  datatype FilterAttempt = FilterAttempt(selector: string, applied: bool)

  /**
   * `apply_filters`: each selector is waited for and clicked inside its own
   * `try`; `clickable(sel)` says whether that succeeds. A failure is logged
   * and the next filter is tried.
   */
  function ApplyFilters(sortSelection: string, categories: seq<string>, clickable: string -> bool): seq<FilterAttempt>
  {
    var sels := FilterSelectors(sortSelection, categories);
    seq(|sels|, k requires 0 <= k < |sels| => FilterAttempt(sels[k], clickable(sels[k])))
  }

  /**
   * The sort filter is tried exactly when the label is a key of the sort
   * catalog, and its selector names the catalog's value for that label.
   */
  lemma SortFilterChoice(sortSelection: string)
    ensures |SortSelectors(sortSelection)| == if sortSelection in SortOptions then 1 else 0
    ensures sortSelection in SortOptions ==>
      SelectorValue(SortPrefix, SortSelectors(sortSelection)[0]) == Some(SortOptions[sortSelection])
  {
    if sortSelection in SortOptions {
      SelectorRoundTrip(SortPrefix, SortOptions[sortSelection]);
    }
  }

  /** Categories are handled one after another, each on its own. */
  lemma {:induction false} CategorySelectorsAppend(a: seq<string>, b: seq<string>)
    ensures CategorySelectors(a + b) == CategorySelectors(a) + CategorySelectors(b)
  {
    if a == [] {
      assert a + b == b;
    } else {
      assert (a + b)[1..] == a[1..] + b;
      CategorySelectorsAppend(a[1..], b);
    }
  }

  /**
   * At most one selector per category; unknown names add none, so a list
   * of only unknown names tries no category filter; each known name adds
   * the checkbox for its catalog value.
   */
  lemma {:induction false} CategorySelectorsCount(categories: seq<string>)
    ensures |CategorySelectors(categories)| <= |categories|
    ensures (forall i :: 0 <= i < |categories| ==> categories[i] !in CategoryOptions) ==> CategorySelectors(categories) == []
    ensures forall k :: 0 <= k < |CategorySelectors(categories)| ==>
      exists i :: (0 <= i < |categories| && categories[i] in CategoryOptions &&
                   CategorySelectors(categories)[k] == CheckboxSelector(CategoryOptions[categories[i]]))
  {
    if categories != [] {
      var rest := categories[1..];
      CategorySelectorsCount(rest);
      var c := categories[0];
      var head := if c in CategoryOptions then [CheckboxSelector(CategoryOptions[c])] else [];
      var S := CategorySelectors(categories);
      assert S == head + CategorySelectors(rest);
      forall k | 0 <= k < |S|
        ensures exists i :: (0 <= i < |categories| && categories[i] in CategoryOptions &&
                             S[k] == CheckboxSelector(CategoryOptions[categories[i]]))
      {
        if k < |head| {
          assert categories[0] in CategoryOptions && S[k] == CheckboxSelector(CategoryOptions[categories[0]]);
        } else {
          var i :| 0 <= i < |rest| && rest[i] in CategoryOptions &&
            CategorySelectors(rest)[k - |head|] == CheckboxSelector(CategoryOptions[rest[i]]);
          assert categories[i + 1] == rest[i];
        }
      }
      if forall i :: 0 <= i < |categories| ==> categories[i] !in CategoryOptions {
        assert c !in CategoryOptions;
        assert forall i :: 0 <= i < |rest| ==> rest[i] !in CategoryOptions by {
          forall i | 0 <= i < |rest| ensures rest[i] !in CategoryOptions {
            assert rest[i] == categories[i + 1];
          }
        }
      }
    }
  }

  /**
   * Every filter is tried whatever happens to the others: when the click
   * outcomes differ only for the selector `failed`, the same selectors are
   * tried in the same order, and every attempt on another selector turns
   * out the same.
   */
  lemma FiltersFailIndependently(sortSelection: string, categories: seq<string>,
                                 clickable: string -> bool, clickable': string -> bool, failed: string)
    requires forall sel :: sel != failed ==> clickable(sel) == clickable'(sel)
    ensures var A, A' := ApplyFilters(sortSelection, categories, clickable), ApplyFilters(sortSelection, categories, clickable');
      && |A| == |A'| == |FilterSelectors(sortSelection, categories)|
      && (forall k :: 0 <= k < |A| ==> A[k].selector == A'[k].selector == FilterSelectors(sortSelection, categories)[k])
      && (forall k :: 0 <= k < |A| && A[k].selector != failed ==> A[k] == A'[k])
  {
  }
}
