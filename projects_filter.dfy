/**
 * The projects filter (`initProjectsFilter`, assets/js/main.js): a row of
 * filter buttons, each carrying a `data-filter` value, and a list of
 * project items, each carrying a `data-category` string. A click marks the
 * clicked button alone as active, shows exactly the items the filter
 * matches and mirrors the filter into the `filter` query parameter; on load
 * a `filter` parameter that names an existing button re-applies it.
 */
module ProjectsFilter {
  import opened Wrappers

  const AllFilter := "all"
  const FilterKey := "filter"

  /** `hay.includes(needle)`: `needle` occurs in `hay` at some position. */
  predicate Includes(hay: string, needle: string) {
    exists i | 0 <= i <= |hay| :: OccursAt(hay, needle, i)
  }

  predicate OccursAt(hay: string, needle: string, i: nat) {
    i + |needle| <= |hay| && hay[i..i + |needle|] == needle
  }

  /** The visibility rule for one project item. */
  predicate IsShown(filterValue: string, category: string) {
    filterValue == AllFilter || Includes(category, filterValue)
  }

  /**
   * `"all"` shows every item, so does an empty filter value, and an item
   * whose category string is the filter value itself is shown.
   */
  lemma ShownCases(filterValue: string, category: string)
    ensures IsShown(AllFilter, category)
    ensures IsShown("", category)
    ensures IsShown(filterValue, filterValue)
  {
    assert OccursAt(category, "", 0);
    assert OccursAt(filterValue, filterValue, 0);
  }

  /**
   * The match is containment, not membership in a list of categories: the
   * filter `design` also shows an item of category `web-design`, and the
   * filter `web` does not show an item of category `design mobile`.
   */
  lemma ContainmentNotMembership()
    ensures IsShown("design", "web-design")
    ensures !IsShown("web", "design mobile")
  {
    assert OccursAt("web-design", "design", 4);
    forall i | 0 <= i <= |"design mobile"|
      ensures !OccursAt("design mobile", "web", i)
    {
      if i + 3 <= |"design mobile"| {
        assert "design mobile"[i..i + 3][0] == "design mobile"[i];
        assert "design mobile"[i..i + 3][1] == "design mobile"[i + 1];
      }
    }
  }

  /**
   * The URL update after a click: `"all"` deletes the `filter` parameter,
   * any other value sets it; every other parameter is left alone.
   */
  function UpdateQuery(query: map<string, string>, filterValue: string): (r: map<string, string>)
    ensures filterValue == AllFilter ==> FilterKey !in r
    ensures filterValue != AllFilter ==> FilterKey in r && r[FilterKey] == filterValue
    ensures forall k | k != FilterKey :: (k in r <==> k in query) && (k in r ==> r[k] == query[k])
  {
    if filterValue == AllFilter then query - {FilterKey} else query[FilterKey := filterValue]
  }

  /** The first position of `x` in `xs`, as a selector query returns the first match. */
  function FirstIndex(xs: seq<string>, x: string): (r: Option<nat>)
    ensures r.None? <==> x !in xs
    ensures r.Some? ==> r.value < |xs| && xs[r.value] == x
    ensures r.Some? ==> forall j | 0 <= j < r.value :: xs[j] != x
  {
    if xs == [] then None
    else if xs[0] == x then Some(0)
    else match FirstIndex(xs[1..], x)
      case None => None
      case Some(k) => Some(k + 1)
  }

  /**
   * The on-load check: a non-empty `filter` parameter selects the first
   * button whose `data-filter` equals it; an absent, empty or unknown value
   * selects nothing.
   */
  function InitialFilter(query: map<string, string>, filters: seq<string>): (r: Option<nat>)
    ensures r.Some? <==> FilterKey in query && query[FilterKey] != "" && query[FilterKey] in filters
    ensures r.Some? ==> r.value < |filters| && filters[r.value] == query[FilterKey]
    ensures r.Some? ==> forall j | 0 <= j < r.value :: filters[j] != query[FilterKey]
  {
    if FilterKey in query && query[FilterKey] != "" then FirstIndex(filters, query[FilterKey]) else None
  }

  /**
   * A shared link restores the selection: after clicking a button other
   * than `"all"` (with a non-empty value), loading the resulting URL selects
   * a button with the same filter value.
   */
  lemma SelectionRestorableFromUrl(query: map<string, string>, filters: seq<string>, b: nat)
    requires b < |filters| && filters[b] != AllFilter && filters[b] != ""
    ensures InitialFilter(UpdateQuery(query, filters[b]), filters).Some?
    ensures filters[InitialFilter(UpdateQuery(query, filters[b]), filters).value] == filters[b]
  {
  }

  /** After `"all"` the URL carries no filter, so a reload selects nothing. */
  lemma AllLeavesNothingToRestore(query: map<string, string>, filters: seq<string>)
    ensures InitialFilter(UpdateQuery(query, AllFilter), filters) == None
  {
  }

  /**
   * Applying a restored filter other than `"all"` writes back the very URL
   * it was read from; a restored `"all"` removes the parameter.
   */
  lemma {:induction false} RestoredClickKeepsUrl(query: map<string, string>, filters: seq<string>)
    requires InitialFilter(query, filters).Some?
    ensures var f := filters[InitialFilter(query, filters).value];
      if f == AllFilter then FilterKey !in UpdateQuery(query, f) else UpdateQuery(query, f) == query
  {
    var f := filters[InitialFilter(query, filters).value];
    if f != AllFilter {
      var r := UpdateQuery(query, f);
      assert r.Keys == query.Keys;
      assert forall k | k in r :: r[k] == query[k];
    }
  }

  /**
   * The characters of a `filter` parameter whose effect on the built
   * selector the as-written lookup covers: ASCII letters and digits, `-`,
   * `_`, space and the double quote.
   */
  predicate PlainSelectorChar(c: char) {
    || ('a' <= c <= 'z') || ('A' <= c <= 'Z') || ('0' <= c <= '9')
    || c == '-' || c == '_' || c == ' ' || c == '"'
  }

  /**
   * The on-load lookup as written: the parameter is spliced unescaped into
   * the selector `.filter-btn[data-filter="<value>"]`. Among parameters of
   * plain characters, one without a double quote finds the first button
   * whose value equals it; one with a double quote ends the CSS string
   * early and leaves a further string token inside the brackets, so the
   * selector is invalid and the lookup throws instead of finding nothing.
   */
  function SelectorLookupAsWritten(query: map<string, string>, filters: seq<string>): (r: Result<Option<nat>, string>)
    requires FilterKey in query ==> forall i | 0 <= i < |query[FilterKey]| :: PlainSelectorChar(query[FilterKey][i])
    ensures r.Failure? <==> FilterKey in query && query[FilterKey] != "" && '"' in query[FilterKey]
    ensures r.Success? ==> r.value == InitialFilter(query, filters)
  {
    if FilterKey in query && query[FilterKey] != "" then
      if '"' in query[FilterKey] then Failure("SyntaxError") else Success(FirstIndex(filters, query[FilterKey]))
    else Success(None)
  }

  /**
   * The round trip through the lookup as written: for a button value made
   * of plain characters without a double quote, other than `"all"` and not
   * empty, loading the URL written by its click selects a button with the
   * same value.
   */
  lemma SelectionRestorableAsWritten(query: map<string, string>, filters: seq<string>, b: nat)
    requires b < |filters| && filters[b] != AllFilter && filters[b] != ""
    requires forall i | 0 <= i < |filters[b]| :: PlainSelectorChar(filters[b][i]) && filters[b][i] != '"'
    ensures var r := SelectorLookupAsWritten(UpdateQuery(query, filters[b]), filters);
      r.Success? && r.value.Some? && filters[r.value.value] == filters[b]
  {
    SelectionRestorableFromUrl(query, filters, b);
  }

  /**
   * `?filter=a"b` names no button, yet as written the lookup throws, which
   * also aborts every initialisation step that follows it on page load;
   * the intended rule ignores the unknown value.
   */
  lemma QuoteInFilterParamThrows(filters: seq<string>)
    ensures SelectorLookupAsWritten(map[FilterKey := "a\"b"], filters).Failure?
    ensures "a\"b" !in filters ==> InitialFilter(map[FilterKey := "a\"b"], filters) == None
  {
    var param := "a\"b";
    assert param[1] == '"';
    assert forall i | 0 <= i < |param| :: PlainSelectorChar(param[i]);
  }

  /** The filter bar: buttons and project items with their class state and the page URL. */
  class FilterBar {
    const filters: seq<string>
    const categories: seq<string>
    var active: array<bool>
    var shown: array<bool>
    var query: map<string, string>

    ghost predicate Valid()
      reads this
    {
      active.Length == |filters| && shown.Length == |categories| && active != shown
    }

    /** The module attaches its handlers only when both lists are non-empty. */
    predicate Enabled() {
      |filters| > 0 && |categories| > 0
    }

    constructor (filters: seq<string>, categories: seq<string>,
                 initiallyActive: seq<bool>, initiallyShown: seq<bool>, query: map<string, string>)
      requires |initiallyActive| == |filters| && |initiallyShown| == |categories|
      ensures Valid() && fresh(active) && fresh(shown)
      ensures this.filters == filters && this.categories == categories
      ensures active[..] == initiallyActive && shown[..] == initiallyShown && this.query == query
    {
      this.filters := filters;
      this.categories := categories;
      this.query := query;
      active := new bool[|initiallyActive|](i requires 0 <= i < |initiallyActive| => initiallyActive[i]);
      shown := new bool[|initiallyShown|](i requires 0 <= i < |initiallyShown| => initiallyShown[i]);
    }

    /** The click handler of button `b`. */
    method Click(b: nat)
      requires Valid() && b < |filters|
      modifies active, shown, this`query
      ensures Valid()
      ensures !Enabled() ==> active[..] == old(active[..]) && shown[..] == old(shown[..]) && query == old(query)
      ensures Enabled() ==> forall i | 0 <= i < active.Length :: active[i] == (i == b)
      ensures Enabled() ==> forall k | 0 <= k < shown.Length :: shown[k] == IsShown(filters[b], categories[k])
      ensures Enabled() ==> query == UpdateQuery(old(query), filters[b])
    {
      if !Enabled() {
        return;
      }
      for i := 0 to active.Length
        invariant forall j | 0 <= j < i :: !active[j]
        invariant query == old(query)
      {
        active[i] := false;
      }
      active[b] := true;
      var filterValue := filters[b];
      for k := 0 to shown.Length
        invariant forall j | 0 <= j < active.Length :: active[j] == (j == b)
        invariant forall j | 0 <= j < k :: shown[j] == IsShown(filterValue, categories[j])
        invariant query == old(query)
      {
        shown[k] := filterValue == AllFilter || Includes(categories[k], filterValue);
      }
      query := UpdateQuery(query, filterValue);
    }

    /** The on-load check: click the button the URL names, if any. */
    method Load()
      requires Valid()
      modifies active, shown, this`query
      ensures Valid()
      ensures var sel := InitialFilter(old(query), filters);
        if Enabled() && sel.Some? then
          && (forall i | 0 <= i < active.Length :: active[i] == (i == sel.value))
          && (forall k | 0 <= k < shown.Length :: shown[k] == IsShown(filters[sel.value], categories[k]))
          && query == UpdateQuery(old(query), filters[sel.value])
        else
          active[..] == old(active[..]) && shown[..] == old(shown[..]) && query == old(query)
    {
      if !Enabled() {
        return;
      }
      var sel := InitialFilter(query, filters);
      if sel.Some? {
        Click(sel.value);
      }
    }
  }
}
