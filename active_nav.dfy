/**
 * The active navigation link (`initActiveNavOnScroll`, assets/js/main.js).
 * On scroll the page picks the last section, in document order, whose
 * window (its box shifted up by the 100-pixel header) contains the scroll
 * offset, and marks exactly the navigation links whose `href` is `#` plus
 * that section's id.
 */
module ActiveNav {
  import opened Wrappers

  /** The header height subtracted from every section's top. */
  const HeaderOffset := 100

  /** A `section[id]` element: its `offsetTop`, `offsetHeight` and `id`. */
  datatype Section = Section(offsetTop: int, offsetHeight: int, id: string)

  /** The scroll offset lies in the section's window. */
  predicate InWindow(s: Section, scrollY: int) {
    var top := s.offsetTop - HeaderOffset;
    scrollY > top && scrollY <= top + s.offsetHeight
  }

  /** The position of the last section whose window contains `scrollY`, if any. */
  function LastInWindow(sections: seq<Section>, scrollY: int): (r: Option<nat>)
    ensures r.None? <==> forall k | 0 <= k < |sections| :: !InWindow(sections[k], scrollY)
    ensures r.Some? ==> r.value < |sections| && InWindow(sections[r.value], scrollY)
    ensures r.Some? ==> forall k | r.value < k < |sections| :: !InWindow(sections[k], scrollY)
  {
    if sections == [] then None
    else if InWindow(sections[|sections| - 1], scrollY) then Some(|sections| - 1)
    else LastInWindow(sections[..|sections| - 1], scrollY)
  }

  /** The id of the current section, or the empty string when there is none. */
  function CurrentId(sections: seq<Section>, scrollY: int): string {
    match LastInWindow(sections, scrollY)
    case None => ""
    case Some(k) => sections[k].id
  }

  /** The loop over the sections that leaves the last match in `current`. */
  method FindCurrent(sections: seq<Section>, scrollY: int) returns (current: string)
    ensures current == CurrentId(sections, scrollY)
  {
    current := "";
    for i := 0 to |sections|
      invariant current == CurrentId(sections[..i], scrollY)
    {
      assert sections[..i + 1][..i] == sections[..i];
      if InWindow(sections[i], scrollY) {
        current := sections[i].id;
      }
    }
    assert sections[..|sections|] == sections;
  }

  /**
   * A link is marked for a section only if the scroll offset lies in that
   * section's window and no later section's window; when no window
   * contains it, the current id is empty and only a bare `#` link matches.
   */
  lemma MarkedLinkNamesSectionInView(sections: seq<Section>, scrollY: int, href: string)
    requires href == "#" + CurrentId(sections, scrollY)
    ensures (forall k | 0 <= k < |sections| :: !InWindow(sections[k], scrollY)) ==> href == "#"
    ensures href != "#" ==> exists k | 0 <= k < |sections| ::
      && InWindow(sections[k], scrollY) && href == "#" + sections[k].id
      && forall m | k < m < |sections| :: !InWindow(sections[m], scrollY)
  {
    match LastInWindow(sections, scrollY)
    case None =>
    case Some(k) =>
      assert href[1..] == sections[k].id;
  }

  /** The navigation links and their `active` class. */
  class NavLinks {
    const sections: seq<Section>
    const hrefs: seq<string>
    var active: array<bool>

    ghost predicate Valid()
      reads this
    {
      active.Length == |hrefs|
    }

    /** The scroll handler is attached only when there are sections and links. */
    predicate Enabled() {
      |sections| > 0 && |hrefs| > 0
    }

    constructor (sections: seq<Section>, hrefs: seq<string>, initiallyActive: seq<bool>)
      requires |initiallyActive| == |hrefs|
      ensures Valid() && fresh(active) && this.sections == sections && this.hrefs == hrefs
      ensures active[..] == initiallyActive
    {
      this.sections := sections;
      this.hrefs := hrefs;
      active := new bool[|initiallyActive|](j requires 0 <= j < |initiallyActive| => initiallyActive[j]);
    }

    /** `highlightNavOnScroll` at scroll offset `scrollY`. */
    method Highlight(scrollY: int)
      requires Valid()
      modifies active
      ensures !Enabled() ==> active[..] == old(active[..])
      ensures Enabled() ==> forall j | 0 <= j < active.Length ::
        active[j] == (hrefs[j] == "#" + CurrentId(sections, scrollY))
    {
      if !Enabled() {
        return;
      }
      var current := FindCurrent(sections, scrollY);
      for j := 0 to active.Length
        invariant forall m | 0 <= m < j :: active[m] == (hrefs[m] == "#" + current)
      {
        active[j] := false;
        if hrefs[j] == "#" + current {
          active[j] := true;
        }
      }
    }
  }
}
