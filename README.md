# Portfolio page behaviour: a Dafny model

This project models the decision rules in the client-side script of a static
portfolio site (`assets/js/main.js`). Five components are covered. The DOM is
abstracted away: element lists become sequences or arrays, class membership
becomes booleans, attributes become strings, and the query string becomes a
map.

- **Navigation** (`navigation.dfy`): the mobile menu's state is the menu's
  `active` class, the toggle's `aria-expanded` attribute and its icon class.
  The operations are a toggle click, `closeMobileMenu` and the window resize
  handler with its 768-pixel breakpoint.
- **ProjectsFilter** (`projects_filter.dfy`): clicking a filter button makes
  it the only active button and shows exactly the items whose
  `data-category` contains the filter value, or every item for `all`. The
  filter is mirrored into the `filter` query parameter; `all` deletes it. On
  load, a non-empty `filter` parameter that names a button re-applies that
  button.
- **FaqAccordion** (`faq_accordion.dfy`): clicking an open item closes it
  alone. Clicking a closed item closes all others and opens it. Start-up
  opens the first item.
- **FormValidation** (`form_validation.dfy`): `validateForm` rejects a
  required field that is blank after `trim`. It also rejects an email field
  whose untrimmed value does not match `^[^\s@]+@[^\s@]+\.[^\s@]+$`. The
  JavaScript whitespace set used by `trim` and `\s` is written out in full.
- **ActiveNav** (`active_nav.dfy`): on scroll, the current section is the
  last section whose window contains the scroll offset. The window is the
  section's box moved up 100 pixels. Exactly the links whose `href` is `#`
  plus that section's id are marked active.

The handlers that change state in place are classes over arrays:
`FilterBar`, `Accordion`, `NavLinks` and `NavMenu`. Their methods are
specified by pure functions (`Clicked`, `UpdateQuery`, `IsShown`,
`CurrentId`, `Toggled`, `Closed`, `Resized`). The lemmas state the source's
promises about those functions.

Points where a natural reading of the page and the code differ; the model
follows the code:

- **FAQ accordion.** One might expect exactly one FAQ item to stay open
  after any sequence of clicks. In the code, clicking the open item closes
  it and leaves none open. So the proved invariant is "at most one open".
  "Exactly one" is proved only right after start-up, and only when the
  markup opens no item but the first.
- **Resize handler.** It closes the menu only when the menu has the `active`
  class. `closeMobileMenu` resets the state unconditionally. The two agree
  on consistent states (`Navigation.WideResizeCloses`).
- **Active-nav and typewriter modules.** `initActiveNavOnScroll` is never
  called by the page's `DOMContentLoaded` handler (assets/js/main.js:11-23),
  and neither is the typewriter. The active-link rule is modelled as written
  all the same.

## Model

| member | source | states |
|---|---|---|
| `Navigation.Toggled` | assets/js/main.js:41-51 | the toggle flips the menu's class, sets `aria-expanded` to the negation of whether it read `"true"`, and sets the icon from that reading |
| `Navigation.Closed` | assets/js/main.js:69-76 | closing gives an inactive menu, `"false"` and the bars icon |
| `Navigation.Resized` | assets/js/main.js:457-471 | above 768 pixels an active menu is closed; otherwise nothing changes |
| `Navigation.ToggleFlipsTogether` | assets/js/main.js:39-52 | from a consistent state a toggle flips the menu and `aria-expanded` together, shows the times icon when opening and bars when closing; two toggles restore the state |
| `Navigation.CloseForcesClosed` | assets/js/main.js:69-76 | closing yields inactive, `"false"`, bars icon from any state, and is idempotent |
| `Navigation.NarrowResizeChangesNothing` | assets/js/main.js:456-473 | a resize to a width of at most 768 changes nothing |
| `Navigation.WideResizeCloses` | assets/js/main.js:456-473 | from a consistent state a resize above 768 equals closing, and repeating it changes nothing |
| `Navigation.OpenThenWideResize` | assets/js/main.js:457-471 | opening the closed menu and then resizing above the breakpoint restores the closed state |
| `Navigation.NavMenu.ToggleClick` | assets/js/main.js:39-52 | the toggle handler's new state is `Toggled` of the old one |
| `Navigation.NavMenu.CloseMobileMenu` | assets/js/main.js:69-76 | the new state is `Closed` of the old one |
| `Navigation.NavMenu.Resize` | assets/js/main.js:456-473 | the new state is `Resized` of the old one at the given width |
| `ProjectsFilter.IsShown` | assets/js/main.js:108 | an item is shown iff the filter is `all` or occurs in its category string |
| `ProjectsFilter.ShownCases` | assets/js/main.js:108 | `all` shows every item, an empty filter value shows every item, and a category equal to the filter is shown |
| `ProjectsFilter.ContainmentNotMembership` | assets/js/main.js:106-108 | matching is substring containment: `design` shows `web-design`, and `web` does not show `design mobile` |
| `ProjectsFilter.UpdateQuery` | assets/js/main.js:124-130 | `all` removes the `filter` parameter, any other value sets it, replacing a previous one; every other parameter is unchanged |
| `ProjectsFilter.FirstIndex` | assets/js/main.js:138 | the result is absent iff the value names no button, and otherwise is the first button with that value |
| `ProjectsFilter.InitialFilter` | assets/js/main.js:134-144 | a button is selected on load iff the `filter` parameter is present, non-empty and equal to some button's value; then it is the first such button |
| `ProjectsFilter.SelectionRestorableFromUrl` | assets/js/main.js:124-144 | after clicking a button other than `all` with a non-empty value, loading the resulting URL selects a button with the same value |
| `ProjectsFilter.AllLeavesNothingToRestore` | assets/js/main.js:125-137 | after clicking `all`, loading the resulting URL selects nothing |
| `ProjectsFilter.RestoredClickKeepsUrl` | assets/js/main.js:124-142 | the click triggered on load writes back the same URL, except that a restored `all` removes the parameter |
| `ProjectsFilter.SelectionRestorableAsWritten` | assets/js/main.js:124-139 | for a button value of plain characters without a double quote, other than `all` and non-empty, the lookup as written on the URL its click writes selects a button with the same value |
| `ProjectsFilter.SelectorLookupAsWritten` | assets/js/main.js:134-139 | for parameters of plain characters, the lookup throws iff the non-empty parameter holds a double quote, and otherwise agrees with `InitialFilter` |
| `ProjectsFilter.QuoteInFilterParamThrows` | assets/js/main.js:138 | `?filter=a"b` names no button, yet the lookup as written throws where the intended rule selects nothing |
| `ProjectsFilter.FilterBar.Click` | assets/js/main.js:94-131 | exactly the clicked button is active, an item is shown iff `IsShown(filter, category)`, and the URL becomes `UpdateQuery` of the old one; with no buttons or no items nothing changes |
| `ProjectsFilter.FilterBar.Load` | assets/js/main.js:134-144 | the button chosen by `InitialFilter` is clicked; with none chosen, or the module disabled, nothing changes |
| `FaqAccordion.Clicked` | assets/js/main.js:158-176 | an open item is closed alone; a closed item is opened and every other item closed |
| `FaqAccordion.OpenedFirst` | assets/js/main.js:179-182 | start-up sets the first item's flag and keeps the others |
| `FaqAccordion.ClickClosedOpensOnlyIt` | assets/js/main.js:166-174 | clicking a closed item leaves it open and every other item closed |
| `FaqAccordion.ClickOpenClosesOnlyIt` | assets/js/main.js:160-164 | clicking an open item closes it and changes nothing else; from at most one open, all end closed |
| `FaqAccordion.ClickKeepsAtMostOneOpen` | assets/js/main.js:158-176 | every click preserves "at most one item open" |
| `FaqAccordion.ClicksKeepAtMostOneOpen` | assets/js/main.js:153-177 | any sequence of clicks, including clicks on items without a question, preserves "at most one item open" |
| `FaqAccordion.StartUpThenClicks` | assets/js/main.js:179-182 | when the markup opens no item but the first, start-up leaves exactly the first item open, and any clicks after it keep at most one open |
| `FaqAccordion.Accordion.constructor` | assets/js/main.js:179-182 | start-up sets the first item's flag and keeps the markup's other flags |
| `FaqAccordion.Accordion.Click` | assets/js/main.js:153-176 | the new flags are `Clicked` of the old ones for an item with a question, unchanged otherwise; "at most one open" is preserved |
| `FormValidation.Trim` | assets/js/main.js:261 | the trimmed value is a slice of the value with only whitespace before and after it, neither starts nor ends with whitespace, and is empty iff the value is all whitespace |
| `FormValidation.MatchesEmailPattern` | assets/js/main.js:268 | the language of the anchored pattern: an `@` and a later `.` split the value into three non-empty runs of `[^\s@]` |
| `FormValidation.FieldProblem` | assets/js/main.js:260-273 | a blank trimmed value is reported missing; otherwise an email field failing the pattern on its untrimmed value is reported badly formatted |
| `FormValidation.EmailPatternIff` | assets/js/main.js:268-269 | the pattern accepts exactly the strings with no whitespace, exactly one `@` after at least one character, and a `.` after the `@` with a character on each side |
| `FormValidation.FieldProblemIff` | assets/js/main.js:260-273 | a field is reported missing iff its value is all whitespace; it is reported badly formatted iff it is an email field, not blank, and not of the email shape |
| `FormValidation.ValidateForm` | assets/js/main.js:248-277 | the result is false iff some required field is blank, or is a non-blank email field not of the email shape |
| `FormValidation.AcceptsUserAtExampleCom` | assets/js/main.js:268 | `user@example.com` matches the pattern |
| `FormValidation.RejectsMissingDomainParts` | assets/js/main.js:268 | `a@b` and `a@.b` do not match |
| `FormValidation.NoBreakSpaceRejected` | assets/js/main.js:267-269 | a matching address with a leading no-break space is reported badly formatted, because the pattern is tested on the untrimmed value |
| `ActiveNav.InWindow` | assets/js/main.js:589-597 | a section's window runs from 100 pixels above its top, exclusive, to that point plus its height, inclusive |
| `ActiveNav.CurrentId` | assets/js/main.js:589-597 | the id of the last section whose window contains the offset, or `""` |
| `ActiveNav.LastInWindow` | assets/js/main.js:589-597 | the result is absent iff no section's window contains the offset; otherwise that section's window contains it and no later one does |
| `ActiveNav.FindCurrent` | assets/js/main.js:586-597 | the loop over the sections leaves the id of the last section in view, or `""` |
| `ActiveNav.MarkedLinkNamesSectionInView` | assets/js/main.js:599-605 | a marked link other than `#` names a section in view with no later section in view; with no section in view, only a bare `#` link is marked |
| `ActiveNav.NavLinks.Highlight` | assets/js/main.js:583-606 | a link is active iff its `href` is `#` plus the current id; with no sections or no links nothing changes |

## Left out

- Timed staging is not modelled. This covers the filter's opacity and display
  transitions (assets/js/main.js:110-119), back-to-top, the skill-bar reset,
  the typewriter, and `debounce`/`throttle`.
- `ProjectsFilter.FilterBar.Click`: the `shown` flag is an item's state after
  the click's timers have run, with no other click within 300 ms. When two
  clicks overlap, a hide timer of the first click can fire after the second
  click has shown the item, and the item ends hidden; that race is not
  modelled.
- `ProjectsFilter.FilterBar.Load` clicks the restored button at once. The
  page clicks it 100 ms later.
- `ProjectsFilter.FilterBar.Load` applies the corrected on-load rule
  `InitialFilter` from "## Findings". For a `filter` parameter holding a
  double quote, the page as written throws instead and skips the modules
  set up after the filter.
- `ProjectsFilter.SelectionRestorableFromUrl` is proved for the corrected
  rule. As written, a button value holding a double quote is not restored
  on reload, because the lookup throws.
  `ProjectsFilter.SelectionRestorableAsWritten` states the round trip for
  the code as written, for plain values without a double quote.
- The scroll-reveal animation and the navbar `scrolled` effect are not
  modelled. They depend on floating-point layout geometry.
- Error-message elements, border colours and focus are not modelled, nor
  are the success modal, `FormData` and `form.reset()`. They are display
  side effects only.
- Hover effects, image lazy-loading and placeholders, the current-year stamp
  and smooth scrolling are not modelled. The same goes for service-worker
  registration, the global error logger, `readystatechange` and the
  `window.Portfolio` export: they are browser calls with no decision logic.
- Event wiring is not modelled. Deciding whether a click falls outside the
  menu needs a DOM tree, which the model does not have.
  `Navigation.NavMenu.CloseMobileMenu` models what such a click does.
- `Navigation.NavMenu.Resize` assumes the toggle button exists. If it is
  missing, the handler clears only the menu's class; that case is not
  modelled.
- `ProjectsFilter.FilterBar.Click` assumes every button has `data-filter`
  and every item has `data-category`. With a missing attribute the page
  matches against `null` or throws; those cases are not modelled.
- `ProjectsFilter.UpdateQuery` models the query string as a map. Repeated
  keys, parameter order and percent-encoding are not modelled.
- `ProjectsFilter.SelectorLookupAsWritten` covers only parameters made of
  ASCII letters, digits, `-`, `_`, space and `"`. Backslash escapes, `]`,
  comments and other punctuation can change how the built selector parses,
  and are not modelled.
- `FormValidation.Field`'s value is the value after the browser's
  sanitization. For an email input, the browser removes leading and
  trailing ASCII whitespace and all line breaks before the script reads
  it. That sanitization is not modelled.
- `ActiveNav.NavLinks.Highlight` takes the scroll offset as an integer. The
  browser's `pageYOffset` may be fractional.

## Findings

| source | as written | input that shows it | evidently intended | confidence | as-written member | corrected member |
|---|---|---|---|---|---|---|
| assets/js/main.js:138 | the `filter` parameter is spliced unescaped into the selector `.filter-btn[data-filter="…"]`; a double quote makes the selector invalid, so `querySelector` throws, and the throw escapes the page-load handler before the FAQ, form and later modules are set up | the URL `?filter=a"b` | an unknown filter value is ignored, as for any other value that names no button | high, not executed | `ProjectsFilter.QuoteInFilterParamThrows` | `ProjectsFilter.InitialFilter` |
