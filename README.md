# Navigation and status logic of the game-server landing site

The site's one script, `script.js`, wires DOM events. Inside it are a few decision rules, and this project models them in Dafny and proves what they do:

- **Nav-link matching** (`setActiveNavLink`). Every `.nav-menu a` link loses its `active` class. A link gets it back when its href equals the key. A non-empty key without a dot is a section id: the link also matches when its href is `#key` or ends with `#key`. A key with a dot is a page name: the link also matches when its href contains it. This is modelled as a method that rewrites an array of `(href, active)` records. A pure function over sequences specifies it.
- **Page classification** (`updateActiveNav`). The page name is the last `/`-segment of the path, or `index.html`. The hash loses its first `#`. A fixed order of tests then picks the rules page, the staff page or the index page, or falls through to tracking sections. A small controller class holds the menu and whether the section observer exists yet.
- **Most-visible section** (the section observer's callback). This is an argmax loop with a strict `>`, followed by a `> 0.1` gate before the link is marked.
- **Player count** (`updatePlayerCount`). A poll's outcome becomes the text `current/max` or `N/A`. The JavaScript `||` fallbacks count 0 and absent fields as missing. The defaults are 0 and 128.
- **Navbar shadow** (the scroll listener). The shadow depends on the scroll offset alone.

Modules: `Wrappers` (Option), `Text` (the JavaScript string operations used: `includes`, `endsWith`, `split`, one-character `replace`), `Decimal` (how an integer renders in a template literal, and its parser), `NavLinks`, `Navigation`, `PlayerCount`, `Navbar`.

Two facts about the script that the proofs bring out:
- One call can mark several links, because the loop never stops at the first match (`NavLinks.SeveralLinksActive`).
- The page name is never empty (`Navigation.PageNameSpec`), so the `currentPage === ''` test at script.js:201 can never succeed.

## Model

| member | source | states |
|---|---|---|
| Text.ContainsIff | script.js:178 | `includes` holds exactly when the searched string occurs at some position |
| Text.RemoveFirstAbsent | script.js:187 | `replace('#', '')` leaves a string without `#` unchanged |
| Text.RemoveFirstAt | script.js:187 | `replace('#', '')` cuts out exactly the leftmost `#` and nothing else |
| Text.JoinSplit | script.js:188 | joining the pieces of `split('/')` gives back the path, so no character is lost |
| Text.SplitJoin | script.js:188 | splitting a join of `/`-free pieces gives back the pieces |
| Decimal.ParseIntToString | script.js:91 | the decimal text of a count reads back as the same count |
| NavLinks.SetActiveNavLink | script.js:152-183 | the menu after the loop is `Activated` of the menu before it (each href kept, each flag set exactly when the href matches the key); every link is visited, including after an exact match |
| NavLinks.ActivatedAt | script.js:154-182 | link k keeps its href, and its flag is set exactly when one of the three match clauses holds for its href |
| NavLinks.MatchesIff | script.js:158-181 | the three clauses reduce to: the empty key matches only the empty href; a page name matches every href containing it; a section id matches itself and every href ending in `#id` |
| NavLinks.ActivatedKeepsHrefs | script.js:155-156 | the hrefs of the menu are never changed |
| NavLinks.ActivatedIgnoresFlags | script.js:155 | the result depends on the hrefs alone, not on the flags the links had before |
| NavLinks.SetActiveIdempotent | script.js:154-182 | two calls with the same key leave the menu as one call does |
| NavLinks.SeveralLinksActive | script.js:159-181 | the key `rules.html` marks both `rules.html` and `rules.html#x`, so several links can be active at once |
| NavLinks.AnchorMatches | script.js:168-181 | a link whose href ends with `#key` is marked for every non-empty key: by the section clause without a dot, by the containment clause with one |
| NavLinks.SectionKeyMatches | script.js:168-172 | a section id marks `#id` and `home.html#id`, but not a page name that merely contains the id |
| Navigation.PageNameSpec | script.js:188 | the page name is the longest `/`-free suffix of the path, or `index.html` for an empty path or one ending in `/`; it is never empty |
| Navigation.HashKeySpec | script.js:187 | a hash `#id` gives `id`, and a hash without `#` is kept whole |
| Navigation.DispatchSpec | script.js:191-204 | a name containing `rules.html` goes to the rules link; otherwise one containing `staff.html` goes to the staff link; otherwise exactly `index.html` (or the empty name) goes to the index link; every other name goes to section tracking |
| Navigation.DirectoryPathsRouteToIndex | script.js:188-203 | an empty path, or one ending in `/`, always marks the index link |
| Navigation.NavKeySpec | script.js:190-247 | on the rules, staff and index pages the marked key depends on the path alone; on a sectioned page an empty hash marks nothing |
| Navigation.HashMarksSectionLink | script.js:240-246 | on a sectioned page, the hash `#id` (any non-empty id) of an existing element marks every link whose href ends with `#id` |
| Navigation.MostVisible | script.js:218-226 | the result is the intersecting entry with a positive ratio that is strictly above every earlier and at least every later intersecting entry; there is no result exactly when no intersecting entry has a positive ratio, and `maxRatio` then stays 0 |
| Navigation.MostVisibleUnique | script.js:221-226 | at most one entry satisfies that description, so the choice is determined |
| Navigation.TieGoesToFirst | script.js:222 | of two equally visible sections the first is picked, never the second |
| Navigation.PageController.constructor | script.js:150 | the section observer starts out absent |
| Navigation.PageController.UpdateActiveNav | script.js:185-248 | the menu becomes the matching result for the key derived from path, hash and sections, or stays as it was; the observer is created on the first call that tracks sections on a page that has them, and it is never dropped |
| Navigation.PageController.OnSectionsIntersect | script.js:210-231 | runs only once the observer exists; the most visible section's link is marked when its ratio exceeds the double `0.1` (taken at its exact value, slightly above one tenth); otherwise, and when no section qualifies, the menu is unchanged |
| PlayerCount.ParsePlayerCountText | script.js:87-99 | the displayed text reads back as the decided counters, and reads as nothing (it is `N/A`) exactly on failure |
| PlayerCount.DisplayedCounters | script.js:87-99 | counters are shown exactly for an ok response with a parsed, non-null body; the nested field wins when truthy, then the top-level one, then 0 or 128; a body that is not an object shows `0/128`; the maximum shown is never 0 |
| PlayerCount.NestedResponseShown | script.js:89-91 | `{Data: {clients: 42, sv_maxclients: 100}}` shows `42/100` |
| PlayerCount.DefaultMaximumShown | script.js:89-91 | `{clients: 5}` shows `5/128`, and a reported maximum of 0 also shows as 128 |
| PlayerCount.FailuresShowNotAvailable | script.js:87-99 | a failed request, a response that is not ok, a body the parser rejects and a `null` body all show `N/A` |
| PlayerCount.UpdatePlayerCount | script.js:74-101 | without the `#player-count` element nothing changes; otherwise the new text reads back as the decided counters |
| Navbar.ShadowForSpec | script.js:114-118 | the shadow is `none` exactly when the offset is at most 0, and the fixed drop shadow otherwise |
| Navbar.OnScroll | script.js:109-121 | each scroll event sets the navbar's shadow from the current offset; when the page has no `.navbar` the listener throws before writing anything, and nothing changes |
| Navbar.ShadowAfterLast | script.js:111-121 | after any run of scroll events the shadow depends on the last offset only |

## Left out

- Smooth scrolling of in-page anchors (script.js:1-13): DOM event wiring and `scrollIntoView`, with no decision in it.
- `copyToClipboard` and `showCopyFeedback` (script.js:15-71): browser clipboard APIs, `execCommand`, `alert` and a 2000 ms timer. The label restore depends on timing. A second copy within the window can capture `Copied!` as the original label.
- `fetch`, `response.json()`, `console.error` and the 30-second `setInterval` polling (script.js:80-85, 103-105): network, parsing and timers. How a poll ends is an input (`PlayerCount.Poll`).
- The reveal animation and both observers' construction, thresholds and root margins (script.js:123-147, 211-214, 234-237): they belong to the browser's layout engine and CSS. Only the section callback's choice is modelled.
- The `lastScroll` variable (script.js:108, 120): it is written and never read.
- DOM queries are parameters. `sectionCount` stands for the number of `section[id]` elements. `hashTargetExists` stands for whether `querySelector('#' + key)` finds an element. A key that is not a valid selector makes the query throw and ends `updateActiveNav` before any link is marked. The model treats that case as `hashTargetExists == false`.
- Links without an `href` attribute: `getAttribute` gives `null`, and for a non-empty key `endsWith` or `includes` on it throws part-way through the loop (for the empty key neither runs). The model gives every link an href string.
- JSON count fields are integers or absent/`null`. Fractional numbers, and strings or booleans in those fields, are not modelled.
- PlayerCount.PlayerCountText: does not model counts above 2^53 (9007199254740992). JSON numbers are doubles, so such a count is rounded when parsed and printed with zero-padded digits (2^60 shows as `1152921504606847000`); the model prints every digit of the integer exactly.
- Scroll offsets and intersection ratios are `real`. The script only compares them: with 0, which is exact, and with the literal `0.1`, which the model takes at the exact value of that double (`Navigation.VisibilityGate`, slightly above one tenth). How the browser computes a ratio, and its rounding, is not modelled.
