# Portfolio site: swipe navigation and project selection

This project models the parts of the portfolio website that make decisions, and proves properties of them. The rest of the site is markup, styling and animation.

- **Swipe navigation** (`useSwipeNavigation`). A touch start records the finger's x coordinate and the time. A touch end computes the displacement and the elapsed time. It treats the gesture as a swipe only when both the distance test (`|deltaX| > threshold`, default 50) and the speed test (`|deltaX / deltaTime| > velocity`, default 0.3) pass, and both tests are strict. A rightward swipe goes to the previous entry of the nav list. Any other swipe goes to the next entry. Neither direction wraps around. The current entry is found with `findIndex`, so it can be -1.
- **Project selection** (the projects page and its accordion list). The page state is the selected project id plus the list of open accordion values. Both start at the first catalog entry. One handler sets both together. The accordion's change event is ignored unless it reports a truthy first value. The detail panel shows the first project whose id matches the selection, and falls back to the first project. A row is highlighted when its id is the selected one. A chevron is rotated when its id is among the open values.
- **Display mappings.** This covers the status-to-colour table, the status badge's colour scheme and label, the "first three plus `+N more`" technology badges, the icon table with its JavaScript-icon fallback, and the catalog itself as constant data.

Modules: `Wrappers` (Option), `JsArray` (`findIndex`, `find`), `JsText` (the first-occurrence search that `replace("-", " ")` performs, the replacement itself, decimal rendering of counts), `Catalog` (`projectsData`, `techIcons`), `ProjectUtils` (`getStatusColors`), `ProjectAccordionList`, `ProjectsPage`, `SwipeNavigation`.

Inputs the source reads from the environment are parameters here. The touch coordinate and `Date.now()` are passed to the touch handlers, the location's pathname is passed to the index sync, and `navigate(path)` is modelled as the returned `Option<string>`.

Some behaviours of the code may look unintended. The model reproduces them as written:
- When the current page is not in the nav list (index -1), a leftward swipe navigates to the first entry rather than doing nothing. `UnlistedPageSwipesLeftToFirst` states this.
- Selecting an id that is not in the catalog is not rejected. The state takes any id, and the detail lookup falls back to the first project. `ChangesKeepSelectionInCatalog` shows that the selection stays in the catalog as long as the accordion only reports its own items' values.
- An empty catalog is not handled: `projectsData[0].id` would fail at runtime. Here `InitialSelection` and `SelectedProjectData` return `None` for an empty catalog.
- The guard `if (newValue)` is JavaScript truthiness. It drops an empty-string id as well as an empty value list.

`src/pages/ProjectsPage.tsx` keeps its own inline copy of the project catalog and icon table, and renders the accordion list inline. The catalog and icon table are identical to `src/data/projectsData.ts` apart from comments. The inline list is identical to `src/pages/projects/ProjectAccordionList.tsx` in data and decision logic; the two renderings differ only in styling props (the Featured badge's colours, a two-line clamp on the description, the tech badges' colours). So each is modelled once (`Catalog`, `ProjectAccordionList.Render`) and the page module reuses them.

## Model

| member | source | states |
|---|---|---|
| JsArray.FindIndex | src/hooks/useSwipeNavigation.ts:16 | the result is -1 exactly when no element matches; otherwise it is the first matching position |
| JsArray.Find | src/pages/ProjectsPage.tsx:198 | returns nothing exactly when no element matches; otherwise returns the element at the `findIndex` position, which matches |
| JsText.IndexOf | src/pages/ProjectsPage.tsx:350 | -1 exactly when the character is absent; otherwise the position of its first occurrence |
| JsText.ReplaceFirst | src/pages/ProjectsPage.tsx:350 | the length is kept; a string without the character comes back unchanged; otherwise only the first occurrence is replaced |
| JsText.NumberToString | src/pages/projects/ProjectAccordionList.tsx:161 | a count renders as decimal digits, non-empty, with a leading zero only for 0 |
| JsText.ParseNumberToString | src/pages/projects/ProjectAccordionList.tsx:161 | reading the rendered digits back gives the original count |
| Catalog.CatalogNonEmpty | src/data/projectsData.ts:37-117 | the catalog has five entries, so the first-entry fallbacks always have something to return |
| Catalog.CatalogIdsDistinct | src/data/projectsData.ts:37-117 | no two projects share an id |
| Catalog.CatalogIconsComplete | src/data/projectsData.ts:46-141 | every technology any project names has an entry in the icon table |
| Catalog.CatalogLiveUrls | src/data/projectsData.ts:37-117 | the live-demo link is absent exactly for the projects with ids 3 and 5 |
| Catalog.CatalogStatusNames | src/data/projectsData.ts:31 | every stored status is completed, in-progress or planning (a fact of the status type itself, as the TypeScript union makes it) |
| Catalog.Status.Name | src/data/projectsData.ts:31 | the stored name of a status is one of the three names of the TypeScript union: completed, in-progress or planning |
| ProjectUtils.GetStatusColors | src/utils/projectUtils.ts:4-27 | the text is white in every branch; green exactly for completed; accent exactly for in-progress; gray.400 exactly for planning in dark mode; the table is total |
| ProjectUtils.ModeMattersOnlyForPlanning | src/utils/projectUtils.ts:4-27 | the light and dark colours differ exactly for planning |
| ProjectUtils.UnknownStatusLooksLikePlanning | src/utils/projectUtils.ts:16-25 | a status the table does not name gets the same colours as planning in light mode, in both modes |
| ProjectAccordionList.ForwardedValue | src/pages/projects/ProjectAccordionList.tsx:57-62 | the first reported value is forwarded exactly when the list is non-empty and that value is non-empty; nothing is forwarded otherwise |
| ProjectAccordionList.BadgesFor | src/pages/projects/ProjectAccordionList.tsx:141-163 | the shown names are the first min(3, n) technologies; the `+N more` badge exists exactly when n > 3 and shown plus N equals n |
| ProjectAccordionList.BadgeLabels | src/pages/projects/ProjectAccordionList.tsx:141-163 | the shown names come first, followed by the `+N more` label exactly when there is a `more` count N |
| ProjectAccordionList.MoreLabel | src/pages/projects/ProjectAccordionList.tsx:161 | the trailing badge starts with `+`, ends with ` more`, and holds only decimal digits in between |
| ProjectAccordionList.BadgesCoverTechnologies | src/pages/projects/ProjectAccordionList.tsx:141-163 | the shown names followed by the hidden ones give back the whole list, and the hidden count is the badge's N |
| ProjectAccordionList.MoreLabelSpellsCount | src/pages/projects/ProjectAccordionList.tsx:153-163 | the trailing badge reads `+`, then digits that parse back to N, then ` more` |
| ProjectAccordionList.RowFor | src/pages/projects/ProjectAccordionList.tsx:65-130 | a row is keyed and valued by the project id; it is highlighted iff the id is the selected one, its chevron is rotated iff the id is among the open values, and it has a Featured badge iff the project is featured |
| ProjectAccordionList.Render | src/pages/projects/ProjectAccordionList.tsx:65-168 | one row per project, in input order, keyed by id, with the highlight, chevron, featured and badge views of that project |
| ProjectAccordionList.HeadingCountsProjects | src/pages/projects/ProjectAccordionList.tsx:43-51 | the heading reads `All Projects (`, then digits that parse to the number of projects, then `)` |
| ProjectAccordionList.Heading | src/pages/projects/ProjectAccordionList.tsx:50 | the heading starts with `All Projects (`, ends with `)`, and holds only decimal digits in between |
| ProjectsPage.InitialSelection | src/pages/ProjectsPage.tsx:179-184 | for a non-empty catalog the state selects and opens exactly the first project, which is in the catalog; an empty catalog has no initial state |
| ProjectsPage.HandleAccordionChange | src/pages/ProjectsPage.tsx:200-203 | the selection becomes the given id, and the open values become exactly that id, in one step |
| ProjectsPage.OnValueChange | src/pages/ProjectsPage.tsx:469-476 | an empty list or an empty first value leaves the state unchanged; otherwise only the first value is used, and it becomes both the selection and the only open value |
| ProjectsPage.OnValueChangeKeepsConsistent | src/pages/ProjectsPage.tsx:469-476 | one change event keeps the open values equal to `[selectedProject]` |
| ProjectsPage.ChangesKeepConsistent | src/pages/ProjectsPage.tsx:179-203 | after any sequence of change events the open values are exactly `[selectedProject]` |
| ProjectsPage.ChangesKeepSelectionInCatalog | src/pages/ProjectsPage.tsx:469-482 | if the accordion only reports its items' values, the selection stays a catalog id |
| ProjectsPage.SelectedProjectData | src/pages/ProjectsPage.tsx:197-198 | the detail is a catalog entry; when some entry carries the selected id it is the first such entry; otherwise it is the first project; it is absent only for an empty catalog |
| ProjectsPage.DetailIsTheSelectedEntry | src/pages/ProjectsPage.tsx:197-198 | when ids are distinct, selecting an entry's id shows exactly that entry |
| ProjectsPage.ViewsAgree | src/pages/ProjectsPage.tsx:486-536 | under the invariant, a row is highlighted iff its chevron is rotated iff it is the detail panel's entry |
| ProjectsPage.RowsFollowSelection | src/pages/ProjectsPage.tsx:486-536 | under the invariant there is one row per project, and a row is highlighted iff its chevron is rotated iff its key is the selected id |
| ProjectsPage.ExactlyOneRowHighlighted | src/pages/ProjectsPage.tsx:479-536 | when ids are distinct, a row is highlighted iff it is the selected project's row, its chevron is rotated iff it is that row, and the detail shows that row's project |
| ProjectsPage.IconFor | src/pages/ProjectsPage.tsx:384 | a known technology gets its table icon and any other technology gets the JavaScript icon, so the lookup is total |
| ProjectsPage.CatalogNeedsNoIconFallback | src/pages/ProjectsPage.tsx:383-384 | for every catalog technology the lookup hits the table, so the fallback is never used |
| ProjectsPage.StatusColorScheme | src/pages/ProjectsPage.tsx:340-346 | green exactly for completed, orange exactly for in-progress, gray for everything else |
| ProjectsPage.StatusSchemesAgree | src/pages/ProjectsPage.tsx:340-346 | the badge's colour scheme is gray exactly when the status colour table gives a gray background, in either mode |
| ProjectsPage.StatusLabel | src/pages/ProjectsPage.tsx:350 | the label has the status's length; the first hyphen becomes a space and every other character is kept, so a status without a hyphen is shown unchanged |
| ProjectsPage.HyphenFreeLabels | src/pages/ProjectsPage.tsx:350 | completed and planning are shown as stored |
| ProjectsPage.InProgressLabel | src/pages/ProjectsPage.tsx:350 | in-progress is shown as `in progress` |
| ProjectsPage.OnlyFirstHyphenReplaced | src/pages/ProjectsPage.tsx:350 | only the first hyphen becomes a space (`a-b-c` becomes `a b-c`) |
| ProjectsPage.SelectThirdScenario | src/pages/ProjectsPage.tsx:179-203 | with three projects, selecting id 3 shows project 3, and row 2 is neither highlighted nor open |
| SwipeNavigation.ResolveOptions | src/hooks/useSwipeNavigation.ts:5-11 | each omitted option, or an omitted options object, takes its default (50 and 0.3); each supplied option is kept |
| SwipeNavigation.PathIndex | src/hooks/useSwipeNavigation.ts:16-21 | the first position whose path equals the pathname, else -1 |
| SwipeNavigation.InitialState | src/hooks/useSwipeNavigation.ts:14-16 | both start refs are zero, and the index is the pathname's position in the list |
| SwipeNavigation.SyncLocation | src/hooks/useSwipeNavigation.ts:18-21 | a location change recomputes only the index, and leaves the start refs as they were |
| SwipeNavigation.HandleTouchStart | src/hooks/useSwipeNavigation.ts:25-28 | both start refs are overwritten with the new touch and the index is untouched |
| SwipeNavigation.CalculatedVelocity | src/hooks/useSwipeNavigation.ts:36 | the speed is finite and non-negative when time elapsed; it is Infinity for a zero duration with movement, and NaN for a zero duration without movement |
| SwipeNavigation.Exceeds | src/hooks/useSwipeNavigation.ts:38 | the strict speed comparison: a finite speed passes iff it is greater than the option, Infinity always passes, NaN never does |
| SwipeNavigation.Qualifies | src/hooks/useSwipeNavigation.ts:34-38 | both tests are strict; a gesture qualifies iff its distance exceeds the threshold and its speed passes the division-free speed test, so with no elapsed time the speed test passes on any movement (Infinity) and fails without movement (NaN) |
| SwipeNavigation.VelocityTestWithoutDivision | src/hooks/useSwipeNavigation.ts:35-38 | the quotient test equals `|deltaX| > v * |deltaTime|` when time elapsed, and "any movement" when it did not |
| SwipeNavigation.NeighbourIndex | src/hooks/useSwipeNavigation.ts:40-50 | a rightward swipe moves back one entry iff the index is at least 1; any other swipe moves forward one entry iff a next entry exists; the target is always in range |
| SwipeNavigation.HandleTouchEnd | src/hooks/useSwipeNavigation.ts:30-51 | a navigation happens only for a qualifying gesture, to a listed path one step from the current index |
| SwipeNavigation.QualifyingSwipe | src/hooks/useSwipeNavigation.ts:38-50 | a qualifying rightward swipe goes to entry i-1 when i >= 1 and nowhere otherwise; a leftward one goes to entry i+1 unless at the last entry |
| SwipeNavigation.NonQualifyingSwipeIgnored | src/hooks/useSwipeNavigation.ts:38-51 | a gesture failing either threshold never navigates |
| SwipeNavigation.ExactThresholdNeverNavigates | src/hooks/useSwipeNavigation.ts:34-38 | a displacement exactly at the threshold never navigates, whatever the speed |
| SwipeNavigation.ZeroDurationQualifiesOnDistance | src/hooks/useSwipeNavigation.ts:35-38 | with no elapsed time, a displacement past a non-negative threshold qualifies |
| SwipeNavigation.UnlistedPageSwipesLeftToFirst | src/hooks/useSwipeNavigation.ts:45-50 | with index -1, a qualifying leftward swipe navigates to the first entry |
| SwipeNavigation.LatestStartWins | src/hooks/useSwipeNavigation.ts:25-35 | a second touch start erases the first, and the touch end decides as if only the second had happened |
| SwipeNavigation.DistinctPathIndex | src/hooks/useSwipeNavigation.ts:20 | with distinct paths, each entry's path syncs to that entry's own index |
| SwipeNavigation.BackThenForwardReturns | src/hooks/useSwipeNavigation.ts:18-50 | a qualifying swipe back, then the location sync, then a qualifying swipe forward returns to the starting page |
| SwipeNavigation.MobileNavPathsDistinct | src/hooks/useSwipeNavigation.ts:58-64 | the mobile nav list's paths are pairwise distinct |
| SwipeNavigation.ProjectsPageScenario | src/hooks/useSwipeNavigation.ts:11-50 | on /projects with the defaults, a 100-pixel swipe over 50 ms goes right to / and left to /skills |
| SwipeNavigation.Run | src/hooks/useSwipeNavigation.ts:25-51 | over any event sequence the index stays in range, there are at most as many navigations as touch ends, and every navigation is to a listed path |

## Left out

- Rendering, styling, breakpoints, `useColorModeValue`, framer-motion variants and page transitions: these are presentation and have no decision logic.
- React machinery (`useRef`, `useEffect`, `useCallback`, `useNavigate`, `useLocation`): modelled as an explicit state record, an explicit pathname input and a returned optional path. The model assumes the index sync runs before the next touch, as the effect does in practice.
- The `isMobile` gate in `MainLayout.tsx`, the header's active-path equality, routing setup, bootstrapping and theme configuration: these are wiring with no behaviour of their own.
- `ProjectDisplay.tsx` is not part of this model. Its status colours come from `getStatusColors` (modelled). Its unguarded icon lookup is covered by `Catalog.CatalogIconsComplete`.
- Multi-touch: the hook reads only the first touch, and so does the model.
- CalculatedVelocity: computes exact rational division rather than IEEE double division, so rounding at the exact velocity boundary is not modelled. Touch coordinates are exact reals and the velocity option is assumed finite.
- IconFor: models the icon table as a plain map. A JavaScript object also answers inherited keys such as `constructor`, and those are not modelled.
- HandleTouchEnd: requires the index to lie in [-1, length). `findIndex` always produces such an index. With any other index, the source would read past the list.
