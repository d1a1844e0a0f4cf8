# WikiTrack in Dafny

WikiTrack records a reading session through Wikipedia as a tree. The user
adds an article by URL, descends into related articles, steps back, or jumps
to an entry of the breadcrumb trail. The tree is drawn from a flat list of
node records. This project models the logic behind that and proves what it
keeps true.

- **The browsing-history state machine** of the application component.
  - The state is the node list, the breadcrumb path of node ids, and the
    selected node.
  - Each handler is one atomic transition: `addNode` (the revisit branch and
    the new-node branch), `handleGoBack`, `handleBreadcrumbNodeClick`,
    `handleNodeClick` and `clearGraph`.
  - `getCurrentPathNodes` is modelled as a read view.
  - The module `AppInvariants` defines `Valid`, the rules the state keeps:
    - unique ids and URLs;
    - the depth rule;
    - child lists that agree with parent links;
    - a path of known ids;
    - exactly one viewed node, the one at the path's tip.

    It proves that every handler and every admissible session of user events
    preserves `Valid`.
- **The URL helpers of `WikiService`.**
  - Title extraction is the three regular expressions, the percent-decoding,
    the underscore replacement, the cut at `/` and the trim.
  - Language extraction.
  - URL validation.
  - Node creation.

  Each regular expression is restated as a search over `seq<char>`.
  `decodeURIComponent` is a concrete decoder following the Decode operation
  of ECMA-262 (section 19.2.6.5), including its UTF-8 well-formedness checks.
- **The hierarchy projection of the tree view** (`buildHierarchy`) and the
  label shortener `truncateText`.
  - The child lists are rebuilt from the parent links.
  - The tree is built from the first node whose parent is `null`, looking
    ids up as a `Map` does, where the last entry wins.
  - The recursion runs on fuel. Running out of fuel stands for the
    `RangeError` (stack overflow) that the endless recursion of a parent
    cycle throws out of the effect. It is proved never to happen in a
    valid state.

Modules follow the source: `Wrappers` (`Option`, `Result`) and `JsString`
(the string built-ins used: `trim`, `replace(/_/g, …)`, `split(…)[0]`),
then `UriDecode`, `WikiTypes`, `WikiService`, `App`, `AppInvariants` and
`TreeVisualization`.

## Where the code and the intended behaviour differ

The model follows the code in each case.

- **Visit counts.** `createNode` never sets `visitCount`, and
  `undefined + 1` is `NaN`. A revisit therefore never produces a number.
  `visitCount` is `Option<nat>`, with `None` for undefined or NaN.
  `AppInvariants.RunNeverCounts` proves that no node ever holds a count.
  The intended behaviour was a count that starts at 1 and rises on each
  revisit.
- **Unknown parents.** An unresolved parent id does not fail. The depth
  becomes `0 + 1` and no child list changes (`App.NewDepth`). The
  preservation proofs assume callers pass existing parents
  (`AppInvariants.AddAdmissible`), as the details pane does.
- **Repeats on the path.** A revisit under a parent appends the existing id
  to the path without removing earlier copies. A breadcrumb click then cuts
  at the first copy.
- **Stale selection.** A revisit selects the record as it was before the
  update, with the old visit count and viewing flag.
- **No validity check in `addNode`.** `addNode` does not call
  `isValidWikipediaUrl`; only the input forms do. Any URL containing
  `/wiki/` followed by a character other than `#` or `?` yields a title or
  a decode error (`…/wiki/%zz` throws a `URIError`).
  A URL can also be valid and still have no title, such as
  `https://en.wikipedia.org/wiki/?x`.
- **The title search.** The title regular expression is a search, so it
  takes the leftmost `/wiki/` that is followed by a character other than
  `#` or `?`, not simply the first `/wiki/`.
- **In-place rebuild.** `buildHierarchy` overwrites the `children` arrays of
  the application's own records in place. It changes nothing exactly when the
  child lists already match the parent links, as they do in every valid
  state (`TreeVisualization.RebuildUnchangedIff`).
- **Empty parent id.** A parent id of `""` counts as no parent in
  `addNode`, which tests truthiness. It is still not `null`, so the tree
  view does not treat such a node as a root.

## Model

| member | source | states |
|---|---|---|
| JsString.Trim | src/services/WikiService.ts:17 | `trim()`: the result is a slice of the input, only whitespace is dropped, it neither starts nor ends with whitespace, and text without whitespace at either end is unchanged |
| JsString.ReplaceAll | src/services/WikiService.ts:15 | `replace(/_/g, ' ')`: every `_` becomes a space, every other character stays in place, so no `_` remains |
| JsString.TakeUntil | src/services/WikiService.ts:17 | `split('/')[0]`: the longest prefix without `/`; it is followed by `/` or reaches the end, and text without `/` is unchanged |
| UriDecode.Utf8CodePoint | src/services/WikiService.ts:15 | a multi-octet escape decodes only to a scalar value above U+007F with `10xxxxxx` continuation octets; the overlong two-, three- and four-octet forms, encoded surrogates and values past U+10FFFF are rejected |
| UriDecode.DecodeEscape | src/services/WikiService.ts:15 | a `%` without two hex digits, a lone continuation octet or an invalid lead octet throws; an ASCII escape decodes to its character |
| UriDecode.DecodeUriComponent | src/services/WikiService.ts:15 | `decodeURIComponent` is the identity on text without `%`, never lengthens its input, and succeeds only when every `%` starts two hex digits |
| UriDecode.EscapedOctetsCover | src/services/WikiService.ts:15 | inside a run of well-formed escapes every `%` starts two hex digits |
| UriDecode.EscapeSpan | src/services/WikiService.ts:15 | a decoded escape never swallows a `%` that lacks two hex digits |
| UriDecode.DecodeFromThrows | src/services/WikiService.ts:15 | decoding from any point at or before a `%` without two hex digits throws |
| UriDecode.DecodePlainPrefix | src/services/WikiService.ts:15 | text without `%` passes through unchanged ahead of whatever follows it, and it cannot cause a throw |
| UriDecode.MalformedEscapeThrows | src/services/WikiService.ts:15 | any `%` not followed by two hex digits, wherever it lies, makes the decode throw |
| UriDecode.LateMalformedEscapeThrows | src/services/WikiService.ts:15 | `%41%zz` throws although its first escape is well formed |
| UriDecode.MultiOctetDecodes | src/services/WikiService.ts:15 | the three escapes `%E6%9D%B1` decode to the one character U+6771 |
| WikiTypes.FindIndex | src/App.tsx:53 | `nodes.find` by id: the index of the first node with that id, none exactly when no node has it |
| WikiTypes.FindById | src/App.tsx:95 | the record found is in the list and carries the id; none exactly when the id is absent |
| WikiTypes.ChildIds | src/components/TreeVisualization.tsx:115-117 | the child ids of a node are exactly the ids of the nodes naming it as parent |
| WikiTypes.ChildIdsAppend | src/App.tsx:62-67 | appending a node extends exactly its parent's child list, by its id |
| WikiTypes.ChildIdsNone | src/components/TreeVisualization.tsx:115-117 | a node no record names as parent has an empty child list |
| WikiService.Capture | src/services/WikiService.ts:13 | `url.match(pattern)[1]`: none exactly when no position matches; otherwise the maximal run of allowed characters after the leftmost match |
| WikiService.CleanTitle | src/services/WikiService.ts:15-17 | the cleaned title has no `_`, no `/` and no whitespace at either end; it is the trimmed slice of the underscore-to-space text before the first `/`; a title already clean is unchanged |
| WikiService.CleanTitleSpaces | src/services/WikiService.ts:15-17 | with no `/` and nothing to trim, every `_` becomes a space and every other character stays in place |
| WikiService.TitleFromCapture | src/services/WikiService.ts:14-17 | a capture yields the cleaned form of its decoding; it fails exactly when the decoding throws |
| WikiService.OnlyStandardPatternDecides | src/services/WikiService.ts:6-20 | the second and third patterns only match where the first does, so the first decides the result |
| WikiService.StrictMatchIsStandard | src/services/WikiService.ts:7-8 | every match of the stricter pattern is a match of the standard one |
| WikiService.FullUrlMatchIsStandard | src/services/WikiService.ts:7-9 | every match of the full-URL pattern contains a match of the standard one |
| WikiService.ExtractTitle | src/services/WikiService.ts:4-21 | `extractWikipediaTitle`: null exactly when no `/wiki/` is followed by a character other than `#` or `?`; otherwise the cleaned, decoded leftmost capture, or the decode error |
| WikiService.SchemeAt | src/services/WikiService.ts:24 | `https?://` matches with length 8 exactly for `https://` and 7 exactly for `http://` |
| WikiService.LanguageMatchUnique | src/services/WikiService.ts:24 | at a given position the language group can match only one word |
| WikiService.ExtractLanguage | src/services/WikiService.ts:23-26 | `extractWikipediaLanguage`: `ja` when no `http(s)://<lowercase>.wikipedia.org` occurs, otherwise the lowercase word of the leftmost occurrence |
| WikiService.IsValidWikipediaUrl | src/services/WikiService.ts:28-30 | true exactly when the URL starts with a scheme, a lowercase language, `.wikipedia.org/wiki/` and one character that is neither `/` nor whitespace |
| WikiService.ValidUrlLanguage | src/services/WikiService.ts:24-29 | a valid URL's extracted language is its subdomain, never the `ja` fallback |
| WikiService.CanonicalArticleUrl | src/services/WikiService.ts:4-30 | a canonical article URL is valid, and its title and language are the article name and subdomain it was built from |
| WikiService.QueryOnlyArticleUrl | src/services/WikiService.ts:7-29 | a valid URL whose article part starts with `?` or `#` has no title |
| WikiService.NoSlashNoTitle | src/services/WikiService.ts:4-21 | text without `/` has no title |
| WikiService.KanjiArticleExample | src/services/WikiService.ts:13-25 | the Japanese article URL for U+6771 U+4EAC yields that title and language `ja` |
| WikiService.ValidWithoutTitleExample | src/services/WikiService.ts:7-29 | `https://en.wikipedia.org/wiki/?x` is valid and has no title |
| WikiService.NotAUrlExample | src/services/WikiService.ts:4-30 | `not-a-wikipedia-url` is invalid and has no title |
| WikiService.CreateNode | src/services/WikiService.ts:36-53 | a new node copies id, title, url, parent and depth, has no children, no visit count and no viewing flag; its language is `extractWikipediaLanguage(url)` for any URL, which is the subdomain whenever the URL is valid |
| App.Bump | src/App.tsx:35 | `visitCount + 1` raises a number by exactly one and leaves NaN as NaN |
| App.FindUrlIndex | src/App.tsx:28 | the index of the first node with the URL, none exactly when the URL is new |
| App.IndexOf | src/App.tsx:111 | `indexOf`: the first position of the id in the path, none exactly when it is absent |
| App.ViewOnly | src/App.tsx:98-103 | exactly the nodes with the given id become viewed and nothing else changes |
| App.ExtendPath | src/App.tsx:41-45 | with a truthy parent id the path gains the id at its end; otherwise the path becomes just that id |
| App.RequireTitle | src/App.tsx:22-25 | `addNode` proceeds exactly when a non-empty title is extracted; a decode error propagates and a missing or empty title is an invalid URL |
| App.Revisit | src/App.tsx:30-48 | the revisit keeps every article field, bumps only the matching node's count, views only it, extends the path and selects the pre-update record |
| App.NewDepth | src/App.tsx:52-53 | the new depth is 0 without a parent, the parent's depth plus one when it resolves, and 1 when it does not |
| App.Adopt | src/App.tsx:62-67 | only nodes with the parent's id gain the child id at the end of their child list |
| App.Insert | src/App.tsx:51-80 | a new node adds exactly one record, extends the path with the fresh id, and selects the created record at the computed depth |
| App.AddNode | src/App.tsx:21-81 | `addNode` fails exactly when no usable title exists; a known URL takes the revisit branch and a new URL the new-node branch |
| App.GoBack | src/App.tsx:89-107 | with at most one entry the state is unchanged; otherwise exactly the last entry goes, the new tip alone is viewed and selected |
| App.BreadcrumbClick | src/App.tsx:110-126 | a node off the path changes nothing; otherwise the path ends at the first copy of its id, it alone is viewed and it is selected |
| App.SelectNode | src/App.tsx:128-130 | a node click changes only the selection |
| App.ClearGraph | src/App.tsx:132-136 | clearing empties the nodes and the path and drops the selection |
| App.CurrentPathNodes | src/App.tsx:16-18 | the breadcrumb nodes come from the list and the path, ids without a node are dropped, and with every id known there is one node per path entry |
| AppInvariants.EmptyValid | src/App.tsx:11-13 | the initial state is valid |
| AppInvariants.ClearGraphValid | src/App.tsx:132-136 | clearing yields a valid state from any state |
| AppInvariants.SelectNodeValid | src/App.tsx:128-130 | a node click keeps the state valid |
| AppInvariants.RevisitValid | src/App.tsx:30-48 | the revisit branch keeps the state valid |
| AppInvariants.PrefixViewValid | src/App.tsx:89-126 | cutting the path back to a non-empty prefix and viewing only its new tip keeps a state valid |
| AppInvariants.GoBackValid | src/App.tsx:89-107 | stepping back keeps the state valid and selects the node at the new tip |
| AppInvariants.BreadcrumbClickValid | src/App.tsx:110-126 | a breadcrumb click keeps the state valid |
| AppInvariants.InsertNodes | src/App.tsx:57-71 | in the new-node branch old nodes lose the viewing flag and only the parent's child list changes, by the new id; the new node comes last and is viewed |
| AppInvariants.NoChildrenOfFresh | src/App.tsx:55 | under the depth rule no node names an unused id as parent, so a new node's empty child list already agrees with the parent links |
| AppInvariants.InsertValid | src/App.tsx:51-80 | the new-node branch keeps the state valid for a fresh id and an existing parent |
| AppInvariants.AddNodeValid | src/App.tsx:21-81 | `addNode` keeps the state valid whenever its callers' guarantees hold |
| AppInvariants.ViewedNodeUnique | src/App.tsx:57-59 | in a valid state at most one node is viewed, and one is exactly when there are nodes |
| AppInvariants.ChildrenMatchParents | src/App.tsx:62-67 | in a valid state a child list holds an id exactly when that node names the parent |
| AppInvariants.ParentIsOneUp | src/App.tsx:52-53 | in a valid state every named parent exists, one level above its child |
| AppInvariants.PathNodesComplete | src/App.tsx:16-18 | in a valid state the breadcrumb shows one node per path entry, in order |
| AppInvariants.RevisitBumpsCount | src/App.tsx:28-45 | with unique ids, re-adding a known URL extends the path and keeps the node count and that node's article fields, bumps its count and makes it the only viewed node |
| AppInvariants.RevisitViewsOne | src/App.tsx:32-38 | with unique ids the revisit views exactly the revisited node |
| AppInvariants.NewUrlAppends | src/App.tsx:51-80 | a new URL becomes the last node, viewed, with the given parent and computed depth, while the old nodes keep their URLs and are no longer viewed |
| AppInvariants.AddNodeKeepsUrlsUnique | src/App.tsx:28-59 | `addNode` never records a URL twice, whatever ids and parents it is given |
| AppInvariants.Step | src/App.tsx:22-25 | a failed add leaves the whole state unchanged; a successful one leaves a recorded node at the path's tip |
| AppInvariants.AddedTipExists | src/App.tsx:41-45 | after a successful add the tip of the path is a recorded node |
| AppInvariants.StepValid | src/App.tsx:21-136 | every admissible event keeps the state valid |
| AppInvariants.RunValid | src/App.tsx:21-136 | every admissible session of events keeps the state valid |
| AppInvariants.RunKeepsUrlsUnique | src/App.tsx:28-59 | URLs stay pairwise distinct across any session |
| AppInvariants.RunNeverCounts | src/App.tsx:35 | starting without counts, no node ever holds a numeric visit count |
| TreeVisualization.RebuildChildren | src/components/TreeVisualization.tsx:114-118 | the rebuild keeps every other field and leaves each child list equal to the ids of the nodes naming it as parent |
| TreeVisualization.RebuildUnchangedIff | src/components/TreeVisualization.tsx:114-118 | the in-place rebuild leaves the records unchanged exactly when every child list already lists the nodes naming it as parent |
| TreeVisualization.LastIndexById | src/components/TreeVisualization.tsx:111 | the `Map` lookup finds the last node with the id, none exactly when no node has it |
| TreeVisualization.LastIsFirstWhenUnique | src/components/TreeVisualization.tsx:111 | with unique ids the `Map` lookup and `find` agree |
| TreeVisualization.FirstRootIndex | src/components/TreeVisualization.tsx:107 | the first node whose parent is `null`, none exactly when every node has a parent id |
| TreeVisualization.BuildTree | src/components/TreeVisualization.tsx:121-129 | `buildTree` is null exactly for an unknown id; a built tree carries the id and holds only list records |
| TreeVisualization.BuildForest | src/components/TreeVisualization.tsx:127 | `children.map(buildTree).filter(Boolean)` yields at most one subtree per id, each rooted at one of the ids and holding only list records |
| TreeVisualization.TreeMirrors | src/components/TreeVisualization.tsx:121-129 | when every child id is known, a built tree follows the child lists id by id |
| TreeVisualization.ForestMirrors | src/components/TreeVisualization.tsx:127 | when every id is known, the filter drops nothing: one subtree per id, in order, each following the child lists |
| TreeVisualization.UniqueChildrenLinked | src/components/TreeVisualization.tsx:114-118 | with unique ids and child lists matching the parent links, every record listed as a child names the listing record as parent |
| TreeVisualization.TreeLinked | src/components/TreeVisualization.tsx:121-129 | when listed children name their parent, every built subtree's record names its parent's record as parent |
| TreeVisualization.ForestLinked | src/components/TreeVisualization.tsx:127 | the same holds for every subtree of a built child list |
| TreeVisualization.BuildHierarchy | src/components/TreeVisualization.tsx:103-132 | null exactly when no node has a `null` parent; otherwise the tree hangs from the first such node, holds rebuilt records only and mirrors the child lists |
| TreeVisualization.HierarchyLinked | src/components/TreeVisualization.tsx:103-132 | with unique ids, the projection's root is the first parentless node's rebuilt record and every subtree names its parent's record as parent |
| TreeVisualization.OnlyRootParentless | src/components/TreeVisualization.tsx:121-131 | in a linked tree of unique ids only the root can lack a parent |
| TreeVisualization.OtherRootsAbsent | src/components/TreeVisualization.tsx:107-131 | with unique ids, parentless nodes other than the first never appear in the projection |
| TreeVisualization.ChildOneDeeper | src/App.tsx:52-53 | in a valid list each child lies one level below its parent |
| TreeVisualization.ValidChildDepths | src/App.tsx:52-53 | in a valid list every child id resolves, one level deeper, under the tree view's lookup |
| TreeVisualization.TreeBounded | src/components/TreeVisualization.tsx:121-129 | enough fuel to cover the remaining depth always builds a subtree |
| TreeVisualization.ForestBounded | src/components/TreeVisualization.tsx:127 | a list of children with enough fuel always builds |
| TreeVisualization.ValidStateProjects | src/components/TreeVisualization.tsx:103-132 | a valid history with a parentless node always projects to a finite tree rooted at its first such node |
| TreeVisualization.TruncateText | src/components/TreeVisualization.tsx:134-136 | text no longer than the limit is unchanged; longer text becomes its first `max(limit, 0)` characters followed by `...` |
| TreeVisualization.TruncateBounds | src/components/TreeVisualization.tsx:134-136 | a label is never longer than the limit plus three, and is the text itself or a proper prefix of it followed by the dots |

## Left out

- `fetchWikipediaInfo` (src/services/WikiService.ts:55-170) is left out: it is network access, third-party JSON and logging.
- `generateNodeId` (src/services/WikiService.ts:32-34) uses randomness and the clock. It becomes the `freshId` parameter of `App.AddNode`. `AppInvariants.AddAdmissible` states what the generator is trusted for: a non-empty id not yet in use.
- The node `timestamp` is left out: it is wall-clock time with no effect on behaviour.
- The drawing in src/components/TreeVisualization.tsx:24-101 is left out, including the D3 layout, the SVG elements and the wrapping by `d3.hierarchy`. The projection is handed over as a `Tree`.
- The input forms, the details pane and the breadcrumb component are left out, as is their `isValidWikipediaUrl` check before calling `addNode`. `App.AddNode` accepts any URL, as the handler itself does.
- `handleAddChild` (src/App.tsx:84-86) only forwards to `addNode` with a parent id, so it is `App.AddNode` with `Some(parentId)`.
- React's batched state updates and the stale reads of `nodes` inside handlers are not modelled. Each handler is one atomic transition.
- The asynchronous summary fetch is left out.
- The unused types `WikiPath`, `WikiGraph` and `Position` (src/types/wiki.ts:14-31) are not modelled.
- Strings are sequences of Unicode scalar values, while JavaScript strings are UTF-16 code units. For characters outside the Basic Multilingual Plane, lengths in `truncateText` and the character classes of the regular expressions are counted per character here.
- An `isCurrentlyViewing` that was never set is read as false.
- TreeVisualization.BuildHierarchy: the recursion gets one unit of fuel per node. Running out of fuel is proved impossible in valid states (`TreeVisualization.ValidStateProjects`). That running out coincides exactly with the stack overflow for arbitrary lists is not proved.
- UriDecode.DecodeUriComponent: the contract covers text without escapes, the length bound and the throw on any `%` without two hex digits; the UTF-8 rejection rules are stated per escape in `UriDecode.DecodeEscape` and `UriDecode.Utf8CodePoint`. The character a multi-octet escape decodes to is shown by one example (`UriDecode.MultiOctetDecodes`), not in general.
