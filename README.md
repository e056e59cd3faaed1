# Blog catalog and theme toggle, modelled in Dafny

This project models the two pieces of logic in the fortunato personal website's
browser scripts:

- **The post catalog** (`BlogManager` in `js/posts.js`). Construction sorts the
  shared post array in place, newest first by `timestamp || date`, with a stable
  sort. It then sets `featured` on the first post and clears it on all the others.
  The queries work on the sorted catalog:
  - the five most recent posts;
  - the tag cloud, de-duplicated in first-seen order;
  - the posts carrying a tag;
  - the first post with a given id;
  - the related posts of a post, ranked by the number of shared tags.
- **The theme toggle** (`initTheme` in `js/theme.js`). This is a dark/light switch.
  Its state is the page's `data-theme` attribute, local storage and the icon text.

Files:

- `wrappers.dfy`: `Option`, the model of `undefined`.
- `seqs.dfy`: the JavaScript array operations the queries are built from. These
  are `filter`, `map`, `slice(0, end)` (a negative end counts back from the length)
  and de-duplication through a `Set`. Their lemmas cover membership, multiplicity,
  subsequence order and first occurrence.
- `stable_sort.dfy`: `Array.prototype.sort` with a descending numeric comparator.
  - `Sort` is the specification: a stable insertion sort written as a function.
  - `InsertionSort` sorts an `array` in place and is proved to produce `Sort` of
    the old contents.
  - Lemmas show that `Sort` is sorted, a permutation and stable. They also show it
    is the only sorted, stable rearrangement, so any stable sort agrees with it.
- `posts.dfy`: the `Post` record and the `BlogManager` class. The constructor sorts
  and flags the shared array. The queries are functions over the catalog sequence,
  each with lemmas.
- `theme.dfy`: the `ThemeToggle` class. Its fields are `attribute`, `storage`,
  `icon` and `listening`. `Init` is `initTheme`, `Click` is the click handler, and
  the pure functions pick the initial theme, the next theme and the icon.

Nothing outside these two scripts' logic is modelled. Date strings are taken as
already parsed to integer instants. I/O, the DOM and timers are not part of the
model.

## Model

| member | source | states |
|---|---|---|
| `StableSort.Sort` | fortunato-website/js/posts.js:59-63 | the specification of the stable descending sort, as a function; it keeps the length, and `SortIsSorted`, `SortIsPermutation`, `SortIsStable` and `SortIsTheStableSort` state what it is |
| `StableSort.InsertionSort` | fortunato-website/js/posts.js:59-63 | sorting the array in place leaves exactly the stable newest-first order of its old contents |
| `StableSort.ShiftDown` | fortunato-website/js/posts.js:59-63 | one insertion step places an element behind every earlier element whose key is at least its own, and changes nothing after it |
| `StableSort.SortIsSorted` | fortunato-website/js/posts.js:59-63 | the sort result has non-increasing keys |
| `StableSort.SortIsPermutation` | fortunato-website/js/posts.js:59-63 | the sort result has the same elements as the input, with the same multiplicities |
| `StableSort.SortIsStable` | fortunato-website/js/posts.js:59-63 | for every key, the elements with that key keep their input order |
| `StableSort.SortIsTheStableSort` | fortunato-website/js/posts.js:59-63 | every sorted rearrangement that keeps equal keys in input order is this sort's result, so the engine's algorithm does not matter |
| `StableSort.SortedPrefixHoldsLargest` | fortunato-website/js/posts.js:260-261 | a prefix of a sorted sequence, such as one cut by `slice`, holds its largest keys: nothing left out has a larger key than anything kept |
| `StableSort.SortOfSorted` | fortunato-website/js/posts.js:59-63 | sorting an already sorted sequence returns it unchanged |
| `StableSort.SortedPrefixKeepsOrder` | fortunato-website/js/posts.js:260-261 | in any prefix of the sorted result, such as one cut by `slice`, each key's elements are the earliest input elements with that key, in input order |
| `Posts.NewestKey` | fortunato-website/js/posts.js:60-61 | the sort key is the post's `timestamp` when it has one and its `date` otherwise |
| `Posts.MarkFeatured` | fortunato-website/js/posts.js:66-68 | the flagging leaves every post as it was apart from `featured`, which holds exactly at index 0 |
| `Posts.Catalog` | fortunato-website/js/posts.js:57-68 | the catalog construction leaves behind keeps the number of posts; `CatalogIsStableSort`, `CatalogFeatured`, `FeaturedIsNewest` and `CatalogIdempotent` state what it holds |
| `Posts.StampFeatured` | fortunato-website/js/posts.js:66-68 | the flagging loop sets `featured` to `index == 0` on every post and changes nothing else |
| `Posts.BlogManager.constructor` | fortunato-website/js/posts.js:57-69 | the manager aliases the shared array, which afterwards holds the stable newest-first sort of its old contents with only the first post featured |
| `Posts.CatalogIsStableSort` | fortunato-website/js/posts.js:59-63 | ignoring the flag, the catalog is the stable sort of the input by `timestamp` else `date`; it is newest first, a permutation of the input, and keeps equal-key posts in input order |
| `Posts.CatalogFeatured` | fortunato-website/js/posts.js:66-68 | a post is featured exactly when it is first, so a non-empty catalog has exactly one featured post and an empty one has none |
| `Posts.FeaturedIsNewest` | fortunato-website/js/posts.js:59-68 | no input post has a later effective key than the featured post |
| `Posts.CatalogIdempotent` | fortunato-website/js/posts.js:59-68 | constructing again over the already sorted shared array changes nothing |
| `Posts.RecentPosts` | fortunato-website/js/posts.js:124 | the recent list is the catalog's first `min(5, n)` posts, in catalog order |
| `Posts.AllTags` | fortunato-website/js/posts.js:131 | every tag of every post is in the flattened list; `AllTagsMembers` adds that nothing else is |
| `Posts.AllTagsMembers` | fortunato-website/js/posts.js:131 | the flattened tag list holds exactly the tags of the posts |
| `Posts.UniqueTags` | fortunato-website/js/posts.js:131-132 | the tag cloud is never longer than the flattened list; `UniqueTagsSpec` states its members and order |
| `Posts.UniqueTagsSpec` | fortunato-website/js/posts.js:131-132 | the tag cloud has no duplicates, holds every tag of every post and nothing else, and lists tags in order of first occurrence across posts and their tag lists |
| `Posts.ByTag` | fortunato-website/js/posts.js:206 | the filtered list is never longer than the catalog; `ByTagSpec` states which posts it keeps and in what order |
| `Posts.ByTagSpec` | fortunato-website/js/posts.js:206 | the filtered posts are those carrying the tag, as often as in the catalog, in catalog order; the result is empty exactly when no post carries the tag |
| `Posts.GetPost` | fortunato-website/js/posts.js:245 | the lookup finds nothing exactly when no post has the id; otherwise it returns a catalog post with that id |
| `Posts.GetPostFirst` | fortunato-website/js/posts.js:245 | the lookup returns the first post with the id |
| `Posts.Relevance` | fortunato-website/js/posts.js:257 | a post's relevance never exceeds its number of tags; `RelevanceSpec` states when it is positive |
| `Posts.RelevanceSpec` | fortunato-website/js/posts.js:257 | relevance is at most the number of the candidate's tags, and is positive exactly when one of them is among the current post's tags |
| `Posts.Candidates` | fortunato-website/js/posts.js:253-259 | there are never more candidates than catalog posts; `CandidatesSpec` and `CandidatesMultiplicity` state which they are and how often |
| `Posts.CandidatesSpec` | fortunato-website/js/posts.js:253-259 | a candidate is another catalog post paired with its relevance, which is positive, and every such pairing is a candidate; the candidates follow catalog order |
| `Posts.CandidatesMultiplicity` | fortunato-website/js/posts.js:253-259 | each post other than the current id that shares a tag is a candidate as often as it occurs in the catalog, and no other post is |
| `Posts.RelatedPosts` | fortunato-website/js/posts.js:249-263 | for a known id there are never more related posts than candidates; the `RelatedPosts…` lemmas below state the rest |
| `Posts.RelatedPostsBounds` | fortunato-website/js/posts.js:249-251 | an unknown id gives no related posts, and a non-negative limit (three by default) bounds the result's length |
| `Posts.RelatedPostsCount` | fortunato-website/js/posts.js:260-261 | for a known id the result has exactly `min(limit, candidates)` posts for a non-negative limit, and `max(0, candidates + limit)` for a negative one |
| `Posts.RelatedPostsMostRelevant` | fortunato-website/js/posts.js:260-261 | when the limit cuts, it cuts the least relevant: no candidate left out is more relevant than a kept one |
| `Posts.RelatedPostsMembers` | fortunato-website/js/posts.js:253-260 | every result is another catalog post that shares a tag with the current post and carries its relevance; relevance never rises along the result |
| `Posts.RelatedPostsStable` | fortunato-website/js/posts.js:260-261 | results of equal relevance appear in catalog order and, when the limit cuts through them, they are the earliest candidates of that relevance |
| `Posts.RelatedPostsComplete` | fortunato-website/js/posts.js:253-261 | when the limit does not cut, the result holds every candidate exactly once |
| `Posts.TwoPostScenario` | fortunato-website/js/posts.js:249-263 | worked example: of two posts the newer is first and featured, both carry the shared tag, and the older post's one related post is the newer with relevance 1 |
| `Seqs.SliceTo` | fortunato-website/js/posts.js:261 | `slice(0, end)` returns a prefix of length `min(end, n)`, or `max(0, n + end)` for a negative end |
| `Seqs.Dedup` | fortunato-website/js/posts.js:132 | de-duplication never lengthens the sequence; `DedupSpec` states what it keeps and in what order |
| `Seqs.DedupSpec` | fortunato-website/js/posts.js:132 | de-duplication through a `Set` keeps each value once, loses none, and orders values by first occurrence |
| `Theme.InitialTheme` | fortunato-website/js/theme.js:16 | a missing or empty stored value gives `dark`; any other stored string is used as it is |
| `Theme.Toggled` | fortunato-website/js/theme.js:22-23 | a toggle gives `light` exactly from `dark`, and `dark` from anything else |
| `Theme.IconFor` | fortunato-website/js/theme.js:31 | the icon is the sun exactly when the theme is `dark`, and the moon otherwise |
| `Theme.ToggleTwice` | fortunato-website/js/theme.js:22-26 | from `dark` or `light`, each toggle changes the theme and two toggles restore it |
| `Theme.ToggleFromOther` | fortunato-website/js/theme.js:22-23 | from any other stored value the first toggle gives `dark` and the second `light` |
| `Theme.ThemeToggle.Init` | fortunato-website/js/theme.js:5-19 | without the toggle button or its icon nothing changes; otherwise the initial theme is applied, its icon shown and the handler installed, and storage is not written |
| `Theme.ThemeToggle.Click` | fortunato-website/js/theme.js:21-28 | with the handler installed, the attribute becomes the toggled theme, storage maps `theme` to it with no other key changed, and the icon follows; without a handler nothing changes |
| `Theme.FirstVisit` | fortunato-website/js/theme.js:15-28 | worked example: with nothing stored the page starts dark, one click gives light and stores `light`, two clicks give dark |

## Left out

- Date parsing: `new Date(timestamp || date)` is replaced by integer instants.
  `Post.timestamp` is present exactly when the record has a non-empty timestamp.
- Unparseable dates: the comparator yields `NaN` for them and the code has no rule
  for them, which leaves the order unspecified, so they are not modelled.
- Negative limit: `slice(0, limit)` drops that many posts from the end. This is
  modelled (`SliceTo`, `RelatedPostsCount`), not rejected.
- Unknown id: `getRelatedPosts` returns `[]` (`RelatedPostsBounds`).
- Stored theme: any non-empty stored string is used as it is, even one that is
  neither `dark` nor `light` (`InitialTheme`, `ToggleFromOther`).
- Date formatting (`toLocaleDateString`) is left out. It is locale library behaviour.
- The HTML templates are left out: `generatePostHTML` and the list/link wrappers
  around the recent posts and tags. Only which posts and tags are selected is
  modelled.
- `escapeHtml` is left out. It relies on the DOM's own serialiser.
- DOM wiring is left out: `renderBlog`, `initTagFiltering`, the rendering half of
  `filterByTag`, the ready-state handling and `window.blogManager`. These are event
  listeners and DOM mutation.
- Scroll animations, smooth scrolling and the icon's rotation timer are left out.
  They are visual effects driven by observers and timers.
- The `theme` module leaves out the DOM lookups of the toggle button and icon
  element. They are reduced to two booleans passed to `Init`.
- `Theme.ThemeToggle.Init`: the model assumes `initTheme` runs once and keeps a single
  `listening` flag. The script always registers a `DOMContentLoaded` listener that calls
  `initTheme` (js/theme.js:81-85). It also calls `initTheme` at once when `readyState` is
  not `loading` (js/theme.js:88-95). A deferred or module script runs while `readyState`
  is `interactive`, before `DOMContentLoaded` fires. There `initTheme` runs twice and
  installs two click handlers. Each click then toggles twice, so the theme never
  changes. The model does not capture that case.
- `Theme.ThemeToggle.Init`: local storage is assumed to be readable. In a browser
  `localStorage.getItem` can throw (storage disabled, or `localStorage` null); `initTheme`
  then stops after the element check, with no attribute set and no handler installed.
- `Theme.ThemeToggle.Click`: local storage is assumed to be writable. When
  `localStorage.setItem` throws (storage disabled, or a zero quota), the attribute has
  already changed but the icon is not updated.
- `js/new-post.js` is not part of this model. It is a command-line tool that
  writes files and prints to the console.
- `getRelatedPosts` returns copies of the posts (`{...post, relevance}`) and leaves the
  catalog unchanged. The model's functions cannot modify the catalog, so this holds by
  construction and has no separate lemma.
