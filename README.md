# spacetravelling: the "load more" step of the post listing

A Dafny model of the home page's post listing in the spacetravelling blog
(`src/pages/index.tsx`). The page starts from a `PostPagination` (the first
posts and the cursor of the next page) and keeps two pieces of component
state, `posts` and `nextPage`. Each click on "Carregar mais posts" runs
`loadPosts`, which:

1. returns at once when there is no next-page cursor (absent or empty);
2. fetches the next page and stores its `next_page` cursor;
3. normalises every fetched post to a `Post` holding `uid`,
   `first_publication_date`, `title`, `subtitle` and `author`;
4. appends the new posts to the current ones and keeps, for every `uid`, only
   its first occurrence (`filter` with `findIndex(...) === index`).

The model lives in `index.dfy`, module `Index`:

- datatypes `Post`, `PostData`, `PostPagination` for the listing's records,
  and `RawPost`, `RawPostData`, `RawPage` for what the content service sends;
- `Normalise` / `NormaliseAll` for the `map` at lines 44-52;
- `FindIndex`, `FilterFirst`, `Dedup` and `Merge` for the concatenation and
  the `filter`/`findIndex` de-duplication, with the ghost `KeptIndices` giving
  the indices the filter keeps;
- class `Home` with fields `posts` and `nextPage` and method `LoadPosts`.

The network request is a parameter of `LoadPosts`: `response` is the decoded
page (`None` when the request or the JSON decoding rejected). A `uid` is an
`Option<string>`; `===` on two absent uids is true, so all posts without a uid
collapse onto the first of them. The code declares `uid` optional
(src/pages/index.tsx:13), and the model follows the code.

Two behaviours of the code are kept on purpose. First, `setNextPage` runs
before the posts are normalised, so a response whose `results` field is
missing, or that holds a post without a `data` block (a `TypeError` in the
source), still replaces `nextPage` while `posts` stays as it was. Second, the
filter keeps a post only when it is the first one with its `uid` in the whole
concatenation, so duplicates that were already in `posts` are dropped too.

## Model

| member | source | states |
|---|---|---|
| `Index.Normalise` | src/pages/index.tsx:44-52 | a raw post yields a record exactly when it has a `data` block; the record copies `uid`, `first_publication_date`, `title`, `subtitle` and `author` verbatim |
| `Index.NormaliseAll` | src/pages/index.tsx:44-52 | the page normalises exactly when every raw post has `data`; then there is one record per fetched post, in the same order, each the normalisation of the post at its index |
| `Index.NormaliseKeepsPosts` | src/pages/index.tsx:12-20 | normalising the raw form of a list of posts gives that list back: the map keeps every field a `Post` has |
| `Index.NormaliseAllAppend` | src/pages/index.tsx:44-52 | normalising a concatenation succeeds when both parts do and gives the concatenation of their normalisations |
| `Index.HasNextPage` | src/pages/index.tsx:36 | the guard lets a load proceed exactly when the cursor is neither absent nor the empty string, the two falsy values it can hold |
| `Index.FindIndex` | src/pages/index.tsx:58-60 | -1 exactly when no element has the uid; otherwise an index whose element has the uid and before which no element has it |
| `Index.FindIndexIsFirst` | src/pages/index.tsx:57-64 | the filter test `foundIndex === index` holds exactly when no earlier element has the same uid |
| `Index.KeptIndices` | src/pages/index.tsx:57-65 | the kept indices are strictly increasing, in range, and index `i` is among them exactly when no earlier index holds its uid (first occurrence wins) |
| `Index.FilterFirstSelects` | src/pages/index.tsx:57-65 | the filtered list is the input read at the kept indices: an order-preserving subsequence of `[...posts, ...newPosts]` |
| `Index.FilterDistinct` | src/pages/index.tsx:57-65 | no two posts of the filtered list have equal uids, absent uids counting as equal |
| `Index.FilterKeepsEveryUid` | src/pages/index.tsx:57-65 | every uid of the input survives, carried by its first occurrence |
| `Index.FilterWithin` | src/pages/index.tsx:57-65 | the filter adds nothing: every post of the result is a post of the input |
| `Index.Dedup` | src/pages/index.tsx:57-65 | the result is the input read at the kept indices (order-preserving, first occurrence wins, by `KeptIndices`); its uids are distinct, it holds only input posts, and every input uid survives |
| `Index.Merge` | src/pages/index.tsx:54-65 | the merged listing has distinct uids, holds only current or new posts and every uid of either; distinct current posts stay unchanged in front, and no new post repeating one of their uids is added (first seen wins) |
| `Index.DistinctPrefixKept` | src/pages/index.tsx:57-65 | a prefix whose uids are distinct passes the filter unchanged |
| `Index.FilterFirstExtends` | src/pages/index.tsx:57-65 | later elements never change what the filter kept from earlier ones: the result for a shorter prefix is a prefix of the result for a longer one |
| `Index.DedupOfDistinct` | src/pages/index.tsx:57-65 | a list with distinct uids is returned unchanged |
| `Index.DedupIdempotent` | src/pages/index.tsx:57-65 | filtering the filter's output returns it unchanged |
| `Index.MergeEmptyIdempotent` | src/pages/index.tsx:54-65 | merging an empty page into a merged listing changes nothing |
| `Index.DedupKeepsDistinctPrefix` | src/pages/index.tsx:54-65 | when the current posts have distinct uids they stay, unchanged and in front, in the filtered concatenation, and no new post whose uid they already hold is added |
| `Index.Home.constructor` | src/pages/index.tsx:32-33 | the state starts as the initial page's posts and cursor |
| `Index.Home.LoadPosts` | src/pages/index.tsx:35-66 | without a cursor (absent or empty) nothing changes; a failed request changes nothing; otherwise `nextPage` becomes the page's cursor, a malformed page leaves `posts` as it was, the outcome is `Loaded` exactly when the page is well-formed, and then `posts` becomes the de-duplicated concatenation, which has distinct uids and keeps distinct old posts as its prefix |

## Left out

- `getStaticProps` and the content-service query that builds the first page (src/pages/index.tsx:105-127): a foreign library client and build scheduling; the model starts from a given `PostPagination`.
- The request itself (src/pages/index.tsx:38-40) is I/O and arrives as the `response` parameter. The source requests `postsPagination.next_page`, the initial cursor, on every click rather than the `nextPage` state; because the response is a parameter, which URL is requested is not modelled.
- Rendering, `Head`, icons and the button (src/pages/index.tsx:69-103): presentation without logic.
- The `console.log` calls (src/pages/index.tsx:62, 116): logging only.
- React's batching of `setNextPage`/`setPosts` and overlapping asynchronous `loadPosts` calls: one load runs at a time, and its two state updates are applied in order.
- JavaScript's distinction between a `null` and an `undefined` uid (they differ under `===`): both are the model's `None`.
- Fields of a post's `data` block that are missing are copied as `undefined` by the source; the model gives `title`, `subtitle` and `author` a string always.
- src/pages/post/[slug].tsx (the article page, reading time and navigation) is not part of this model.
