# Quote keeper: the dashboard's quote collection

The quote keeper is a single-page dashboard. It lists quotes and lets the
user add, edit, delete and search them. All state lives in one page
component. Its only logic is in the four event handlers of
`src/pages/Index.jsx`, which replace the component's list of quotes:

- **add** appends the form's text, author and category under the id
  `length + 1`, then clears the form;
- **update** rewrites every quote whose id equals the id of the quote being
  edited, keeping its id, then clears the form;
- **delete** drops every quote with the given id;
- **search** filters the *shown* list by a case-insensitive substring match
  on the text or the non-empty author. An empty query puts the two initial
  quotes back.

The project is split into four modules:

- `Seqs` (`seqs.dfy`): the array `filter` and `map` the handlers use, and
  the subsequence relation.
- `Text` (`text.dfy`): ASCII lowercasing and substring containment, for
  `toLowerCase` and `includes`.
- `Quotes` (`quotes.dfy`): the quote and form records, the initial quotes,
  the four transforms as functions on `seq<Quote>`, and the lemmas about
  them.
- `IndexPage` (`store.dfy`): the component's state as the class
  `QuoteStore`, with fields `quotes`, `currentQuote`, `newQuote` and
  `searchQuery`. Each handler and each form input is a method that replaces
  those fields.

The model follows the code as written, including where it departs from
what a quote store would usually promise:

- add does not reject empty text;
- update of an id nobody holds changes nothing and signals no error;
- delete removes every quote with the id, not at most one. While the ids
  are unique that is exactly one quote (`Quotes.DeleteRemovesOne`);
- an empty search restores the initial quotes, not the list as it was;
- ids are not kept unique. An add takes the list's length plus one as its
  id, so any earlier shortening of the list can repeat an id.
  `Quotes.DeleteThenAddDuplicatesId` proves that deleting quote 1 from the
  initial list and then adding a quote leaves two quotes with id 2.
  `Quotes.SearchThenAddDuplicatesId` proves the same for a search that keeps
  only the second initial quote, followed by an add.

## Model

| member | source | states |
|---|---|---|
| `Quotes.InitialQuotes` | src/pages/Index.jsx:6-19 | the page starts with two quotes, with ids 1 and 2 |
| `Quotes.Add` | src/pages/Index.jsx:33-39 | the result is one longer than the list, the old quotes come first unchanged and in order, and the last quote has id "length plus one" and the form's text, author and category |
| `Quotes.AddKeepsConsecutiveIds` | src/pages/Index.jsx:36 | when the ids are 1..n in order (no delete or narrowing search happened yet), an add gives ids 1..n+1, so they stay unique |
| `Quotes.AddUniqueIds` | src/pages/Index.jsx:36 | on a list with unique ids, an add keeps the ids unique exactly when no quote already holds id "length plus one" |
| `Quotes.DeleteThenAddDuplicatesId` | src/pages/Index.jsx:36 | the initial ids are unique, but after delete(1) and an add, the two quotes left both have id 2 |
| `Quotes.Update` | src/pages/Index.jsx:46 | the length is kept and every position keeps its id; a quote whose id differs is unchanged; a quote with the id takes the form's text, author and category |
| `Quotes.UpdateAbsent` | src/pages/Index.jsx:46 | an id no quote holds leaves the list unchanged |
| `Quotes.UpdateUniqueIds` | src/pages/Index.jsx:46 | the ids are unique after an update exactly when they were unique before |
| `Quotes.UpdateIdempotent` | src/pages/Index.jsx:46 | a second update with the same id and form changes nothing more |
| `Quotes.Delete` | src/pages/Index.jsx:53 | no quote with the id remains; a quote is in the result exactly when it was in the list and has another id; the result keeps the order of the list; each kept quote keeps all its occurrences |
| `Quotes.DeleteAbsent` | src/pages/Index.jsx:53 | a delete leaves the list unchanged exactly when no quote holds the id |
| `Quotes.DeleteIdempotent` | src/pages/Index.jsx:53 | deleting an id twice equals deleting it once |
| `Quotes.DeleteRemovesOne` | src/pages/Index.jsx:53 | with unique ids, deleting an id that is present makes the list exactly one shorter |
| `Quotes.DeleteUniqueIds` | src/pages/Index.jsx:53 | a delete keeps unique ids unique |
| `Quotes.DeleteAddRoundTrip` | src/pages/Index.jsx:36 | deleting id "length plus one" after an add gives back the list exactly when no quote already held that id |
| `Quotes.Search` | src/pages/Index.jsx:59-63 | an empty query gives the initial quotes; a non-empty one gives an order-preserving subsequence of the list that holds a quote exactly when it matches, with all of that quote's occurrences |
| `Quotes.SearchNarrows` | src/pages/Index.jsx:60 | a second non-empty search gives a subsequence of the first one's result and of the list; it holds the quotes of the list that match both queries |
| `Quotes.SearchEmptyForgetsList` | src/pages/Index.jsx:61-62 | an empty search gives the initial quotes, whatever list was shown |
| `Quotes.SearchIdempotent` | src/pages/Index.jsx:59-63 | repeating a search with the same query changes nothing, for an empty query too |
| `Quotes.SearchThenAddDuplicatesId` | src/pages/Index.jsx:36 | when a non-empty query matches only the second initial quote, searching the initial quotes and then adding leaves two quotes with id 2 |
| `Quotes.SearchIgnoresQueryCase` | src/pages/Index.jsx:60 | searching for the lowercased query gives the same result as searching for the query |
| `Seqs.Filter` | src/pages/Index.jsx:53 | `filter` keeps an element exactly when it satisfies the predicate, and never makes the list longer |
| `Seqs.FilterIsSubsequence` | src/pages/Index.jsx:60 | `filter` keeps the relative order |
| `Seqs.FilterCount` | src/pages/Index.jsx:60 | `filter` keeps all occurrences of an element that passes and none of one that fails |
| `Seqs.FilterAll` | src/pages/Index.jsx:53 | `filter` returns its input exactly when every element passes |
| `Seqs.FilterAppend` | src/pages/Index.jsx:53 | filtering a concatenation is concatenating the filtered parts |
| `Seqs.Map` | src/pages/Index.jsx:46 | `map` keeps the length and applies the function at every position |
| `Seqs.SubsequenceTransitive` | src/pages/Index.jsx:60 | a subsequence of a subsequence is a subsequence |
| `Text.Lower` | src/pages/Index.jsx:60 | lowercasing keeps the length, leaves no capital letter, keeps every other character and moves each capital letter to its small letter |
| `Text.LowerIdempotent` | src/pages/Index.jsx:60 | lowercasing leaves a string unchanged exactly when it has no capital letter, and lowercasing twice is lowercasing once |
| `Text.ContainsAt` | src/pages/Index.jsx:60 | `includes` holds exactly when the needle occurs at some position of the haystack |
| `IndexPage.QuoteStore.constructor` | src/pages/Index.jsx:25-29 | the page starts with the initial quotes, no quote under edit, an empty form and an empty search box |
| `IndexPage.QuoteStore.AddQuote` | src/pages/Index.jsx:32-43 | the list becomes `Add` of the old list and form, the form is cleared, and the rest is unchanged |
| `IndexPage.QuoteStore.UpdateQuote` | src/pages/Index.jsx:45-50 | with a quote under edit, the list becomes `Update` by its id and the form is cleared. With none, the handler throws exactly when the list is non-empty, and then nothing changes |
| `IndexPage.QuoteStore.DeleteQuote` | src/pages/Index.jsx:52-56 | the list becomes `Delete` of the old list and id; nothing else changes |
| `IndexPage.QuoteStore.SearchQuotes` | src/pages/Index.jsx:58-64 | the list becomes `Search` of the shown list and the search box; nothing else changes |
| `IndexPage.QuoteStore.BeginEdit` | src/pages/Index.jsx:80-84 | the pressed quote becomes the quote under edit, and its text, author and category fill the form |
| `IndexPage.QuoteStore.SetText` | src/pages/Index.jsx:119 | only the form's text changes |
| `IndexPage.QuoteStore.SetAuthor` | src/pages/Index.jsx:123 | only the form's author changes |
| `IndexPage.QuoteStore.SetCategory` | src/pages/Index.jsx:127 | only the form's category changes |
| `IndexPage.QuoteStore.SetSearchQuery` | src/pages/Index.jsx:102 | only the search box changes |
| `IndexPage.DeleteThenAddSession` | src/pages/Index.jsx:32-56 | on a fresh page, delete(1) then add leaves the ids `[2, 2]` |
| `IndexPage.SearchSession` | src/pages/Index.jsx:58-64 | on a fresh page, two searches keep the initial quotes matching both queries, and an empty search then brings back the initial quotes |

## Left out

- Rendering: the JSX, the UI components, icons and styling, and the "Unknown" shown for an empty author. These are presentation only.
- Toast notifications. They are UI side effects outside the component's data.
- The `view` state and `renderView`. They are navigation with no data contract; the form and card handlers are modelled without their `setView` calls.
- The category list. The select widget limits what the user can pick, but the handlers store any string, so the model has no membership invariant.
- Text.Lower: models `toLowerCase` on ASCII letters only; the full Unicode case mapping is a library routine.
- React's batching of state updates. Each handler is modelled as one atomic replacement of the state fields it sets.
- A concrete check of one search on the initial quotes (the query "life" keeps only the second quote). The verifier does not evaluate string literals as long as these quote texts.
