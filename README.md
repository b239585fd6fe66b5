# Quote generator: the quote list and its server sync, in Dafny

This project models the collection core of the quote generator page in
`dom-manipulation/script.js`. It is an ordered list of `{text, category}` quotes,
held in the page's `localQuotes` global. The operations on it are:

- start-up seeding: the stored list, or four built-in quotes;
- `addQuote`: trim both fields, refuse an empty one, otherwise append;
- the category list behind the drop-down: distinct categories in order of first occurrence;
- `showRandomQuote`: pick one quote of the selected category, or say there is none;
- `fetchQuotesFromServer`: keep the first ten remote posts, each as `{text: title, category: "Server"}`;
- `syncQuotes`: append the server quotes that have no local match on both text and category.

Modules:

- `Text` (`text.dfy`): `String.prototype.trim` over the ECMAScript white-space and
  line-terminator characters.
- `Quotes` (`quotes.dfy`): the `Quote` datatype, the category list and the category filter.
- `Server` (`server.dfy`): the post-to-quote mapping, the selection of new server quotes and the merge.
- `Store` (`store.dfy`): class `QuoteStore`, whose `quotes: seq<Quote>` field stands for
  `localQuotes`. It has a constructor for start-up, `AddQuote` and `SyncQuotes`, which change
  the field, and `ShowRandomQuote`, which only reads it.

Where the code and its comment at `script.js:159` disagree, the model follows the code.
That comment says the server "takes precedence". The code does not replace or drop any local
quote. It appends the server quotes that have no local match.

Other behaviour of the code that the model states:

- The sync compares server quotes with the local list only, not with one another. A record
  sent twice in one batch is appended twice (`Server.RepeatedServerRecordIsKept`,
  `Server.NewServerQuotesMultiplicity`). So the merged list is free of duplicates only when
  the batch is (`Server.MergeKeepsNoDuplicates`).
- Server records are neither trimmed nor checked for emptiness. The invariant that every quote
  has non-empty trimmed fields is kept by `AddQuote` in all cases, but by `SyncQuotes` only
  when the fetched batch satisfies it.
- The category filter is exact string equality. No category value is treated specially.
- `JSON.parse(...) || defaults` at `script.js:7` falls back to the built-in quotes whenever the
  decoded value is falsy: no stored entry, or a stored `null`, `false`, `0` or `""`. A stored
  empty list is not falsy and is kept as it is (`Store.QuoteStore.constructor`).

## Model

| member | source | states |
|---|---|---|
| `Text.LeadingWhitespace` | dom-manipulation/script.js:107-108 | the count of leading characters: all of them are white space, and the next one, if any, is not |
| `Text.TrailingWhitespace` | dom-manipulation/script.js:107-108 | the count of trailing characters: all of them are white space, and the one before them, if any, is not |
| `Text.Trim` | dom-manipulation/script.js:107-108 | the result has no white space at either end; it is an infix of the input with only white space around it; it is empty exactly when the input is all white space |
| `Text.TrimIdempotent` | dom-manipulation/script.js:107-108 | trimming an already trimmed string changes nothing |
| `Text.TrimmedIsFixed` | dom-manipulation/script.js:107-108 | a string with no white space at either end is its own trim |
| `Quotes.Categories` | dom-manipulation/script.js:51 | the category list has no duplicates, and a string is in it exactly when some quote has that category |
| `Quotes.FirstIndex` | dom-manipulation/script.js:51 | the index of the first quote with a given category: that quote has the category, and no earlier quote has it |
| `Quotes.FirstIndexOfPrefix` | dom-manipulation/script.js:51 | a category already in a prefix of the list first occurs at the same index in the whole list |
| `Quotes.CategoriesInFirstOccurrenceOrder` | dom-manipulation/script.js:51 | categories are listed in the order of their first occurrence among the quotes |
| `Quotes.CategoriesExample` | dom-manipulation/script.js:51 | categories Motivation, Life, Motivation give the list Motivation, Life |
| `Quotes.FilterByCategory` | dom-manipulation/script.js:65 | a quote is in the filtered list exactly when it is in the list and has the selected category; the filtered list is no longer than the list |
| `Quotes.FilterAppend` | dom-manipulation/script.js:65 | filtering keeps the original order: the filter of a concatenation is the concatenation of the filters |
| `Quotes.FilterMultiplicity` | dom-manipulation/script.js:65 | every copy of a quote of the selected category is kept, and no copy of any other quote |
| `Quotes.FilterEmptyIffNotListed` | dom-manipulation/script.js:65-68 | the filtered list is empty, giving the "no quotes" message, exactly when the category is not in the category list |
| `Quotes.AppendedQuoteIsListed` | dom-manipulation/script.js:114-117 | after a quote is appended, its category is listed, and the quote comes last among that category's quotes |
| `Server.PostsToQuotes` | dom-manipulation/script.js:130-133 | one quote per post, in order; each has the post's title as text and the category "Server" |
| `Server.FetchQuotesFromServer` | dom-manipulation/script.js:125-137 | at most ten quotes; a failed fetch gives none; otherwise the first min(10, n) posts in order, each mapped to its title and "Server" |
| `Server.HasMatch` | dom-manipulation/script.js:161 | a local quote agrees on both text and category exactly when the quote is already in the local list |
| `Server.NewServerQuotes` | dom-manipulation/script.js:160-162 | a quote is selected exactly when it is a server quote with no local match; there are no more of them than server quotes |
| `Server.Merge` | dom-manipulation/script.js:165 | the old list is an unchanged prefix of the result; a quote is in the result exactly when it was local or came from the server |
| `Server.NewServerQuotesAppend` | dom-manipulation/script.js:160-162 | selecting new server quotes keeps server order: it distributes over concatenation of batches |
| `Server.NewServerQuotesMultiplicity` | dom-manipulation/script.js:160-162 | every copy of a server quote with no local match is selected, and no copy of a quote already in the local list |
| `Server.NothingNewIffAllMatched` | dom-manipulation/script.js:164 | nothing is appended exactly when every server quote has a local match |
| `Server.MergeUnchangedWhenAllMatched` | dom-manipulation/script.js:164-169 | when every server quote is already local, the list is left as it was |
| `Server.MergeIdempotent` | dom-manipulation/script.js:160-165 | merging the same batch a second time finds nothing new and changes nothing |
| `Server.MergeKeepsNoDuplicates` | dom-manipulation/script.js:160-165 | a duplicate-free batch merged into a duplicate-free list gives a duplicate-free list |
| `Server.NewServerQuotesNoDuplicates` | dom-manipulation/script.js:160-162 | the new server quotes of a duplicate-free batch are themselves free of duplicates |
| `Server.MergeKeepsWellFormed` | dom-manipulation/script.js:165 | merging a batch of non-empty trimmed quotes into a list of them gives a list of them |
| `Server.RepeatedServerRecordIsKept` | dom-manipulation/script.js:160-162 | a record the server sends twice in one batch is appended twice |
| `Server.MergeExamples` | dom-manipulation/script.js:160-165 | a record on both sides ends up once; a record only on the server side is appended after the local one |
| `Store.DefaultQuotes` | dom-manipulation/script.js:7-12 | the built-in list has four quotes |
| `Store.DefaultQuotesWellFormed` | dom-manipulation/script.js:8-11 | every built-in quote has non-empty trimmed text and category |
| `Store.DefaultCategories` | dom-manipulation/script.js:8-11 | the built-in quotes list the categories Motivation, Life, Happiness, in that order |
| `Store.QuoteStore.constructor` | dom-manipulation/script.js:7-12 | the list is the decoded stored list (an empty one included), or the built-in quotes when the decoded value is falsy; the built-in quotes are well-formed and give three categories |
| `Store.QuoteStore.AddQuote` | dom-manipulation/script.js:106-121 | refused, with the list unchanged, exactly when a field is all white space; otherwise the trimmed pair is appended, with no duplicate check, and the non-empty-trimmed invariant is kept |
| `Store.QuoteStore.SyncQuotes` | dom-manipulation/script.js:156-170 | the new list is the old list followed by the server quotes with no local match; nothing is reported exactly when the list is unchanged, otherwise the count appended; afterwards the same batch has nothing new |
| `Store.QuoteStore.ShowRandomQuote` | dom-manipulation/script.js:63-72 | the "no quotes" message exactly when no quote has the selected category; otherwise the text at an in-bounds index of the quotes of that category, in list order |

## Left out

- The page itself: the notification banner, the `<option>` elements, the add-quote form, the
  display text and the event listeners (`script.js:16-30`, `52-58`, `76-102`, `174-180`). They are
  user-interface code. The outcomes of `AddQuote`, `SyncQuotes` and `ShowRandomQuote` say
  which message would be shown.
- `showNotification` and its four-second timeout, and the ten-second `setInterval` that runs the
  sync (`script.js:34-40`, `183`). These are timers. Each sync is modelled as one call.
- Browser storage and JSON (`script.js:7`, `44-46`). The constructor takes what storage held,
  already decoded; `Stored.Absent` stands for every falsy decoded value. Stored text that fails
  to parse throws at start-up in the page. A stored value that is neither falsy nor a list, such
  as `{}`, is kept by line 7 and then makes the page throw at line 51 during start-up. Neither
  case, nor any write to storage, is modelled.
- The network (`script.js:125-128`, `142-152`). The GET is a `FetchResult` parameter. A post
  keeps only its title; any failure, including a response that is not a list, is `FetchFailed`.
  The POST of a new quote is not modelled; `AddOutcome.Added` carries the quote it would send.
- Server.PostsToQuotes: assumes every post has a string title. A post whose title is missing
  gives a quote with an undefined text in the page; this model has no such value. A `null`
  element among the first ten posts makes `post.title` at line 131 throw, and the catch at
  lines 134-136 returns no quotes for the whole batch; that case is `FetchFailed`.
- Store.QuoteStore.ShowRandomQuote: does not model `Math.random` or the uniform distribution
  (`script.js:70`). The index is any index inside the filtered list.
- The `await` in `syncQuotes`. The model runs each sync as one step on the list as it is at
  that moment. The page does the same, since it reads `localQuotes` only after the fetch returns.
- Strings are sequences of Unicode scalar values, while JavaScript strings are sequences of UTF-16
  code units. A lone surrogate, such as a post title decoded from `"\ud800"`, has no
  representation here. Trimming and equality agree with JavaScript on every string the model
  can represent.
