# Blog and résumé site: the list, detail and résumé logic

The repository is a personal site with two front ends: a Next.js client and an Angular client. It serves blog posts from a JSON index plus one Markdown body per post, and it has a résumé page. This project models the logic of that site that is more than markup:

- **The Next.js post list** (`JsString`, `JsArray`, `JsNumber`, `NextHome`):
  - It filters out deleted posts and sorts the rest newest first, stably.
  - It attaches each post's fetched body.
  - The component state is modelled as the class `NextHome.Home`: `posts`, `currentPosts`, `pageIndex`, `totalPosts` and `loading`.
  - Pages are five posts each. The page count and the Prev/Next disabled rules are modelled.
  - The card preview takes the first three non-blank lines, cut at 200 characters, with `...` always appended.
  - The reading time is `ceil(tokens / 200)` followed by " min read", where the tokens come from `split(/\s+/)`.
- **The Angular homepage** (`NgPosts`, `Homepage`):
  - The component is the class `Homepage.HomepageComponent`.
  - The index is sorted in place in an `array`.
  - The page is a slice of the posts, initially two per page.
  - The paginator event sets the page index and the page size.
  - The loop that fetches bodies assigns each post's `content`. A post is a class object, so the page shown shares the records and sees the bodies.
- **The Angular post view** (`BlogPostView`):
  - `post` starts as null and `loading` as true.
  - Looking up the index gives either "not found" (not loading) or "found, body pending".
  - When the body arrives, the view is "found with body".
  - Its own reading-time figure is 0 for no body.
- **The résumé page** (`Resume`):
  - the day count since 2022-03-16 and its bucketed experience text (`29 Days`, `1M+`, `2M`, `1Y 1M`, `2Y`)
  - the vCard text behind the contact QR code
  - the browser title, in which only the first space of the name becomes `_`

Each JavaScript primitive that the sources rely on is modelled once, with its edge cases:

- `String.prototype.split` with a character separator, and `join`
- `trim` and `split(/\s+/)`, using the ECMAScript whitespace and line-terminator set
- `Array.prototype.slice`, including negative and out-of-range indices
- `filter` and `find`
- the engine's stable `sort` with a numeric comparator
- `Math.ceil` of an integer quotient
- `${n}` for a natural number
- `String.prototype.replace` with a string pattern, which replaces only the first match

Dates are integers: milliseconds since the epoch, already parsed. Network results and the clock are parameters of the methods. A body fetch is a function from a file name to `Option<string>`, where `None` means the request failed. The local calendar day, month and year of "now" are also parameters.

In these places the code behaves as follows, and the model does the same:

- The Angular homepage and post view do not filter out `deleted` posts. Their post type has no such field.
- In the Next.js list, one failed body fetch fails the whole load: `Promise.all` rejects and `posts` stays as it was. Siblings are not kept.
- In the Angular post view, a failed request has no error handler. No callback runs, so `loading` stays true. There is no "not found" outcome for that case.
- 400 words separated by single spaces read in 2 minutes (`NextHome.ReadingTimeOfWords`). With a trailing line break they count as 401 tokens and read in 3 minutes (`NextHome.ReadingTimeTrailingNewline`).

## Model

| member | source | states |
|---|---|---|
| NextHome.ListedByDateSpec | nextjs-app/src/app/page.tsx:36-38 | no listed post is deleted; every non-deleted post of the index is kept as often as it occurs and deleted ones never; dates are non-increasing; posts with equal dates keep their index order |
| NextHome.ListedByDateExample | nextjs-app/src/app/page.tsx:36-38 | for the index `[a, b (deleted), c]` with `a` older than `c`, the list is `[c, a]` |
| JsArray.FilterMultiset | nextjs-app/src/app/page.tsx:37 | `filter` keeps every occurrence of each element that passes and no element that fails |
| JsArray.FilterAll | nextjs-app/src/app/page.tsx:37 | `filter` returns its input unchanged exactly when every element passes |
| JsArray.SortDescPermutation | nextjs-app/src/app/page.tsx:38 | the sort is a permutation of its input |
| JsArray.SortDescSorted | nextjs-app/src/app/page.tsx:38 | the sorted keys are non-increasing |
| JsArray.SortDescStable | nextjs-app/src/app/page.tsx:38 | elements with equal keys stay in input order |
| JsArray.SortedStableUnique | nextjs-app/src/app/page.tsx:38 | two sorted, stable permutations of the same list are equal, so any stable engine sort gives one result |
| JsArray.StableSortIsSortDesc | nextjs-app/src/app/page.tsx:38 | any sorted, stable permutation of the input is the modelled sort |
| NextHome.WithBodiesSpec | nextjs-app/src/app/page.tsx:41-46 | attaching fetched bodies keeps the order, the length and every field except `content`, which then holds exactly the text fetched for that post's file |
| NextHome.Home.constructor | nextjs-app/src/app/page.tsx:14-19 | the first state: no posts, page 0, count 0, loading |
| NextHome.Home.LoadPosts | nextjs-app/src/app/page.tsx:29-56 | afterwards `loading` is false and `totalPosts` counts `posts`; after a successful load `posts` is the filtered and sorted index with its bodies; after any failure `posts` and `totalPosts` are as before; the page index is unchanged |
| NextHome.Home.UpdateCurrentPosts | nextjs-app/src/app/page.tsx:58-61 | the current page is the page of `posts` at `pageIndex` for page size 5 |
| NextHome.Home.HandlePageChange | nextjs-app/src/app/page.tsx:79-81 | only the page index changes, to the value given |
| NextHome.LoadAndShowFirstPage | nextjs-app/src/app/page.tsx:21-61 | after a successful load and its effect, the page shown is exactly the first `min(5, n)` listed posts with their bodies: newest first, none deleted, each with a body |
| JsArray.PageBlock | nextjs-app/src/app/page.tsx:58-61 | for a non-negative index, the page is `posts[s .. min(s + size, n))` with `s = index * size`; it has at most `size` posts and is empty when `s >= n` |
| JsArray.PageElement | nextjs-app/src/app/page.tsx:58-61 | post `k` of the list appears on page `k div size`, at position `k mod size` |
| JsArray.JsSliceNonNegative | nextjs-app/src/app/page.tsx:60 | `slice` with non-negative bounds is the subsequence between the clamped bounds |
| JsArray.JsSliceElement | src/app/layout/homepage/homepage.component.ts:44 | element `k` of a slice is element `start + k` of the list, with a negative start resolved against the length |
| NextHome.PageCountSpec | nextjs-app/src/app/page.tsx:177 | for a non-negative index, a page is non-empty exactly when the index is below `ceil(n / 5)` |
| NextHome.NextDisabledSpec | nextjs-app/src/app/page.tsx:181 | Next is disabled exactly when the following page would be empty, so it is disabled with no posts |
| NextHome.ButtonsKeepPageInRange | nextjs-app/src/app/page.tsx:169-181 | from page 0, or from any page inside the page range, an enabled Next leads to the following page and an enabled Prev to the preceding page, both inside the range |
| NextHome.GetPostPreview | nextjs-app/src/app/page.tsx:63-69 | empty content gives the empty preview; otherwise the preview ends in `...`, has 3 to 203 characters, and what precedes `...` is the first `min(200, L)` characters of the joined preview lines, where `L` is their length |
| NextHome.PreviewLinesSpec | nextjs-app/src/app/page.tsx:65-66 | the preview lines are the first `min(3, k)` of the `k` lines whose trim is not empty, in order and untrimmed; none holds a line break and each has a visible character |
| NextHome.PreviewAtMostThreeLines | nextjs-app/src/app/page.tsx:65-68 | the text before `...` splits at line breaks into at most three lines |
| NextHome.PreviewShowsWholeLines | nextjs-app/src/app/page.tsx:65-68 | when the joined lines fit in 200 characters, the preview is exactly the lines joined by line breaks, then `...`, and it splits back into those lines |
| JsString.TrimEmptyIff | nextjs-app/src/app/page.tsx:65 | `trim()` is empty exactly when every character is whitespace |
| JsString.SplitJoin | nextjs-app/src/app/page.tsx:65-67 | splitting the join of pieces that lack the separator gives back the pieces |
| JsString.JoinSplit | nextjs-app/src/app/page.tsx:65-67 | joining the split pieces with the separator gives back the text |
| NextHome.GetReadingTime | nextjs-app/src/app/page.tsx:71-77 | the text is digits followed by " min read" |
| NextHome.ReadingTimeSpec | nextjs-app/src/app/page.tsx:71-77 | the text is the minute figure `m` in plain decimal, then " min read", so empty content gives exactly `1 min read`; `m` is at least 1; for non-empty content `m` is the least number with `1 + runs <= 200 * m`, where `runs` counts maximal whitespace runs |
| NextHome.ReadingTimeMonotone | nextjs-app/src/app/page.tsx:74-75 | for any two contents, including empty ones, more tokens never show fewer minutes |
| NextHome.ReadingTimeIs | nextjs-app/src/app/page.tsx:75-76 | for non-empty content the minute figure of the text is the ceiling of tokens over 200 |
| NextHome.ReadingTimeOfWords | nextjs-app/src/app/page.tsx:74-75 | `w` words separated by single spaces read in `ceil(w / 200)` minutes; 400 words read in 2 |
| NextHome.ReadingTimeTrailingNewline | nextjs-app/src/app/page.tsx:74-75 | the same words followed by one line break count one token more: `ceil((w + 1) / 200)`; 400 words read in 3 |
| JsString.TokenCountRuns | nextjs-app/src/app/page.tsx:74 | `split(/\s+/).length` is one more than the number of maximal whitespace runs |
| JsString.SplitWsWords | nextjs-app/src/app/page.tsx:74 | words joined by single spaces split back into those words |
| JsNumber.CeilDiv | nextjs-app/src/app/page.tsx:75 | `r` is the ceiling of `a / b`: `a <= r * b < a + b` |
| JsNumber.CeilDivMonotone | nextjs-app/src/app/page.tsx:75 | the ceiling quotient is monotone in the dividend |
| JsNumber.ParseNatToString | nextjs-app/src/app/page.tsx:76 | the decimal text of a number reads back as that number |
| JsNumber.NatToString | nextjs-app/src/app/page.tsx:76 | the text is non-empty decimal digits, starting with `0` only for zero |
| Homepage.HomepageComponent.constructor | src/app/layout/homepage/homepage.component.ts:19-23 | no posts, empty page, page size 2, page 0, count 0 |
| Homepage.HomepageComponent.LoadPosts | src/app/layout/homepage/homepage.component.ts:31-40 | the received array, sorted in place, becomes `posts`: a permutation of what arrived, dates non-increasing, the modelled stable sort; the count is its length; the page is recomputed for the unchanged page index and size |
| JsArray.SortInPlace | src/app/layout/homepage/homepage.component.ts:35 | the array afterwards holds the stable newest-first sort of its old contents |
| Homepage.HomepageComponent.UpdateCurrentPosts | src/app/layout/homepage/homepage.component.ts:42-45 | the page is the slice of `posts` at `pageIndex * pageSize` |
| Homepage.HomepageComponent.ReceiveContent | src/app/layout/homepage/homepage.component.ts:50-52 | the body lands on post `i` only; the order, the length and the other posts' bodies are unchanged |
| Homepage.HomepageComponent.LoadPostContents | src/app/layout/homepage/homepage.component.ts:47-54 | each post whose fetch succeeded holds its own file's body, the others keep theirs, and the posts of the page shown hold the same bodies |
| Homepage.HomepageComponent.OnPageChange | src/app/layout/homepage/homepage.component.ts:56-60 | index and size come from the event, the page is recomputed, and `posts` and the count are unchanged |
| JsArray.FirstIndex | src/app/layout/blog-post/blog-post.component.ts:34 | `find` picks the first matching entry; no match means no entry matches |
| BlogPostView.BlogPostComponent.constructor | src/app/layout/blog-post/blog-post.component.ts:19-20 | no post, loading |
| BlogPostView.BlogPostComponent.OnIndex | src/app/layout/blog-post/blog-post.component.ts:31-46 | with a match, the post becomes the first entry named by the route, the body is requested and loading continues; with none, the post is unchanged and loading stops |
| BlogPostView.BlogPostComponent.OnContent | src/app/layout/blog-post/blog-post.component.ts:38-41 | the current post receives the body and loading stops; with no post nothing changes |
| BlogPostView.BlogPostComponent.GetReadingTime | src/app/layout/blog-post/blog-post.component.ts:48-54 | 0 exactly when there is no post, no body or an empty one; otherwise the least `m >= 1` with `1 + runs <= 200 * m` |
| BlogPostView.OpenPost | src/app/layout/blog-post/blog-post.component.ts:31-46 | opening a listed post shows a record with that file name and its body, stops loading, and the reading time is 0 only for an empty body |
| BlogPostView.LateBodyLandsOnNextPost | src/app/layout/blog-post/blog-post.component.ts:24-46 | if a second route's body arrives before the first route's, the first body is written to the second post, the one `post` names when the callback runs |
| Resume.DiffDays | src/app/layout/resume/resume.component.ts:37-39 | whole days between now and 2022-03-16, a started day counting: `abs <= d * day < abs + day` |
| Resume.DiffDaysSymmetric | src/app/layout/resume/resume.component.ts:38 | an offset before the reference date gives the same count as the same offset after it; the count is 0 only at the reference instant |
| Resume.ExperienceTextMeans | src/app/layout/resume/resume.component.ts:41-60 | the text reads back as a meaning of the day count: days under 30; whole 30-day months under 12, with `+` exactly when days are left over; otherwise years of 12 months and the months left, ignoring leftover days; and the text is the one spelling of that meaning, in plain decimal, with the months part left out when no months are left |
| Resume.ReadMonths | src/app/layout/resume/resume.component.ts:44-51 | from 30 to 359 days the text reads back as the whole months, with `+` exactly for a remainder |
| Resume.ReadYears | src/app/layout/resume/resume.component.ts:52-60 | from 360 days the text reads back as the years and the months left |
| Resume.DescribesUnique | src/app/layout/resume/resume.component.ts:41-60 | each day count has exactly one meaning |
| Resume.ReadCanonical | src/app/layout/resume/resume.component.ts:41-60 | a text that reads back is exactly the spelling of its meaning: number in plain decimal, then the unit, years without a zero months part |
| Resume.ReadInjective | src/app/layout/resume/resume.component.ts:41-60 | two texts that read back as the same meaning are the same text |
| Resume.ExperienceTextDetermined | src/app/layout/resume/resume.component.ts:41-60 | any text that reads back as a description of the day count is exactly the text the getter shows, so the text is determined by the day count |
| Resume.ExperienceDaysExample | src/app/layout/resume/resume.component.ts:41-42 | 29 days give `29 Days` |
| Resume.ExperienceMonthsExample | src/app/layout/resume/resume.component.ts:44-51 | 45 days give `1M+`, 60 give `2M` |
| Resume.ExperienceYearsExample | src/app/layout/resume/resume.component.ts:52-60 | 400 days give `1Y 1M`, 730 give `2Y` |
| Resume.ResumeComponent.YearsOfExperience | src/app/layout/resume/resume.component.ts:35-63 | the getter's text reads back as the meaning of the day count since the reference date, and it is the one spelling of that meaning |
| Resume.VCardFraming | src/app/layout/resume/resume.component.ts:23-32 | for every profile, line breaks in its fields included, the card starts with `BEGIN:VCARD` and `VERSION:3.0`, each followed by a line break, and ends with `END:VCARD` and a line break |
| Resume.VCardLines | src/app/layout/resume/resume.component.ts:23-32 | for fields without line breaks, the card's lines are BEGIN, VERSION 3.0, N, ORG, TITLE, EMAIL, TEL with `+91` before the phone text, ADR, END, then the empty text after the final break |
| Resume.ResumeComponent.VCardData | src/app/layout/resume/resume.component.ts:22-33 | for every profile the card opens with the BEGIN and VERSION 3.0 lines and closes with the END line and a final break; when no field holds a line break it also has exactly ten line-break-separated parts, and its TEL line is `+91` and the phone text |
| Resume.VCardTwoWordName | src/app/layout/resume/resume.component.ts:25 | for the name `A B`, the N line is `N:B;A` |
| Resume.VCardOneWordName | src/app/layout/resume/resume.component.ts:25 | a one-word name gives `N:undefined;` and the name |
| JsString.ReplaceFirst | src/app/layout/resume/resume.component.ts:19 | the length is unchanged; without a match nothing changes; otherwise only the first match is replaced |
| Resume.PageTitleName | src/app/layout/resume/resume.component.ts:19 | the title starts with `Resume_`, then the name with only its first space replaced by `_`, then `_dotNET_n_Angular__`; the timestamp and date parts that follow are not described |
| Resume.ResumeComponent.constructor | src/app/layout/resume/resume.component.ts:16-20 | the profile and the creation instant are kept, and the title is the one built from them |

## Left out

- Network I/O, `fetch`, `HttpClient`, subscriptions and the `Promise.all` fan-out are not modelled. A load is modelled once its requests have settled. The results are parameters: the parsed index, or `None` when fetching or parsing the JSON failed, and a body per file name, or `None` when that request rejected. In the Next.js client, `fetch` resolves for a response with an HTTP error status and `text()` gives its body, so such a response is a fetched text there. The Angular components use `HttpClient`, which reports an HTTP error status as an error; their subscriptions have no error handler, so no callback runs and such a response is a failed request (`None`) there.
- The Next.js `useEffect` scheduling is not modelled. The effect that recomputes the page is a separate call, `NextHome.Home.UpdateCurrentPosts`, made after a state change: `NextHome.LoadAndShowFirstPage` makes it after a load.
- Rendering is not modelled: JSX, ReactMarkdown, remark-gfm, rehype-highlight, Prism, Tailwind, `resolveConfig`, Angular Material and the QR code. These are foreign libraries and presentation.
- `date-fns` `format`, `new Date(string)` parsing and its NaN outcomes are not modelled. Dates are already-parsed millisecond integers, so the sort's comparator is an exact integer difference.
- Strings are sequences of characters, while JavaScript counts UTF-16 code units. The 200-character cut of the preview and `length` differ from the model for text outside the Basic Multilingual Plane.
- For the résumé title, the local time zone is not modelled. The calendar day, month and year of the creation instant are parameters. The `Title.setTitle` call is modelled only as the string it receives, which is the `title` field.
- `HumanService` and its profile data are not part of this model. The profile is a `Resume.Human` value.
- `arrayOfString` has no behaviour beyond a type cast.
- The routing module, `main.ts` and the `[filename]` page of the Next.js app are not part of this model.
- An index entry without a `deleted` field is modelled with `deleted` false, which is what `!post.deleted` makes of it.
- Homepage.HomepageComponent.LoadPosts requires the received records to be distinct objects. A parsed JSON array always consists of fresh objects, and the requirement is needed for the per-post body assignments to stay separate.
- Homepage.HomepageComponent.LoadPostContents models the settled state after all callbacks ran, not the order in which they ran. Each callback writes to a different post, so the order does not change the outcome.
- The vCard is modelled as the code writes it. Its lines end in a bare line feed rather than CRLF, and it has no FN line, which the vCard 3.0 standard (RFC 2426, section 3.1.1) requires.
- BlogPostView.BlogPostComponent.OnContent models the callback when `post` is null as changing nothing, because `this.post!.content` throws before `loading` is set.
