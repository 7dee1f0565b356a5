# Portfolio site: blog listing, repository list and project cards

A Dafny model of the three data pipelines of a personal portfolio site built
with Next.js:

- **Blog** (`src/lib/blog.ts`). `getAllPosts` lists the posts directory, keeps
  the names ending in `.md`, turns each into a `BlogPost` record (slug from
  the file name, metadata from the front-matter with `excerpt` and `tags`
  defaulted, reading time from the body) and sorts the records newest first.
  A missing directory is an empty blog. `getPostBySlug` builds the same record
  for `<slug>.md`, or `null` when that file cannot be read or parsed.
- **GitHub** (`src/lib/github.ts`). `getGitHubRepos` takes the decoded list of
  repositories, drops names starting with `.` and repositories without a
  description, sorts by stars (most first) and keeps at most 200. Any failure
  gives the empty list.
- **Projects** (`src/app/projects/page.tsx`). The card helpers: the language
  colour table with its default, the topic badges (first three topics and a
  `+N more` count) and the description fallback.

The file system, the front-matter parser, the reading-time library and the
HTTP request are inputs of the model:

- the posts directory is a value `PostsDirectory`: `Missing`, or `Present`
  with its entry names and a map from each name that reads and parses to its
  front-matter and body;
- reading time is a function `readingTime: string -> string` of the body,
  passed by the caller;
- the response of `fetch` is a value `Result<Response, FetchError>`, where a
  `Response` carries its `ok` flag and its body decoded as a repository list
  (`None` when decoding throws).

The two in-place `Array.prototype.sort` calls are one generic insertion sort
on an `array` (`Sorting.InsertionSort`), ordered by a total preorder. It is
proved equal to `Sorting.Sort`, a stable insertion sort on sequences, and
`Sort` is proved to order, to permute and to keep tied elements in their
input order, as the ECMAScript sort does since ES2019.
`Array.prototype.filter` is `Seqs.Filter`, with its multiplicities stated
exactly and its order stated by `Seqs.FilterAppend` and `Seqs.FilterSingleton`:
the kept elements stay in their input order.

Files: `wrappers.dfy` (Option, Result), `strings.dfy` (`startsWith`,
`endsWith`, truthiness, JavaScript's `<` on strings and its order lemmas),
`seqs.dfy`, `sorting.dfy`, `blog.dfy`, `github.dfy`, `projects.dfy`.

Three behaviours of the code worth knowing:

- the blog comparator `(a, b) => (a.date < b.date ? 1 : -1)` never returns 0,
  not even for a post compared with itself, so it is not a consistent
  comparator and JavaScript leaves the resulting order to the engine; the
  model sorts newest first, which is what engines deliver in practice when
  every post has a date, puts undated posts last, and promises no tie order
  for posts with equal dates;
- `getAllPosts` does not catch errors: one unreadable post file makes the
  whole listing fail (`Failure(ReadFailed(name))`), it is not skipped;
- the code keeps 200 repositories, although the comment next to the slice
  says 12.

## Model

| member | source | states |
|---|---|---|
| Blog.StripExtension | src/lib/blog.ts:31 | for a name ending in `.md`, slug + `.md` is the name again, so only the final `.md` goes; any other name is left as it is |
| Blog.FileNameOf | src/lib/blog.ts:53 | `<slug>.md` always ends in `.md`, and stripping it gives back the slug |
| Blog.ExcerptOrEmpty | src/lib/blog.ts:41 | `excerpt \|\| ''` is the excerpt when there is one and `''` otherwise; it is empty exactly when the excerpt is falsy |
| Blog.BuildPost | src/lib/blog.ts:37-45 | the record keeps the slug, title, date and body unchanged, takes its reading time from the body, and defaults excerpt to `''` and tags to `[]` |
| Blog.BuildPosts | src/lib/blog.ts:30-46 | the mapping fails exactly when some markdown name cannot be read, naming such a file; on success record i is the record built from name i |
| Blog.UnsortedPosts | src/lib/blog.ts:21-46 | a missing directory gives `[]`; a failure names a listed `.md` entry that cannot be read or parsed; on success there is one record per `.md` entry, record i carrying the slug of entry i |
| Blog.DateComparatorIsInconsistent | src/lib/blog.ts:48 | the comparator compares a post with itself as `-1`, never `0`, so it is not a consistent comparator |
| Blog.ListedBeforeFollowsComparator | src/lib/blog.ts:48 | whenever the comparator puts `b` first because `a`'s date is strictly earlier, the model's listing order puts `b` first too and forbids `a` first |
| Blog.ListedBeforeIsTotalPreorder | src/lib/blog.ts:48 | the listing order (later date first, undated last) is total and transitive, so a sort by it exists |
| Blog.SortedByListedBeforeIsNewestFirst | src/lib/blog.ts:48 | a list sorted by that order never has a post followed by one whose date is strictly later in JavaScript's `<` |
| Blog.SortNewestFirst | src/lib/blog.ts:48 | the sorted records are the stable insertion sort of the input by the listing order: a permutation of it, newest first |
| Blog.GetAllPosts | src/lib/blog.ts:21-49 | missing directory gives `[]`; it fails exactly when the unsorted mapping fails; otherwise the result is a permutation of the mapped records, newest first, and every record comes from a listed `<slug>.md` whose lookup gives the same record |
| Blog.ReorderedPostsAgreeWithLookup | src/lib/blog.ts:51-66 | any permutation of the listing still agrees with `getPostBySlug` record by record |
| Blog.GetPostBySlug | src/lib/blog.ts:51-70 | the result is `null` exactly when `<slug>.md` cannot be read or parsed, and otherwise carries the requested slug |
| Blog.ListedPostsAgreeWithLookup | src/lib/blog.ts:30-46 | every listed record comes from a listed `<slug>.md`, and `getPostBySlug(slug)` returns that same record field for field |
| Blog.OnePostPerMarkdownEntry | src/lib/blog.ts:28-31 | the records' file names are the `.md` entries in listing order: one per `.md` entry, none from any other entry |
| Blog.MissingDirectoryIsEmpty | src/lib/blog.ts:23-25 | a missing directory lists no post, and there no slug is found |
| Blog.ListingFailsOnUnreadableMarkdown | src/lib/blog.ts:27-34 | the listing fails exactly when some `.md` entry cannot be read or parsed; other entries are never opened |
| Blog.ReadingTimeDependsOnContentOnly | src/lib/blog.ts:35 | two files with the same body get the same reading time, whatever their front-matter or slug |
| Blog.ListedSlugsAreDistinct | src/lib/blog.ts:27-31 | when the directory names each file once, no two listed records share a slug |
| Blog.SlugExamples | src/lib/blog.ts:29-31 | `hello-world.md` gives `hello-world`, `notes.md.md` gives `notes.md`, and `draft.mdx` and `README` are not posts |
| Strings.Less | src/lib/blog.ts:48 | JavaScript's `<` on strings holds exactly when some position k decides it: both strings agree before k, and at k the left one ends while the right goes on, or has the smaller character |
| Strings.LessIrreflexive | src/lib/blog.ts:48 | no date string is less than itself |
| Strings.LessAsymmetric | src/lib/blog.ts:48 | two date strings are never each less than the other |
| Strings.LessTransitive | src/lib/blog.ts:48 | `<` on strings is transitive |
| Strings.LessConnected | src/lib/blog.ts:48 | of two different strings one is less than the other |
| Strings.NotLessTransitive | src/lib/blog.ts:48 | "not less than" on strings is transitive, so "at least as late" is a preorder on dates |
| Seqs.FilterDistinct | src/lib/blog.ts:29 | filtering a list without repeats gives a list without repeats |
| Seqs.FilterAppend | src/lib/github.ts:39 | the kept elements of `a + b` are those of `a` followed by those of `b` |
| Seqs.FilterSingleton | src/lib/github.ts:39 | a one-element list keeps its element exactly when `keep` accepts it; with `FilterAppend`, this fixes the order of every result |
| Seqs.Filter | src/lib/github.ts:39 | the filtered list has every kept element as often as the input has it, no other element, and is no longer than the input |
| Sorting.InsertBackPermutes | src/lib/github.ts:40 | putting an element into a list from the back adds exactly that element |
| Sorting.InsertBackSorted | src/lib/github.ts:40 | putting an element into an ordered list from the back keeps it ordered |
| Sorting.InsertBackStable | src/lib/github.ts:40 | putting an element into a list from the back keeps the elements tied with any `c` in their order, and puts the new one behind them when it is tied with `c` |
| Sorting.EquivalentsInOrder | src/lib/github.ts:40 | the elements tied with `c` are listed in their order in the sequence: two places in that list come from two places of the sequence in the same order |
| Sorting.SortIsStableSort | src/lib/github.ts:40 | `Sort` by a total preorder is ordered, a permutation of its input, and lists each class of tied elements in input order |
| Sorting.InsertionSort | src/lib/github.ts:40 | the array ends up equal to `Sort` of what it held: ordered by the given total preorder, a permutation of what it held, tied elements in their old order |
| GitHub.MoreStarredIsTotalPreorder | src/lib/github.ts:40 | the star comparator is total and transitive |
| GitHub.SortedCut | src/lib/github.ts:40-41 | cutting a star-sorted list after n elements removes exactly the tail, and every kept repository has at least as many stars as every removed one |
| GitHub.SortedPrefixIsTop | src/lib/github.ts:40-41 | the first `min(200, n)` elements of the sorted candidates are their top: sorted by stars, a sub-multiset, and none cut while a less starred one stays |
| GitHub.PrefixKeepsTies | src/lib/github.ts:40-41 | the first n elements of a stable sort hold, of each group of equally starred repositories, the first members in their fetched order |
| GitHub.GetGitHubRepos | src/lib/github.ts:17-46 | a thrown fetch, a non-ok response or an undecodable body gives `[]`; otherwise the result has length `min(200, listable)`, only names not starting with `.` with a non-empty description, most stars first, no listable repository cut while a less starred one is kept, and equally starred repositories shown in their fetched order, the first of them kept |
| GitHub.TopListableIsBoundedSelection | src/lib/github.ts:38-41 | the shown list is at most 200 long and takes each repository from the fetched list no more often than it occurs there |
| GitHub.TiedShownInFetchedOrder | src/lib/github.ts:38-41 | for any fetched list without repeats: of two equally starred listable repositories, the later one is shown only when the earlier one is shown too, and behind it |
| GitHub.TiedKeptInOrder | src/lib/github.ts:40-41 | the same, given that the shown list holds of each tie class of the listable candidates its first members in order |
| GitHub.TiesKeepFetchedOrder | src/lib/github.ts:40-41 | when the API sends exactly two different listable repositories with equal stars, both are shown, in that order |
| Projects.LanguageColor | src/app/projects/page.tsx:148-167 | a language in the table gets its table colour, any other language the default `#8b5cf6`; the colour is never empty |
| Projects.WebLanguageColors | src/app/projects/page.tsx:149-165 | JavaScript, TypeScript, PHP, HTML, CSS, Vue and React get their table colours, e.g. TypeScript `#2b7489` |
| Projects.OtherLanguageColors | src/app/projects/page.tsx:149-165 | Python, Java, C++, C, Go, Rust, Swift and Kotlin get their table colours, e.g. Kotlin `#F18E33` |
| Projects.LanguageColorIsCaseSensitive | src/app/projects/page.tsx:166 | `kotlin` and `typescript` fall to the default colour |
| Projects.LanguageDot | src/app/projects/page.tsx:83-93 | a language dot appears exactly when the language is present and non-empty; its colour is never empty: the table's colour for a language the table names, `#8b5cf6` for any other |
| Projects.DescriptionText | src/app/projects/page.tsx:58 | the shown description is never empty: the description when truthy, else "No description available" |
| Projects.TopicBlock | src/app/projects/page.tsx:62-77 | no block exactly when there are no topics; otherwise the badges are the first `min(3, n)` topics in order, `+N more` appears exactly when n > 3, and badges plus N is n |
| Projects.TopicBadgesAccountForAll | src/app/projects/page.tsx:64-76 | the badge topics followed by the hidden ones are the whole topic list, and the hidden ones number N |

## Left out

- File system and working directory: `existsSync`, `readdirSync`, `readFileSync` and `process.cwd()` are replaced by the `PostsDirectory` value; `readdirSync` listing order is whatever that value holds.
- `path.join` normalisation: a slug holding `/` or `..` is looked up as the plain name `<slug>.md`, not as a path that leaves the posts directory.
- The front-matter parser (`gray-matter`): its YAML parsing is an input, and a date it would turn into a `Date` object is treated as the string the record declares.
- The reading-time library: reading time is an uninterpreted function of the body; no words-per-minute behaviour is stated.
- `markdownToHtml`: a wrapper around remark, remark-gfm and remark-html with no logic of its own; the MDX and highlighting setup in `next.config.ts` likewise.
- The network: `fetch`, its URL, headers and revalidation, and `getGitHubUser`, are not modelled; `getGitHubRepos` starts from the outcome of the request. The `console.error` log of the failure is dropped.
- Fork filtering: the comment above the filter mentions it, but the code does not do it, so neither does the model.
- Blog.GetAllPosts: the JavaScript comparator is never consistent (it compares a post with itself as `-1`), so the language leaves the order to the engine. When every post has a date, the model's newest-first order is what engines deliver in practice. With an undated post the comparator answers `-1` both ways, and the program can then list even the dated posts out of order (V8's TimSort takes `[2024 post, undated post, 2020 post]` for one descending run and reverses it to `[2020, undated, 2024]`). The model still promises newest first among the dated posts and places undated posts last, a choice of its own. It promises no tie order for equal dates, although its own sort is stable.
- Strings.Less: JavaScript compares strings by UTF-16 code unit, the model by Unicode scalar value; the two disagree only between characters above U+FFFF and those from U+E000 to U+FFFF.
- GitHub.TiedShownInFetchedOrder: stated for a fetched list in which no repository appears twice, as the API lists each repository once; for a list with repeats, only the class-by-class form inside `TopListable` (`TiesInFetchedOrder`) is promised.
- GitHub.GetGitHubRepos: `stargazers_count` is a JavaScript number, modelled as an unbounded integer; non-integer or NaN counts are not modelled.
- Projects.TopicBlock: the guard `repo.topics &&` for a missing topic list is not modelled; the record declares the list always present.
- Projects.LanguageColor: JavaScript object lookups that hit inherited properties (a language named `constructor`) are not modelled; the table is a plain map.
- Page markup, locale-dependent date formatting, the theme toggle, the analytics script and layout metadata are presentation and are not modelled.
