# Signup registrar and content pipeline, modelled in Dafny

This project models the two pieces of logic in a small marketing site:

- **The signup registrar** (`app/api/signup/route.ts`, module `Signup` in
  `signup.dfy`). A POST carries an email address. The handler checks its
  shape against `^[^\s@]+@[^\s@]+\.[^\s@]+$`, reads the site's stored list
  of addresses, refuses an address already in the list, and otherwise appends
  it and increments the site's counter. The store is the class
  `SignupList` (fields `emails: seq<string>` and `count: nat`). Its `Register`
  method is proved equal to the pure transition `Step`. The lemmas about
  `Step` and `Replay` (a sequence of requests) state the properties.
- **The content pipeline** (`lib/content.ts`, module `Content` in
  `content.dfy`). `GetAllPosts` keeps the `.md` names of a category's
  directory, strips the suffix to get each slug, loads each post with
  `GetPostBySlug`, drops the ones that fail and sorts the rest with the date
  comparator. The file system is a value: a map from directory path to a
  listing of entries. The front-matter parser, the markdown renderer and date
  parsing are function-valued inputs (`Libraries`). The parser and the
  renderer may fail, shown as `None`. Date parsing cannot fail: it maps a
  date string to an abstract integer timestamp.

`wrappers.dfy` holds the `Option` type used for optional fields and failures.

## Model

| member | source | states |
|---|---|---|
| `Signup.MatchesEmailPattern` | app/api/signup/route.ts:16 | The anchored regular expression read literally: the whole string is three runs without whitespace or '@', joined by '@' and '.'. Any match is at least five characters long. |
| `Signup.IsValidEmail` | app/api/signup/route.ts:16-17 | The validator splits at the first '@'. An accepted string contains an '@' and a '.', and no whitespace anywhere. |
| `Signup.ValidEmailMatchesPattern` | app/api/signup/route.ts:16 | The validator, which splits at the first '@', accepts a string exactly when the anchored regular expression matches it: three non-empty runs without whitespace (the full ECMAScript `\s` set) or '@', joined by '@' and then '.'. |
| `Signup.ValidEmailIsMatch` | app/api/signup/route.ts:16 | Every accepted string matches the pattern. |
| `Signup.MatchIsValidEmail` | app/api/signup/route.ts:16 | Every string the pattern matches is accepted. |
| `Signup.IndexOf` | app/api/signup/route.ts:16 | Returns the position of the first occurrence, or the length when there is none; no earlier position holds the character. |
| `Signup.ValidEmailHasOneAt` | app/api/signup/route.ts:16 | Every accepted address contains exactly one '@'. |
| `Signup.StatusCode` | app/api/signup/route.ts:18-44 | Status 200 is sent for success only, 500 for an internal error only, and 400 for both the invalid and the duplicate cases. |
| `Signup.ErrorMessage` | app/api/signup/route.ts:18-44 | An error message is sent for every outcome except success. |
| `Signup.ResponsesDistinguishOutcomes` | app/api/signup/route.ts:17-45 | The four outcomes produce four different (status, error message) responses. |
| `Signup.Step` | app/api/signup/route.ts:11-47 | One request as a state transition. A non-success outcome leaves the store as it was. The old list is always a prefix of the new one, and the counter minus the list length is kept. |
| `Signup.MalformedBodyIsInternalError` | app/api/signup/route.ts:40-45 | A body that cannot be read (the `request.json()` call at line 13 throws) gives the internal error (500), and nothing changes. |
| `Signup.InvalidEmailRefused` | app/api/signup/route.ts:17-22 | A missing or empty email, or one the pattern does not match, gives InvalidEmail ("Please enter a valid email address"), whatever the list holds, and the store is unchanged. |
| `Signup.AlreadyRegisteredIff` | app/api/signup/route.ts:17-31 | AlreadyRegistered is the outcome if and only if the body parses, the email matches the pattern and it is already in the list. An invalid address is never reported as a duplicate. |
| `Signup.StepSucceedsIff` | app/api/signup/route.ts:13-39 | A request succeeds if and only if its body parses, has an email matching the pattern, and that email is not in the list. On success the email is appended at the end, earlier entries are untouched, and the counter grows by exactly 1. |
| `Signup.FailedStepChangesNothing` | app/api/signup/route.ts:17-31 | Invalid, duplicate and malformed requests leave list and counter unchanged. |
| `Signup.InvalidEmailIndependentOfStore` | app/api/signup/route.ts:17-25 | Validation comes before any store read: whether a request is rejected as invalid does not depend on the store. |
| `Signup.DuplicateRefused` | app/api/signup/route.ts:25-31 | A valid address already in the list (exact, case-sensitive membership) gives AlreadyRegistered, and the store is unchanged. |
| `Signup.RegisterTwice` | app/api/signup/route.ts:25-39 | Registering the same new valid address twice in a row gives Success then AlreadyRegistered. The list grows by exactly one entry in total, and so does the counter. |
| `Signup.StepKeepsNoDuplicates` | app/api/signup/route.ts:25-37 | If the list has no duplicates before a request, it has none after it. |
| `Signup.StepKeepsDrift` | app/api/signup/route.ts:34-37 | the counter minus the list length is the same before and after every request. |
| `Signup.ReplayKeepsInvariants` | app/api/signup/route.ts:25-37 | Over any sequence of requests: the old list stays a prefix, no duplicates appear, only accepted addresses are stored, and the counter minus the list length is kept. |
| `Signup.ReplayFromEmptyCountsList` | app/api/signup/route.ts:34-37 | Starting from an empty store, the counter always equals the list length. |
| `Signup.SignupList.Register` | app/api/signup/route.ts:11-47 | The handler over the mutable store produces the outcome and new state of `Step`. On success the list is the old list plus the address and the counter is one more. Otherwise both are unchanged. It keeps the no-duplicates property. |
| `Content.Lookup` | lib/content.ts:66-72 | Finds an entry of the given name exactly when the directory lists one, and returns that entry. |
| `Content.ReadFile` | lib/content.ts:66-72 | A file is found only inside the category's listable directory, and the entry returned is listed there under that name. Nothing is found exactly when the directory is missing or not a directory, or no entry has the name. |
| `Content.GetPostBySlug` | lib/content.ts:63-96 | A loaded post carries exactly the requested slug and the category's type key. A missing `<slug>.md` gives `None`. |
| `Content.GetPostBySlugFailsOnlyOnFailure` | lib/content.ts:66-95 | The result is `None` exactly when the file is missing or unreadable, or front-matter parsing or rendering fails. No failure escapes. |
| `Content.GetPostBySlugCopiesFrontMatter` | lib/content.ts:72-91 | A loaded post's title, description, date, targetKeywords, ideaName and status equal the parsed front matter, so absent stays absent. Its content is the renderer's output for the body. |
| `Content.SlugOf` | lib/content.ts:47 | For a name ending in ".md", slug + ".md" gives back the name. Other names are left as they are. |
| `Content.SlugOfMarkdownName` | lib/content.ts:47 | Stripping the suffix from slug + ".md" gives back the slug. |
| `Content.MarkdownNames` | lib/content.ts:43-45 | Exactly the listed names that end in ".md" are kept. Each occurs as many times as in the listing, and there are no more names than entries. |
| `Content.MarkdownNamesConcat` | lib/content.ts:43-45 | The `.md` names of two consecutive parts of a listing are those of the first part followed by those of the second, so listing order is kept. |
| `Content.Filter` | lib/content.ts:45 | The result holds exactly the elements that are in the input and satisfy the test, and is no longer than the input. |
| `Content.FilterMultiplicity` | lib/content.ts:45 | A kept element occurs exactly as often as in the input, and a rejected one not at all. |
| `Content.FilterConcat` | lib/content.ts:45 | Filtering a concatenation gives the concatenation of the filtered parts, so the kept elements stay in input order. |
| `Content.Present` | lib/content.ts:50 | The result holds exactly the posts of the non-null lookups, each as many times as it was looked up, and is no longer than the input. |
| `Content.PresentConcat` | lib/content.ts:50 | Dropping the nulls of a concatenation gives the concatenation of the two results, so the loaded posts stay in lookup order. |
| `Content.CompareByDate` | lib/content.ts:51-54 | The comparator is non-zero only when both posts are dated (present and non-empty). For two dated posts it is positive exactly when the first is older, and zero exactly when the two timestamps are equal. |
| `Content.CompareByDateAntisymmetric` | lib/content.ts:51-54 | compare(a, b) = -compare(b, a). |
| `Content.UndatedPostBreaksEquivalence` | lib/content.ts:51-54 | An undated post compares equal to two dated posts that differ from each other, so the comparator is not a consistent ordering for mixed lists. |
| `Content.Insert` | lib/content.ts:51-54 | One step of the stable insertion sort: the result is the input plus the inserted post, as a multiset. |
| `Content.SortByDate` | lib/content.ts:51-54 | Sorting returns a permutation of its input. |
| `Content.InsertKeepsDescending` | lib/content.ts:51-54 | Inserting a dated post into a dated, newest-first list keeps it dated and newest first. |
| `Content.SortByDateDescending` | lib/content.ts:51-54 | When every post is dated, the sorted list is in descending date order. |
| `Content.InsertStablePast` | lib/content.ts:51-54 | When a post is inserted past a strictly newer head, the posts of any one timestamp keep their order. |
| `Content.InsertStable` | lib/content.ts:51-54 | After an insertion, the posts with any one timestamp are those of the list in their old order, with the inserted post first if it has that timestamp. |
| `Content.SortByDateStable` | lib/content.ts:51-54 | When every post is dated, the sort is stable: posts with equal timestamps keep their input order. |
| `Content.GetAllPosts` | lib/content.ts:34-60 | The listing chain (filter, map, filter, sort): every listed post carries the category's type key. |
| `Content.GetAllPostsWithoutDirectory` | lib/content.ts:39-60 | A missing content directory, or a path that cannot be listed, yields the empty list, not an error. |
| `Content.GetAllPostsMultiplicity` | lib/content.ts:44-54 | Each post is listed exactly as many times as `.md` entries load to it. Nothing is lost, added or duplicated between lookup and listing. |
| `Content.GetAllPostsBounded` | lib/content.ts:44-50 | There are never more posts than `.md` entries. |
| `Content.GetAllPostsSound` | lib/content.ts:44-50 | Every listed post comes from an `.md` entry named slug + ".md". It is exactly what `GetPostBySlug` returns for its slug, and it carries the category's type. |
| `Content.GetAllPostsComplete` | lib/content.ts:44-50 | Every `.md` entry whose lookup succeeds appears in the listing. A failing file does not keep the others out. |
| `Content.ListedNameIsFound` | lib/content.ts:45-48 | The path looked up for a listed `.md` name, slug + ".md", is found in the same directory. |
| `Content.LoadedPostsDated` | lib/content.ts:44-50 | If every `.md` file that loads has a non-empty date, every post handed to the sort is dated. |
| `Content.GetAllPostsNewestFirst` | lib/content.ts:44-54 | If every `.md` file that loads has a non-empty date, the listing is dated throughout and sorted newest first. |
| `Content.GetAllPostsStable` | lib/content.ts:44-54 | If every `.md` file that loads has a non-empty date, posts with the same timestamp are listed in directory order. |

## Left out

- HTTP plumbing (`NextResponse.json`, request decoding) is reduced to the `Request` and `Outcome` datatypes. A body that fails to parse, or whose JSON is `null`, becomes `MalformedBody`.
- JSON `email` values that are not strings are not modelled. The regex would test their string conversion, and `includes` would compare them by identity.
- Redis transport failures (`lrange`, `rpush` or `incr` rejecting, the 500 path they lead to, and a partly applied pair of writes) are not modelled. The model has no storage failure path.
- The `Promise.all` concurrent issue of `rpush` and `incr`, and the race between concurrent registrations, are not modelled. Each request is one sequential step, so the no-duplicates and counter-drift results hold only for sequential requests.
- The site identifier and key names are not modelled: one `SignupList` stands for the two keys of one site.
- `console.error` / `console.warn` logging is left out.
- `fs.existsSync`, `readdirSync`, `readFileSync` and `process.cwd()` are replaced by the `FileSystem` value. `path.join` normalisation is not modelled, so a slug that contains '/' or '..' is looked up as a plain name in the category directory.
- Front-matter parsing (gray-matter) and markdown rendering (remark with remark-html) are opaque functions that may fail. Their output format is not modelled. The parser is taken to yield front matter of the declared shape, so a file whose title is missing is not modelled.
- `new Date(...).getTime()` is the abstract `timestamp` function to integers. Unparseable dates (NaN) are not modelled.
- `Array.prototype.sort` is modelled as a stable insertion sort with the source's comparator, stable as the language has required since ES2019. Its order and its stability are claimed only when every post is dated. With undated posts the comparator is not a consistent ordering, the engine's result is unspecified, and the model's particular order is not a claim.
- JavaScript strings are sequences of UTF-16 code units, while a Dafny `string` holds Unicode scalar values. An email or file name containing a lone surrogate, which JSON input can carry, cannot be represented. On every well-formed string the pattern gives the same answer either way, since no surrogate is whitespace or '@'.
