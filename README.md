# gorest2csv, modelled in Dafny

`gorest2csv.py` fetches every user from the paginated GoRest users endpoint and
writes two CSV reports from the result:

- `active_test_users.csv`: `id,email` for each user whose status is `active` and
  whose email ends with `.test`;
- `domain_counts.csv`: `Domain,count`, tallying users by the last dot-separated part
  of their email domain, in order of first occurrence, with each suffix
  capitalized.

The model covers the three transformations, with the HTTP and file handling taken out:

- **Fetcher** (`fetcher.dfy`): `FetchAllUsers` is a `while` loop over a page source
  modelled as a function from `Request(page, perPage)` to a `Response`. A response
  is either a batch of users or a failure. It is proved against `Collected`, the
  concatenation of pages 1 .. k-1, where k is the first page that is empty or fails.
- **Active-.test filter** (`active_filter.dfy`): `WriteActiveTestUsers` is a `for`
  loop that returns the rows instead of writing them. It is proved against
  `Selected`, the users that pass the filter, in input order.
- **Domain tally** (`domain_counts.dfy`): the suffix expression
  `email.split('@')[1].rsplit('.', 1)[-1]` is modelled through `SplitOn` and
  `RSplitOnce`. The `Counter` is a value made of an insertion-ordered key sequence
  and a map of counts. `TallyDomains` is the counting loop and `WriteDomainCounts`
  writes the rows. Both are proved against `TallyOf(Suffixes(users))`.
- **Text** (`text.dfy`): the Python string operations used above, each defined
  directly or characterised by its contract: first and last index, `split`,
  `rsplit(sep, 1)`, `endswith` and ASCII `capitalize`.

Three details of the script are easy to misread:

- `str.capitalize()` lowercases every character after the first. It does not leave
  them unchanged, so `"COM"` prints as `"Com"`.
- The domain segment is `split('@')[1]`. That is the text between the first `@` and
  the next `@`, not everything after the first `@`: `"a@b@c.d"` has suffix `"b"`.
- Emails with several `@`, with no `.` after the `@`, or ending in `@` or `.` are
  all handled. They are not errors. `"a@"` and `"a@x."` both give the empty suffix.

Records are values (`Users.User` with `id`, an optional `email` and an optional
`status`). A CSV row is a sequence of `Cell`s, each a string or an integer.

## Model

| member | source | states |
|---|---|---|
| `Users.EmailOf` | gorest2csv.py:56 | `u.get('email', '')`: the email, or `""` when the record has none (also used at line 70). |
| `Fetcher.Collected` | gorest2csv.py:24-40 | The users of pages 1 .. n-1, each page appended in turn. It is defined only while none of those pages ends the fetch. |
| `Fetcher.TotalSize` | gorest2csv.py:39 | The sum of the sizes of pages 1 .. n-1, an independent count that `CollectedLength` relates to `Collected`. |
| `Fetcher.FetchAllUsers` | gorest2csv.py:18-43 | For the first page k that is empty or fails: a failure at k gives `TransportError(k)`. Otherwise the result is pages 1 .. k-1 concatenated in order. An empty page 1 gives `[]`. The requests made are exactly pages 1, 2, …, k, each with `per_page` 100. |
| `Fetcher.FirstEndExists` | gorest2csv.py:26-37 | If some page ends the fetch, a first ending page exists. |
| `Fetcher.FirstEndUnique` | gorest2csv.py:35-37 | The page that stops the loop is unique. |
| `Fetcher.CollectedLength` | gorest2csv.py:39 | The collected list is as long as the sum of the page sizes. |
| `Fetcher.CollectedAt` | gorest2csv.py:39-40 | The i-th user of page j sits at the offset of all earlier pages plus i. Page order and order within a page are kept. |
| `ActiveFilter.IsActiveTest` | gorest2csv.py:58 | The status is `Some("active")` and the email, read as `""` when missing, ends with `".test"`. |
| `Text.EndsWith` | gorest2csv.py:58 | `str.endswith`: the suffix is no longer than the string and equals its last characters. |
| `ActiveFilter.UserRow` | gorest2csv.py:59 | The row `[id, email]` of a selected user. |
| `ActiveFilter.Selected` | gorest2csv.py:55-59 | The users that pass the filter, in input order. It is no longer than the input and every element passes the filter. |
| `ActiveFilter.WriteActiveTestUsers` | gorest2csv.py:45-60 | The rows are the header `["id","email"]`, then `[id, email]` for each selected user in order, and nothing else. |
| `ActiveFilter.SelectedCount` | gorest2csv.py:55-59 | A user appears in the output exactly when it passes the filter, as many times as it occurs in the input. |
| `ActiveFilter.SelectedAppend` | gorest2csv.py:55-59 | Selection distributes over concatenation, so relative input order is kept. |
| `ActiveFilter.ExcludedAndIncluded` | gorest2csv.py:56-58 | A missing email, or a missing or non-`"active"` status, excludes a user. `"x.test"` with no `@` qualifies. |
| `ActiveFilter.ExampleSelection` | gorest2csv.py:58 | Of three example users, only the active one ending in `.test` is selected. |
| `Text.FirstIndex` | gorest2csv.py:71-73 | The result is the position of the first occurrence, or the length when the character does not occur. |
| `Text.LastIndex` | gorest2csv.py:73 | The result is the position of the last occurrence, or none when there is none. |
| `Text.SplitOn` | gorest2csv.py:73 | `split` gives at least one part. No part holds the separator, and joining the parts gives the input back. The first part runs up to the first separator. There are two or more parts exactly when the separator occurs. |
| `Text.SplitJoin` | gorest2csv.py:73 | Splitting undoes joining when no part holds the separator. |
| `Text.RSplitOnce` | gorest2csv.py:73 | `rsplit(sep, 1)` gives one or two parts that join back to the input. There are two exactly when the separator occurs, and the last part has no separator. |
| `Text.Capitalize` | gorest2csv.py:82 | The result equals the input up to ASCII case. Its first character is not lower case and no later character is upper case. |
| `Text.CapitalizeIdempotent` | gorest2csv.py:82 | Capitalizing twice is the same as capitalizing once. |
| `Text.CapitalizeCaseInsensitive` | gorest2csv.py:82 | Two strings capitalize alike exactly when they are equal ignoring ASCII case. |
| `DomainCounts.DomainSegment` | gorest2csv.py:73 | `email.split('@')[1]` is the text between the first `@` and the next `@` or the end, and holds no `@`. |
| `DomainCounts.DomainSuffix` | gorest2csv.py:73 | The suffix holds no `.` and ends the segment. It is preceded by a `.` when the segment has one, and is the whole segment when it has none. |
| `DomainCounts.Suffixes` | gorest2csv.py:69-73 | One suffix per user whose email holds an `@`, in input order. There are at most as many suffixes as users, and none holds a `.`. |
| `DomainCounts.AddressCount` | gorest2csv.py:71 | The number of users whose email holds an `@`, at most the number of users. |
| `DomainCounts.SuffixWithoutDot` | gorest2csv.py:73 | A domain with no `.` is its own suffix. |
| `DomainCounts.SuffixAfterLastDot` | gorest2csv.py:73 | The suffix of `local@name.tld` is `tld`. |
| `DomainCounts.SegmentStopsAtSecondAt` | gorest2csv.py:73 | A second `@` ends the domain segment. |
| `DomainCounts.ExampleEmptyDomain` | gorest2csv.py:73 | `"a@"` has the empty suffix. |
| `DomainCounts.ExampleTrailingDot` | gorest2csv.py:73 | `"a@x."` has the empty suffix. |
| `DomainCounts.ExampleNoDot` | gorest2csv.py:73 | `"a@localhost"` has suffix `"localhost"`. |
| `DomainCounts.ExampleSubdomain` | gorest2csv.py:73 | `"user@sub.example.com"` has suffix `"com"`. |
| `DomainCounts.ExampleSecondAt` | gorest2csv.py:73 | `"a@b@c.d"` has suffix `"b"`. |
| `DomainCounts.Counter.Add` | gorest2csv.py:74 | `counter[key] += 1` keeps the counter valid. The key's count goes up by one, with a missing key read as 0, and no other count changes. A new key joins the end of the key order. |
| `DomainCounts.TallyOf` | gorest2csv.py:68-74 | Counting from an empty counter yields a valid counter: distinct keys equal to the counted ones, each count at least 1. |
| `DomainCounts.TallyCounts` | gorest2csv.py:68-74 | A key is counted exactly when it occurs, and its count is its number of occurrences. |
| `DomainCounts.AddKeepsOrder` | gorest2csv.py:74 | If the keys are in first-occurrence order for the suffixes counted so far, counting one more keeps them in that order for the longer sequence. |
| `DomainCounts.TallyOrder` | gorest2csv.py:68-81 | Of any two keys, the earlier one first occurs strictly earlier in the counted suffixes, so keys come in first-occurrence order. |
| `DomainCounts.AddSum` | gorest2csv.py:74 | Each increment adds one to the sum of the counts. |
| `DomainCounts.TallySum` | gorest2csv.py:68-74 | The counts add up to the number of suffixes counted. |
| `DomainCounts.SuffixesLength` | gorest2csv.py:69-73 | There is one suffix per user whose email holds an `@`. |
| `DomainCounts.TallyTotal` | gorest2csv.py:68-74 | The counts add up to the number of users whose email holds an `@`. |
| `DomainCounts.SuffixesAppend` | gorest2csv.py:69-74 | Suffix extraction distributes over concatenation, so input order is kept. |
| `DomainCounts.SuffixesSingle` | gorest2csv.py:70-73 | One user contributes its suffix if its email holds an `@`, and nothing otherwise. |
| `DomainCounts.NoAtSkipped` | gorest2csv.py:71 | A user whose email has no `@` adds no suffix and is not counted. |
| `DomainCounts.TallyRepeatThenNew` | gorest2csv.py:74-81 | Tallying `[x, x, y]` with `x != y` gives keys `[x, y]` with counts 2 and 1. |
| `DomainCounts.TallyTwoKeys` | gorest2csv.py:74 | Distinct keys get separate entries, even when they differ only in case. |
| `DomainCounts.CaseSensitiveKeys` | gorest2csv.py:74 | Tallying `"com"` then `"COM"` gives the two keys `["com", "COM"]`. |
| `DomainCounts.CaseVariantsPrintAlike` | gorest2csv.py:82 | `"com"` and `"COM"` both print as `"Com"`, so the report can hold two `Com` rows. |
| `DomainCounts.SuffixesPush` | gorest2csv.py:69-73 | A user whose email holds an `@` appends its suffix to those of the users before it. |
| `DomainCounts.MailSuffix` | gorest2csv.py:73 | The suffix of `local@mail.tld` is `tld`. |
| `DomainCounts.ExampleSuffixes` | gorest2csv.py:69-73 | Two users on suffix `x` and then one on `y` give the suffixes `[x, x, y]`. |
| `DomainCounts.TallyTwoThenOne` | gorest2csv.py:68-74 | Two users on suffix `x` and then one on a different `y` give the counter with keys `[x, y]` and counts 2 and 1. |
| `DomainCounts.ComOrgRows` | gorest2csv.py:82 | The rows for `com` counted twice and `org` counted once are `["Com", 2]` and `["Org", 1]`. |
| `DomainCounts.TallyDomains` | gorest2csv.py:68-74 | The counting loop ends with exactly the counter `TallyOf(Suffixes(users))`. |
| `DomainCounts.CounterRows` | gorest2csv.py:77-82 | The rows are the header, then `[capitalize(key), count]` for each key of the counter, in key order, and nothing else. |
| `DomainCounts.WriteDomainCounts` | gorest2csv.py:62-83 | The rows are the header `["Domain","count"]`, then `[capitalize(key), count]` for each key of the tally in first-occurrence order. |
| `DomainCounts.DomainRow` | gorest2csv.py:82 | The row `[capitalize(suffix), count]` for one key of the tally. |
| `DomainCounts.ExampleDomainCounts` | gorest2csv.py:62-83 | Users on `a@mail.com`, `b@mail.com` and `c@mail.org`, whatever their local parts, get the rows `Domain,count`, then `Com,2`, then `Org,1`. |

## Left out

- HTTP transport, `raise_for_status` and JSON decoding (gorest2csv.py:28-30) are foreign library calls. They become the page-source function, and any failure is the single outcome `Failed`. The base URL is not modelled.
- Progress `print` calls are purely observational and are left out.
- Opening files and `csv.writer` quoting, escaping and line endings are left out. Reports are returned as sequences of rows. An `IOError` when opening the destination is not modelled.
- `main` and the `__main__` entry point are glue only (gorest2csv.py:85-97). Running the two writers twice gives the same rows, because every model function is deterministic.
- Text.Capitalize: models ASCII case mapping only. Python's full Unicode mapping, including title case for the first character, is not modelled.
- Fetcher.FetchAllUsers: requires that some page is empty or fails. The Python loop does not terminate against a source that never returns an empty page.
- Users.User makes `id` a required field. In Python, `u['id']` raises `KeyError` only for a selected user without an id, and that error is not modelled.
- Users.User makes `email` optional but always a string when present. An email of another JSON type (such as `null`) would make Python raise on `.endswith` or `in`, and that error is not modelled.
