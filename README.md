# rddt_pimg in Dafny

`rddt_pimg.py` is a small Python 2.7 script. It downloads the best picture from
one subreddit, in five steps:

1. It reads its settings from `settings.cfg`. If the file is missing it writes
   a new one; if a key is missing it appends the key.
2. It picks one of the subreddits named in the settings.
3. It fetches that subreddit's JSON listing and checks its shape.
4. It selects the best picture post (`get_top_rated_image`).
5. It writes the image into the destination directory, under the last path
   segment of its URL.

This project models those steps in Dafny and proves what the script promises
about them.

| file | module | models |
|---|---|---|
| `Wrappers.dfy` | `Wrappers` | `Option` and `Result` |
| `Text.dfy` | `Text` | ASCII lower-casing, digit runs, `int(...)` and `str(...)` on naturals, `re.findall('\w+', ...)`, `str.find`, `os.path.join` |
| `Listing.dfy` | `Listing` | the decoded JSON value, the sanity checks of `fetch_json`, typed entries |
| `Resolution.dfy` | `Resolution` | the leftmost `[<(\[][0-9]+?x[0-9]+?[>)\]]` tag of a title |
| `Config.dfy` | `Config` | `update_settings`: the regular-expression searches over the file text, the file written on a fresh start, and `SETTINGS` as a class updated in place |
| `Urls.dfy` | `Urls` | Python 2.7 `urlparse`: scheme, host, path and parameters; the file name taken from the path |
| `Selector.dfy` | `Selector` | `get_top_rated_image`: the filters, a pure specification of the scan, and the imperative loop proved against it |
| `Download.dfy` | `Download` | `download_image` apart from its I/O: the request, the stops on a bad answer, the file written |
| `Program.dfy` | `Program` | `main`: how the steps are chained, and the exit status |

How the script's inputs appear in the model:

- The network is a pair of parameters. `fetch` gives reddit's answer for a
  listing path (status, body, and the body as `json.loads` decodes it).
  `image` gives the image server's answer for a request.
- `randint` becomes the parameter `choice`. The subreddit used is token
  `choice % n`, where `n` is the number of tokens.
- The settings file is the `file` field of `Config.SettingsStore`, or the
  `file` argument of `Config.Load`. `None` means that `open` failed.

## Model

| member | source | states |
|---|---|---|
| `Listing.CheckListing` | rddt_pimg.py:131-150 | Accepts exactly the well-formed listings: no top-level `error`, a `data.children` list, and in every child a `data` object with all six fields. On success it yields every child's `data` in listing order. A top-level `error` is reported first, then a missing `data`. A missing field names its child and the field. |
| `Listing.CheckChildren` | rddt_pimg.py:142-150 | The loop over the children succeeds iff every child from `i` on is complete. Otherwise it stops at the first incomplete child, naming either the missing `data` or a required field that is absent. |
| `Listing.FirstMissing` | rddt_pimg.py:146-150 | `None` iff `data` has every field from `k` on. Otherwise it returns the first field, in list order, that `data` lacks. |
| `Listing.AllFieldsListed` | rddt_pimg.py:146-147 | Having the six named fields is the same as having every field of `RequiredFields`. |
| `Listing.ToEntry` | rddt_pimg.py:162-203 | A `data` object is read iff its title and URL are strings and its score and votes are numbers. A typed entry carries exactly those decoded values. It is a self post iff `is_self` is JSON `true` (the script tests `is True`). A failure names the entry and a field whose value has the wrong type. |
| `Listing.ToEntries` | rddt_pimg.py:159 | Succeeds iff every `data` object from `i` on is well typed. Then there is one entry per object, in order, each read by `ToEntry`. Otherwise it names the first object that is not well typed. |
| `Listing.FetchListing` | rddt_pimg.py:119-150 | A status other than 200 fails with that status. An empty body fails. A listing that is not well formed is a schema failure. A well-formed listing is accepted iff every child's `data` is well typed, and then the entries are the children's `data` read by `ToEntry`, one per child, in listing order. |
| `Resolution.TagAtMeansShape` | rddt_pimg.py:187-188 | The pattern matches at `i` iff the text there has the tag's shape: an opening bracket, digits, `x`, digits, a closing bracket. The groups are the values of those two digit strings, because a lazy digit run ends only at the first non-digit. |
| `Resolution.FindTagFromNone` | rddt_pimg.py:187-188 | `re.search` from `from` finds no tag iff no position at or after `from` matches. |
| `Resolution.FindTagFromFirst` | rddt_pimg.py:187-188 | A tag found by `re.search` from `from` is the match at the first position at or after `from` that matches. |
| `Resolution.FindTagIsLeftmost` | rddt_pimg.py:187-189 | The tag read from a title is the leftmost match; later tags are never tried. |
| `Text.Lower` | rddt_pimg.py:171 | Lower-casing keeps the length and lower-cases each character. |
| `Text.Show` | rddt_pimg.py:41 | `str(n)` of a natural is a non-empty string of digits. |
| `Text.DecimalOfShow` | rddt_pimg.py:41 | `int(str(n)) == n`, so a number written to the file reads back as itself. |
| `Text.WordTokens` | rddt_pimg.py:243 | Every `\w+` token is non-empty and made of word characters only. |
| `Text.WordTokensCover` | rddt_pimg.py:243 | The tokens, joined, are exactly the word characters of the setting, in order. |
| `Text.WordTokensOfWord` | rddt_pimg.py:243 | A non-empty run of word characters is one token, whole: a token is never split. |
| `Text.WordTokensSplit` | rddt_pimg.py:243 | A non-word character separates the tokens: the tokens of `a`, a non-word character and `b` are the tokens of `a` followed by those of `b`, so no token runs across it. |
| `Text.WordTokensEmpty` | rddt_pimg.py:243-244 | There are no tokens iff the setting has no word character. |
| `Text.JoinPath` | rddt_pimg.py:235 | An absolute name replaces the directory. Otherwise the name follows the directory, with a `/` between them unless the directory is empty or already ends with `/`. |
| `Config.AllowedRunIsMaximal` | rddt_pimg.py:44 | `.*` (or `[0-9]*`) first takes the longest run of allowed characters. |
| `Config.LastTerminatorIsLast` | rddt_pimg.py:44 | The back-off stops at the last `\n` or `$` within reach. It finds none iff there is none. |
| `Config.ValueFromIsLongest` | rddt_pimg.py:44 | The captured value is the longest run of allowed characters that is followed by `\n` or `$`. There is no match at that position iff no run qualifies. |
| `Config.MatchTextIsSlice` | rddt_pimg.py:44 | Matching the literal `key = ` at a position is comparing the text's slice there. |
| `Config.MatchFromIsLeftmost` | rddt_pimg.py:44 | `re.search` finds the leftmost position where the key's pattern matches, and finds none iff it matches nowhere. |
| `Config.SearchDigits` | rddt_pimg.py:82 | The numeric patterns capture only digits. |
| `Config.SearchFindsFirstLine` | rddt_pimg.py:44 | A `key = value` line at the head of the text is matched by that key's pattern, and the match captures `value`. |
| `Config.RenderSearch` | rddt_pimg.py:39-44 | In the file written on a fresh start, each key's search finds exactly the value written for it. |
| `Config.RenderReadsBack` | rddt_pimg.py:36-100 | Loading the fresh-start file gives back the settings it was written from and appends nothing, provided the two text settings hold no newline and no `=`. |
| `Config.SearchAfterLines` | rddt_pimg.py:44 | A key's `key = value` line is found with its value after any number of lines for other keys, provided none of those keys ends with the key. |
| `Config.FlagIsExactlyTrue` | rddt_pimg.py:52-55 | A boolean setting found on its line, after lines for other keys, is true iff its value is exactly `True`. |
| `Config.NumberFromDigits` | rddt_pimg.py:82-84 | A numeric setting found on its line, after lines for other keys, is the decimal value of the digits there. |
| `Config.EmptyNumberFails` | rddt_pimg.py:82-84 | A numeric setting whose line, after lines for other keys, holds no digits makes the update fail, because `int('')` raises. |
| `Config.MissingSubredditKeepsDefault` | rddt_pimg.py:44-49 | A missing subreddit keeps its default. `subreddit = <default>` is appended right after the text read, with no newline. |
| `Config.MissingDestinationKeepsDefault` | rddt_pimg.py:97-104 | A missing destination keeps its default. `destination = <default>` is appended at the very end of the file, with no newline. |
| `Config.AppendedLineIsNotRead` | rddt_pimg.py:44-49 | A `<key> = <value>` appended at the end of a file, with no newline and no `$` in the value, is not matched where it was appended: nothing after it ends the value. |
| `Config.MissingFlagFails` | rddt_pimg.py:52-84 | Any missing boolean or numeric key makes the update fail, with the error of that key or of an earlier boolean or numeric key. When those earlier keys load, the error is the `TypeError` that `''.join` raises on the missing key's bool or int. |
| `Config.SettingsStore.constructor` | rddt_pimg.py:20-28 | The store starts from the default settings and the given file. |
| `Config.SettingsStore.UpdateSettings` | rddt_pimg.py:32-106 | On success, `SETTINGS` and the file become exactly what `Load` computes. On failure, the subreddit is already updated, the destination is not, and the file holds only the subreddit's append. |
| `Urls.SplitScheme` | rddt_pimg.py:166-167 | The scheme is the lower-cased text before the first `:`, and the rest is what follows that `:`. When no scheme is split off, the rest is the whole URL. |
| `Urls.HttpSchemeMeans` | rddt_pimg.py:166-167 | An `http` URL starts with `http:` in some mix of cases. Conversely, a URL starting with `http:` in any mix of cases is `http`, unless the scheme is not written `http` exactly and what follows the `:` is a non-empty run of digits (taken for a port). |
| `Urls.SplitAt` | rddt_pimg.py:210 | `split(c, 1)`: the first part holds no `c`; the parts and `c` rebuild the text when it holds a `c`. |
| `Urls.SplitNetloc` | rddt_pimg.py:210-212 | `//`, the host and the rest rebuild the text. The host holds no `/`, `?` or `#`. The rest starts with one of them, or is empty. |
| `Urls.LastSlashEnd` | rddt_pimg.py:234 | The last segment starts right after a `/` (or at 0) and holds no `/`. |
| `Urls.FileNameIsLastSegment` | rddt_pimg.py:234 | `path.split('/')[-1]` holds no `/` and ends the path, and a `/` comes right before it when it is not the whole path. |
| `Urls.SplitParams` | rddt_pimg.py:234 | `;params` start at the first `;` of the last segment. The path is unchanged when that segment has none. The file name left holds no `;`, and the params hold no `/`, so the split is inside the last segment. |
| `Urls.SplitPath` | rddt_pimg.py:210-214 | The path holds no `?` or `#`. For the schemes with parameters its last segment holds no `;`. |
| `Urls.UrlParse` | rddt_pimg.py:210-214 | Parsing fails iff the host has an unbalanced `[` or `]`. Otherwise the scheme is `Scheme(url)`, the host holds no `/`, `?` or `#`, the path holds no `?` or `#`, and for the schemes with parameters the file name holds no `;`. |
| `Urls.PlainHttpUrl` | rddt_pimg.py:210-214 | `http://host/path`, with a plain host and path, parses into exactly that host and that path. |
| `Urls.HttpFileNameIsPlain` | rddt_pimg.py:234 | The file name taken from a parsed `http` URL's path holds no `/`, `?`, `#` or `;`. |
| `Urls.UnbalancedHttpHostRaises` | rddt_pimg.py:210 | `http://host/path` whose host has a `[` without a `]`, or the other way round, cannot be parsed. |
| `Urls.UnclosedBracketRaises` | rddt_pimg.py:166 | `http://[x/page` cannot be parsed. |
| `Urls.UpperCaseSchemeIsHttp` | rddt_pimg.py:166-167 | `HTTP://x/a.jpg` is an `http` URL. |
| `Selector.Skip` | rddt_pimg.py:159-199 | An entry survives iff it passes every filter and scores at least the best so far. It is skipped for its score iff it passes the first four filters and scores below the best. A vote-ratio skip means quality is enforced and the ratio fails. A resolution skip means resolution is enforced and the tag is missing or too small. These filters apply only to URLs that parse: one that does not stops the selection first (`Selector.FirstRaisingIsFirst`). |
| `Selector.VoteRatioBoundary` | rddt_pimg.py:175-179 | With quality enforced and 3 down-votes, 9 up-votes pass the ratio and 8 do not. |
| `Selector.UpperCaseExtensionQualifies` | rddt_pimg.py:166-173 | `http://x/img.JPG` is an `http` URL with a picture extension. |
| `Selector.HttpsDoesNotQualify` | rddt_pimg.py:166-169 | `https://x/a.jpg` is not `http`. |
| `Selector.WebpDoesNotQualify` | rddt_pimg.py:12 | `.webp` is not one of the five picture extensions. |
| `Selector.Scan` | rddt_pimg.py:153-206 | The index held is always one of the entries. |
| `Selector.StepCases` | rddt_pimg.py:181-203 | One iteration takes the entry iff it is eligible and scores at least the best so far; otherwise the state is unchanged. |
| `Selector.StepKeepsSound` | rddt_pimg.py:155-203 | One iteration keeps the pick sound: the best score stays non-negative and the entry held is eligible with that score. |
| `Selector.StepKeepsBest` | rddt_pimg.py:181-203 | One iteration keeps the best score at least that of every eligible entry seen. |
| `Selector.StepKeepsLast` | rddt_pimg.py:181-203 | One iteration keeps every eligible entry after the pick strictly below the best score. |
| `Selector.ScanPicksLastBest` | rddt_pimg.py:155-206 | Nothing is picked iff no entry is eligible, and `max_score` then stays 0. Otherwise the pick is eligible, has the maximum score among eligible entries, and no later eligible entry ties it: the last of the best wins. |
| `Selector.MaxScoreNeverDecreases` | rddt_pimg.py:181-201 | `max_score` after any prefix of the entries is at most its final value. |
| `Selector.LaterTieWins` | rddt_pimg.py:181-203 | An eligible entry that ties the best score so far replaces the pick. |
| `Selector.NegativeScoreNeverPicked` | rddt_pimg.py:155-201 | No entry with a negative score is ever picked. |
| `Selector.PickPassesFilters` | rddt_pimg.py:159-199 | The pick is not a self post, is `http`, has a picture extension, and meets the 3:1 ratio when quality is enforced. When resolution is enforced, its title's leftmost tag meets both minimums. |
| `Selector.FirstRaisingIsFirst` | rddt_pimg.py:159-167 | Nothing raises iff no entry that is not a self post has a URL `urlparse` rejects. Otherwise the entry found is such an entry and no entry before it is. |
| `Selector.FirstRaisingOfPrefix` | rddt_pimg.py:159-167 | Once an entry has raised, the entries after it change nothing. |
| `Selector.UnparsableUrlAfterPick` | rddt_pimg.py:159-167 | An entry with the URL `http://[x/page` fails the selection whatever entries come before it, eligible ones included. |
| `Selector.GetTopRatedImage` | rddt_pimg.py:153-206 | The loop fails with the index of the first entry whose URL `urlparse` rejects. Otherwise it returns the title and URL of the pick that `Scan` specifies, or two empty strings. |
| `Selector.EmptyUrlMeansNoPick` | rddt_pimg.py:156-206 | The URL returned is empty iff nothing was picked. |
| `Download.RequestFor` | rddt_pimg.py:212-214 | The request goes to the URL's host, for its path, or for `/` when the path is empty. |
| `Download.DownloadImage` | rddt_pimg.py:208-236 | An unparsable URL fails. A status other than 200 fails with that status. An empty body fails. A path whose last segment is empty, `.` or `..` fails, because `open` raises on a path that names a directory. Otherwise the body is written to the path's file name in the destination directory. |
| `Download.JoinedNameIsLastSegment` | rddt_pimg.py:234-235 | A name holding no `/`, joined to the destination, is the last segment of the joined path, which is the destination followed by the name, with a `/` between them where one is needed. |
| `Download.WrittenNameIsPlain` | rddt_pimg.py:234-235 | The file written from an `http` URL sits directly in the destination. Its name is not empty, `.` or `..`, holds no `/`, `?`, `#` or `;`, and is the last segment of the path written. |
| `Download.NoPathNoFileName` | rddt_pimg.py:212-235 | `http://x.jpg` is asked for as `/`. It has no file name, so the download fails: `open` raises on the directory's own path. |
| `Download.DotDotPathNoFileName` | rddt_pimg.py:234-235 | `http://x/..` has the file name `..`, which names the directory above the destination, so the download fails. |
| `Program.ExitCode` | rddt_pimg.py:247-250 | The exit status is 0 iff an image was saved or nothing fitted, and 1 otherwise. |
| `Program.ChooseSubreddit` | rddt_pimg.py:243-244 | There is no subreddit iff the setting has no `\w+` token. Otherwise the subreddit is one of the tokens. |
| `Program.Fetch` | rddt_pimg.py:250 | The download never ends as "no image", and every failure is a download failure. An unparsable URL fails before any request. The exit status is 0 exactly when the URL parses, the server answers 200 with a body, and the path's last segment is not empty, `.` or `..`. A status other than 200 fails with that status, and an empty body fails. A saved file holds the body, under the last path segment in the destination, and was fetched with the request for the parsed URL. |
| `Program.SavedImageWasPicked` | rddt_pimg.py:240-250 | A saved image is the pick of the listing fetched with the loaded settings, and no URL of that listing made `urlparse` raise. The pick is eligible and has a title. The file written is its URL's last path segment, in the destination directory. That segment is not empty, `.` or `..`, and holds no `/`. |
| `Program.NothingFitsExitsCleanly` | rddt_pimg.py:245-249 | When no entry of the listing is eligible and every URL parses, the script downloads nothing and exits with 0. |
| `Program.EmptyTitleDownloadsNothing` | rddt_pimg.py:246-249 | When every URL parses, a pick whose title is empty is not downloaded, although it passed every filter. The exit status is 0. |
| `Program.UnparsableUrlFails` | rddt_pimg.py:240-250 | An entry that is not a self post and whose URL `urlparse` rejects stops the script with status 1, whatever comes before it: the failure names the first such entry. |
| `Program.Execute` | rddt_pimg.py:240-250 | `main` on the settings store, with the loop doing the selection, gives the outcome `Run` specifies. After a successful update, `SETTINGS` and the file are what `Load` computes. After a failed one, the subreddit is updated, the destination is not, and the file holds the subreddit's append. |

## Left out

- Network I/O. `httplib` connections, headers and reading responses are not modelled. Their results (status, body, decoded JSON) are parameters.
- Logging. None of the `logging` calls are modelled.
- `json.loads` is not modelled. The listing is a decoded `Json` value given with the response. Only integral JSON numbers are modelled.
- File I/O. Reading, writing and appending `settings.cfg`, writing the image file, and `os.makedirs` are not modelled. The file is a string, and `Loaded.makesDestination` records whether `os.makedirs` would be reached.
- `os.path.abspath(__file__)` is not modelled. The script's directory is the parameter `scriptDir`.
- The state of the file system is not modelled. On a fresh start the script does not create the destination directory (see below). If that directory is missing, the `open` at line 235 raises `IOError` and the script exits with 1, where `Run` reports the image as saved. Other reasons for `open` to fail, such as permissions, are left out too.
- `randint` is not modelled. Its pick is the parameter `choice`, reduced modulo the number of tokens.
- Dictionary order. The fresh-start file writes `SETTINGS.keys()` in an order the interpreter decides. The model writes them in declaration order.
- Non-ASCII text. `string.lower` and `\w` are modelled on ASCII only.
- `Listing.Has`: the script's `in` tests a non-object value by substring or element search, or crashes. The model treats any non-object as having no fields. A `children` value that is not a list is a `ChildrenNotList` error instead of an iteration over keys or characters.
- `Listing.ToEntry`: every entry needs a string title and URL and a numeric score, ups and downs, or the listing is rejected. The script never reads the URL, score or votes of a self post. Its `int()` also accepts a score written as a numeric string. It processes such listings normally, where the model rejects them.
- `set_as_wallpaper` is read and stored, but the script never uses it, so no wallpaper call is modelled.
- `raw_data is ''` (an identity test) is modelled as equality with the empty string.
- `Program.Execute`: after a failed update, like `Config.SettingsStore.UpdateSettings`, the contract does not say which flags and numbers were already updated.
- `Config.SettingsStore.UpdateSettings`: computes on local copies and writes the fields at each exit, so the order of the single field writes is not modelled. On failure, the contract does not say which flags and numbers were already updated.

Behaviour of the script worth noting, which the model follows:

- Appending a missing key is not idempotent. The subreddit and destination are appended without a newline (`Config.MissingSubredditKeepsDefault`, `Config.MissingDestinationKeepsDefault`). Unless the value holds a `$`, the appended text is not matched where it was appended (`Config.AppendedLineIsNotRead`): the next run does not read the setting back from the text appended for it. A missing boolean or numeric key does not append at all: `''.join` raises `TypeError`, and the update fails (`Config.MissingFlagFails`).
- When there is no settings file, the script writes one and returns before `os.makedirs`. So the destination directory is not created on that run.
- The extension test is on the lower-cased whole URL, query included, not on its path.
- `urlparse` runs on the URL of every entry that is not a self post, before any filter. One URL whose host has an unbalanced `[` or `]` makes the script fail with status 1, even after a good candidate was found (`Program.UnparsableUrlFails`).
- A picked URL whose path ends in `/`, or is empty, such as `http://x.jpg`, leaves no file name. The image is still requested, and then the `open` of the directory's own path raises (`Download.NoPathNoFileName`). A last segment of `.` or `..` names a directory too (`Download.DotDotPathNoFileName`). Since the extension test is on the whole URL, `http://x/..#.jpg` passes the selector and still fails here.
