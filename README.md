# Music bot helpers in Dafny

A model of the self-contained helpers of a Discord music bot, with proofs of
what each one promises:

- **`utils.py`**
  - file names cleaned for the file system (`sanitize_filename`)
  - `M:SS` durations (`format_duration`)
  - shortened text (`truncate_text`)
  - Discord mentions and ids (`parse_discord_mention`, `validate_discord_id`)
  - integer conversion with a fallback (`safe_int`)
  - list chunking and order-preserving de-duplication (`chunk_list`, `remove_duplicates_preserve_order`)
  - audio and image extension checks (`is_valid_audio_file`, `is_valid_image_file`)
  - artist and album read off a download path (`extract_metadata_from_path`)
- **`universal_scraper.py`**
  - artist and album from a Quietus page title (`parse_quietus_title`)
  - artist and album from the slug of a RateYourMusic, AlbumOfTheYear, Quietus or Pitchfork review URL (`infer_artist_album_from_url`). The two OpenGraph look-ups over HTTP are taken to fail.
- **`error_handling.py`**
  - the bot's exception classes and the two classifiers `get_error_summary` and `is_retryable_error`
  - the `retry_on_error` loop with exponential back-off
  - `cleanup_resources`
  - the `ResourceManager` context manager

The project has seven modules, one file each:

| file | module | what it holds |
|---|---|---|
| `wrappers.dfy` | `Wrappers` | `Option` |
| `text.dfy` | `Text` | the Python `str` operations the helpers use: `isspace`, `strip`, `split`, `join`, `find`/`rfind`, `lower`, `title`, `replace` |
| `decimal.dfy` | `Decimal` | Python's `int(str)` and `str(int)` for decimal integers: signs, surrounding whitespace, single underscores between digits |
| `utils.dfy` | `Utils` | the `utils.py` helpers |
| `quietus_title.dfy` | `QuietusTitle` | `parse_quietus_title` |
| `url_slugs.dfy` | `UrlSlugs` | the slug rules of `infer_artist_album_from_url` |
| `errors.dfy` | `ErrorHandling` | `error_handling.py` |

How the code is modelled:

- Where the code changes state, the model is imperative.
  - `sanitize_filename` and `remove_duplicates_preserve_order` are methods with loops. `cleanup_resources` and the retry wrapper are too.
  - `ResourceManager` is a class whose `resources` field its methods update.
  - Each method is proved equal to a specification function, and the promises of the source are proved about that function.
- Regular expressions are modelled as leftmost searches over positions.
  - A pattern anchored at the end whose groups exclude `/` is stated on the `/`-separated segments of the URL.
  - The error raised by the wrapped coroutine on its `k`-th call is the `k`-th outcome of a given function.
  - Delays are natural numbers.

## Model

| member | source | states |
|---|---|---|
| Utils.Sanitized | utils.py:33-47 | `sanitize_filename` as a function: the lemmas below prove its result safe, `unknown` for empty or all-whitespace input, and idempotent |
| Utils.SanitizeFilename | utils.py:33-47 | the loop computes `Sanitized(filename)`; the result is a safe file name; an empty input gives `unknown` |
| Utils.ReplaceInvalid | utils.py:39-41 | every one of `<>:"/\|?*` becomes `_` and every other character stays in place, so no invalid character remains |
| Utils.SanitizedStemSafe | utils.py:43-47 | after replacing, cutting to 255 characters and stripping: at most 255 characters, no surrounding whitespace, no invalid character |
| Utils.SanitizedStemOfSpaces | utils.py:47 | an all-whitespace name strips to the empty string |
| Utils.SanitizedIsSafe | utils.py:35-47 | the result is never empty, is at most 255 characters, has no surrounding whitespace and no invalid character; an empty or all-whitespace input gives `unknown` |
| Utils.SanitizedIdempotent | utils.py:33-47 | sanitising a sanitised name changes nothing |
| Utils.FormatDuration | utils.py:151-152 | a non-positive number of seconds gives `0:00` |
| Utils.Pad2Digits | utils.py:156 | `{n:02d}` of a number below 100 is two digits that read back as the number |
| Utils.FormatDurationRoundTrip | utils.py:149-156 | reading `M:SS` back as `60*M + SS`, with exactly two seconds digits below 60, recovers the seconds (0 for a non-positive input) |
| Utils.SliceTo | utils.py:176 | Python's `s[:k]`: `k` characters for `0 <= k <= len`, all of them beyond, and `len + k` (at least 0) for a negative `k` |
| Utils.TruncateText | utils.py:171-176 | an empty or short enough text is returned unchanged; otherwise, with a suffix no longer than the limit, the result is exactly `max_length` long and is the kept prefix followed by the suffix; with a longer suffix, Python's negative slice |
| Utils.TruncateTextDefault | utils.py:171-176 | with the defaults (100, `...`) the result is at most 100 characters, and a longer text keeps its first 97 |
| Utils.ParseDiscordMention | utils.py:179-193 | `parse_discord_mention`: the mention rule first, whose `int()` may raise, then `int()` of the whole string with `ValueError` as `None`; the lemmas below state its cases |
| Utils.MentionDigits | utils.py:184-187 | a found mention is one `s` starts with: `<@` or `<@!`, the returned non-empty digit run, then `>` |
| Utils.MentionDigitsExact | utils.py:184-187 | whenever `s` starts with such a mention, exactly its digits are found; so `None` means `s` starts with no mention |
| Utils.ParseMentionOfId | utils.py:179-187 | `<@id>` or `<@!id>`, whatever follows, yields `id` (for an id of at most 4300 digits) |
| Utils.MentionTooManyDigits | utils.py:185-187 | a mention of more than 4300 digits makes `int()` raise a `ValueError` that escapes |
| Utils.ParseMentionOfNonMention | utils.py:189-193 | a string that starts with no mention, the empty one included, yields exactly what `int()` of it gives, `None` for a `ValueError` |
| Utils.ParseMentionOfNumber | utils.py:189-191 | a plain decimal number as `str` writes it yields its value |
| Utils.ParseMentionOfNumeral | utils.py:189-191 | any text `int()` reads as an optional sign and digits, with surrounding whitespace and leading zeros, yields the signed value |
| Utils.ParseMentionStrayChar | utils.py:189-193 | a non-mention whose stripped text holds a character `int()` cannot read there (not a digit, not `_`, not a leading sign) yields `None` |
| Utils.ParseMentionNeedsDigit | utils.py:179-193 | a string with no digit, the empty one included, yields `None` |
| Utils.ValidateDiscordId | utils.py:196-202 | `validate_discord_id`: `int()` succeeds and `str()` of it has 17 to 20 characters; `ValidateDiscordIdOfShow` and `ValidateDiscordIdRange` state its meaning |
| Utils.ValidateDiscordIdOfShow | utils.py:196-200 | a written-out id is valid exactly when `str(int(id))` has 17 to 20 characters |
| Utils.ValidateDiscordIdRange | utils.py:196-202 | a non-negative id is valid exactly when it lies in [10^16, 10^20) |
| Utils.SafeInt | utils.py:205-210 | `safe_int` for `int`, `str` and `None` values; `SafeIntCases` states it |
| Utils.SafeIntCases | utils.py:205-210 | a decimal string converts to its value; a string with no digit, or a run of more than 4300 digits, gives the default |
| Utils.Chunks | utils.py:221-223 | the slices `lst[i:i+n]` for `i` in steps of `n`; `ChunksSpec` and `ChunksOfFlatten` state them |
| Utils.ChunkList | utils.py:221-223 | `chunk_list` with the `range` step error for size 0; `ChunkListSpec` states it |
| Utils.ChunksSpec | utils.py:221-223 | for a positive size the chunks concatenate back to the list, none is empty, and all but the last have exactly `n` elements (the last at most `n`) |
| Utils.ChunksOfFlatten | utils.py:221-223 | chunking is the inverse of concatenation on well-formed chunk lists |
| Utils.ChunkListSpec | utils.py:221-223 | a zero size is an error (`range` refuses a zero step), a negative size gives no chunks, a positive size gives well-formed chunks of the list |
| Utils.Dedup | utils.py:226-229 | order-preserving de-duplication as a function; `DedupSpec`, `DedupOfDistinct` and `DedupIdempotent` state it |
| Utils.DedupSpec | utils.py:226-229 | the result has the input's elements and no duplicates, and keeps first occurrences in their original order |
| Utils.DedupOfDistinct | utils.py:226-229 | a list without duplicates is returned unchanged |
| Utils.DedupIdempotent | utils.py:226-229 | de-duplicating twice equals de-duplicating once |
| Utils.RemoveDuplicatesPreserveOrder | utils.py:226-229 | the loop with its `seen` set computes `Dedup(lst)`: no duplicates, the same elements, first occurrences in input order |
| Utils.IsValidAudioFile | utils.py:232-237 | the lower-cased name ends in an audio extension; `ExtensionAccepted`, `ValidFileCaseInsensitive` and `AudioAndImageDisjoint` state it |
| Utils.IsValidImageFile | utils.py:240-245 | the lower-cased name ends in an image extension; the same lemmas state it |
| Utils.ExtensionAccepted | utils.py:232-245 | any name ending in a listed extension, in any letter case, is accepted |
| Utils.ValidFileCaseInsensitive | utils.py:232-245 | both checks give the same answer for a name and its lower-case form |
| Utils.ExtensionsEndDifferently | config_constants.py:68-69 | no listed audio extension ends in the same two characters as a listed image extension |
| Utils.AudioAndImageDisjoint | utils.py:232-245 | no name is both an audio file and an image file |
| Utils.ExtractMetadataFromPath | utils.py:110-120 | the last two path components, or `Unknown Artist` and the last one; `ExtractMetadataNoSlash`, `ExtractMetadataOfLayout` and `ExtractMetadataOfName` state it |
| Utils.Components | utils.py:113 | the path components kept are non-empty, are not `.`, and come from the `/`-separated pieces |
| Utils.ExtractMetadataNoSlash | utils.py:110-117 | neither the artist nor the album contains `/` |
| Utils.ExtractMetadataOfLayout | utils.py:113-116 | `/<dir>/<artist>/<album>` yields `(artist, album)` |
| Utils.ExtractMetadataOfName | utils.py:115-117 | a single relative component is the album of `Unknown Artist` |
| Decimal.ParseInt | utils.py:190-193 | `int()` of a string, refusing more than 4300 digits: the lemmas below state it |
| Decimal.ShowInt | utils.py:199-200 | `str()` of an integer; `ParseShowInt` shows `int()` reads it back |
| Decimal.ParseShowInt | utils.py:199-200 | `int(str(n)) == n` for every integer `str()` writes without raising (at most 4300 digits) |
| Decimal.ParseSignedNumeral | utils.py:191 | an optional sign and at most 4300 digits read as the signed value of the digits |
| Decimal.ParseTooManyDigits | utils.py:190-193 | `int()` fails on a run of more than 4300 digits |
| Decimal.ParseIntNeedsDigit | utils.py:190-193 | `int()` fails on a string with no digit |
| Text.TitleIdempotent | universal_scraper.py:96 | title-casing a title-cased string changes nothing |
| QuietusTitle.ParseQuietusTitle | universal_scraper.py:20-36 | `parse_quietus_title` with the intended apostrophe class; the stage lemmas below state each rewrite and `CurlyPossessiveTitle` the whole parse |
| QuietusTitle.ParseQuietusTitleAsWritten | universal_scraper.py:20-36 | `parse_quietus_title` with the apostrophe class as written; `CurlyPossessiveTitle` shows where it differs |
| QuietusTitle.StripSiteSuffix | universal_scraper.py:23 | the result is a prefix of the title |
| QuietusTitle.StripSiteSuffixOf | universal_scraper.py:23 | `<t> \| The Quietus<anything>`, with no `\|` in `t`, becomes `t` without trailing whitespace |
| QuietusTitle.StripSiteSuffixNoBar | universal_scraper.py:23 | a title without `\|` is unchanged |
| QuietusTitle.FirstSiteSuffixAt | universal_scraper.py:23 | the site suffix starts at the first `\|` that is followed, after optional whitespace, by `The Quietus` in any case; earlier `\|`s not so followed are passed over |
| QuietusTitle.StripReviewSuffix | universal_scraper.py:24 | the result is a prefix of the title |
| QuietusTitle.StripReviewSuffixOf | universal_scraper.py:24 | `<t> review` in any letter case becomes `t` without trailing whitespace |
| QuietusTitle.StripReviewSuffixOther | universal_scraper.py:24 | a title that does not end in `review` is unchanged |
| QuietusTitle.AfterColon | universal_scraper.py:25-26 | the colon stage; `AfterColonOf` and `AfterColonNoColon` state it |
| QuietusTitle.AfterColonOf | universal_scraper.py:25-26 | only the stripped text after the first colon is kept |
| QuietusTitle.AfterColonNoColon | universal_scraper.py:25-26 | a title without a colon is unchanged |
| QuietusTitle.RunEnd | universal_scraper.py:30 | the `[\w\s]` run from `i` ends at the first character outside the class |
| QuietusTitle.SecondGroup | universal_scraper.py:30-32 | the second group, once stripped, is the stripped text after the `s` |
| QuietusTitle.PossessiveFrom | universal_scraper.py:30 | `re.search`: the leftmost position where the possessive pattern matches, or none |
| QuietusTitle.SplitArtistAlbum | universal_scraper.py:27-36 | the three splitting rules in order; `SplitAtLastBy`, `SplitOfPossessive` and `SplitOfTokens` state them |
| QuietusTitle.SplitAtLastBy | universal_scraper.py:27-29 | with ` by ` present, the split is at its last occurrence: artist after, album before, both stripped |
| QuietusTitle.SplitOfPossessive | universal_scraper.py:30-32 | with no ` by `, the possessive match gives the stripped run before the apostrophe and the stripped text after `s` |
| QuietusTitle.PossessiveOf | universal_scraper.py:30-32 | `<artist>'s <album>` gives `(artist, album)`, stripped |
| QuietusTitle.PossessiveNone | universal_scraper.py:30 | a title without an apostrophe has no possessive match |
| QuietusTitle.SplitOfTokens | universal_scraper.py:33-36 | with neither ` by ` nor a possessive: two or more tokens give the first and the rest joined by single spaces; fewer give no artist and the stripped text |
| QuietusTitle.TokensOf | universal_scraper.py:33-35 | words joined by single spaces come back as the first word and the rest |
| QuietusTitle.SingleTokenOf | universal_scraper.py:33-36 | a title of at most one token gives no artist and the stripped title |
| QuietusTitle.ParsePlainTitle | universal_scraper.py:22-26 | a title with no `\|`, no colon and no trailing `review` reaches the splitting stage unchanged |
| QuietusTitle.IntendedApostrophes | universal_scraper.py:30 | the intended apostrophe class holds U+2019 and nothing in `[\w\s]` |
| QuietusTitle.CurlyPossessiveAsWritten | universal_scraper.py:30-35 | with the class as written, `<artist>’s <album>` misses the possessive and splits into tokens: the artist keeps `’s` |
| QuietusTitle.CurlyPossessiveIntended | universal_scraper.py:30-32 | with the intended class, `<artist>’s <album>` gives `(artist, album)` |
| QuietusTitle.CurlyPossessiveTitle | universal_scraper.py:20-36 | the whole parse of `<artist>’s <album>`: the as-written version returns `artist’s` as the artist, the corrected one returns `artist` |
| UrlSlugs.InferArtistAlbumFromUrl | universal_scraper.py:38-121 | the site rules in the source's order, with both look-ups failing; the per-site lemmas below state what each URL shape yields |
| UrlSlugs.FromRateYourMusic | universal_scraper.py:39-44 | the RateYourMusic rule; `RateYourMusicOf` states it |
| UrlSlugs.FromAlbumOfTheYear | universal_scraper.py:57-69 | the AlbumOfTheYear rule; `AlbumOfTheYearOf` and `AotyFromWordsSplit` state it |
| UrlSlugs.FromQuietusArticle | universal_scraper.py:71-81 | the Quietus article rule; `QuietusArticleOf` and `QuietusArticleSplit` state it |
| UrlSlugs.FromAlbumOfTheWeek | universal_scraper.py:83-100 | the album-of-the-week rule; `AlbumOfTheWeekBy`, `AlbumOfTheWeekMarkerOf` and `AlbumOfTheWeekOf` state it |
| UrlSlugs.FromPitchfork | universal_scraper.py:112-119 | the Pitchfork rule; `PitchforkOf` and `PitchforkSplit` state it |
| UrlSlugs.RemoveSuffix | universal_scraper.py:86 | `removesuffix`: the suffix is cut when present, otherwise nothing changes |
| UrlSlugs.Segments | universal_scraper.py:40 | the `/`-separated pieces of a URL with one trailing empty piece dropped; none holds `/` |
| UrlSlugs.SegmentsOfJoin | universal_scraper.py:40 | segments joined by `/`, with or without one trailing `/`, split back into those segments |
| UrlSlugs.RateYourMusicOf | universal_scraper.py:39-44 | a URL ending `/release/album/<a>/<b>` (optional `/`) yields `a` and `b` with hyphens as spaces, title-cased |
| UrlSlugs.ArticleWordsOf | universal_scraper.py:72-74 | a URL ending `/articles/<digits>-<w1-...-wn>-review` matches, and its slug words are `w1..wn` |
| UrlSlugs.QuietusArticleOf | universal_scraper.py:71-81 | four or more slug words give a two-word artist, fewer a one-word artist; the rest is the album, title-cased |
| UrlSlugs.QuietusArticleSplit | universal_scraper.py:74-81 | artist and album together are the whole title-cased slug, and a one-word slug has an empty album |
| UrlSlugs.FirstMatch | universal_scraper.py:57 | `re.search`: the leftmost position where the pattern matches, or none |
| UrlSlugs.FirstMatchAtFirstPath | universal_scraper.py:57 | when the first occurrence of the fixed path matches, it is the leftmost match |
| UrlSlugs.SlugGroupOf | universal_scraper.py:113 | after the first occurrence of the path, the group is the longest run of `[a-z0-9-]` |
| UrlSlugs.AlbumOfTheYearGroupOf | universal_scraper.py:57 | `/album/<digits>-<group>.php` at the first `/album/` yields the text up to the first dot |
| UrlSlugs.AlbumOfTheYearOf | universal_scraper.py:39-69 | the slug words decide artist and album; on an AlbumOfTheYear URL without the RateYourMusic host, or where that rule fails, they are the answer |
| UrlSlugs.AotyFromWordsSplit | universal_scraper.py:59-68 | three or more words give the last two as album; two give one each; one gives an empty album; artist and album together are the title-cased slug |
| UrlSlugs.AlbumOfTheWeekBy | universal_scraper.py:85-91 | with or without `-review`, `<album>-by-<artist>` splits at the last `-by-`: hyphens as spaces, title-cased |
| UrlSlugs.RemoveReviewOf | universal_scraper.py:86 | a trailing `-review` is removed, and nothing else |
| UrlSlugs.LastBySep | universal_scraper.py:88 | the last `-by-` is the one before the artist when the artist holds no `-by-` |
| UrlSlugs.MarkerPrefixOfWords | universal_scraper.py:92-97 | two or more words before the marker give the first as artist and the rest as album |
| UrlSlugs.MarkerPrefixOfWord | universal_scraper.py:92-97 | one word before the marker is both the artist and the album |
| UrlSlugs.AlbumOfTheWeekMarkerOf | universal_scraper.py:92-100 | without `-by-`, the text before `-is-our-album-of-the-week` decides |
| UrlSlugs.AlbumOfTheWeekOf | universal_scraper.py:39-100 | a Quietus URL where the RateYourMusic, AlbumOfTheYear and article rules do not apply, through an absent host or a failing rule, takes its answer from the album-of-the-week slug when that slug yields one |
| UrlSlugs.PitchforkOf | universal_scraper.py:39-121 | three or more slug words give the first as artist and the rest as album; when every earlier site's rule is absent or fails, that is the answer, and fewer words give `(None, None)` |
| UrlSlugs.PitchforkSplit | universal_scraper.py:115-118 | artist and album together are the whole title-cased slug |
| UrlSlugs.NoSite | universal_scraper.py:121 | a URL naming none of the four sites yields `(None, None)` |
| ErrorHandling.IsInstance | error_handling.py:15-37 | `isinstance`: the class itself or anything reached through any of its bases |
| ErrorHandling.InstanceTransitive | error_handling.py:15-37 | an instance of a class is an instance of everything that class is an instance of |
| ErrorHandling.NamedBranches | error_handling.py:15-37 | in any hierarchy, the four named bot errors are `BotError`s, and connection errors and time-outs are `OSError`s |
| ErrorHandling.AllExceptions | error_handling.py:15 | every class is an `Exception` |
| ErrorHandling.BotErrorsAreNotOSErrors | error_handling.py:15-37 | with one base per class, no class is both a `BotError` and an `OSError` |
| ErrorHandling.ConnectionErrorsAreNotTimeouts | error_handling.py:153-168 | with one base per class, no class is both a connection error and a time-out |
| ErrorHandling.VoiceTimeoutIsBoth | error_handling.py:141-168 | a class with the bases `VoiceConnectionError` and `TimeoutError` is both a bot error and an `OSError`, is retryable, and gets the voice message |
| ErrorHandling.IsRetryableError | error_handling.py:141-150 | `is_retryable_error`; `RetryableIsOSError` states it |
| ErrorHandling.RetryableIsOSError | error_handling.py:141-150 | in any hierarchy, retryable exactly when an `OSError` (connection and time-out errors are `OSError`s) |
| ErrorHandling.BotErrorsNotRetryable | error_handling.py:141-150 | with one base per class, no bot error is retryable |
| ErrorHandling.GetErrorSummary | error_handling.py:153-168 | each message exactly when its class is the first of Audio, VoiceConnection, Download, Plex, Connection, Timeout the error is an instance of; the generic message exactly when it is an instance of none |
| ErrorHandling.SummaryOfDerived | error_handling.py:153-168 | a subclass with one base gets its base's message |
| ErrorHandling.SummaryOfRetryable | error_handling.py:153-168 | in any hierarchy, a connection error that is not a bot error gets the connection message, and a time-out that is neither a bot error nor a connection error the time-out message, both retryable; with one base per class the extra conditions always hold |
| ErrorHandling.SummaryOfOtherErrors | error_handling.py:153-168 | in any hierarchy, an `OSError` that is not a bot, connection or time-out error gets the generic message, and so does a bot error outside the four named ones that is not an `OSError`; with one base per class the conditions on the other branch always hold |
| ErrorHandling.Retry | error_handling.py:53-75 | the wrapper's result, calls and sleeps as a function; `RetryProperties` states them |
| ErrorHandling.DelaysAt | error_handling.py:59-70 | the k-th sleep lasts `delay * backoff^k`, counting from zero |
| ErrorHandling.FirstSuccess | error_handling.py:61-63 | the first attempt whose call succeeds, with every earlier one failing |
| ErrorHandling.RetryProperties | error_handling.py:53-75 | at most `max_attempts` calls; none, and a `TypeError`, when that is not positive; a result exactly when some attempt succeeds, and then it is the first success's value; one sleep between consecutive calls, none after the last; with every attempt failing, the last error is raised |
| ErrorHandling.RetryOnError | error_handling.py:57-75 | the loop's result, number of calls and sleeps are those of `Retry` |
| ErrorHandling.ChosenHook | error_handling.py:102-107 | `close` if present, else `cleanup`, else `disconnect`, else nothing |
| ErrorHandling.CleanupLog | error_handling.py:98-109 | the attempts `cleanup_resources` makes; `CleanupLogProperties` and `CleanupLogAppend` state them |
| ErrorHandling.CleanupLogProperties | error_handling.py:98-109 | one attempt per resource, in list order, with the chosen hook; a failure is logged and the remaining resources are still attempted |
| ErrorHandling.CleanupLogAppend | error_handling.py:100-109 | cleaning a concatenation is cleaning each part in turn |
| ErrorHandling.CleanupResources | error_handling.py:98-109 | the loop's attempts are `CleanupLog(resources)` |
| ErrorHandling.ResourceManager.constructor | error_handling.py:115-116 | a new manager holds no resources |
| ErrorHandling.ResourceManager.Add | error_handling.py:118-121 | the resource is appended at the end and returned unchanged |
| ErrorHandling.ResourceManager.Enter | error_handling.py:123-124 | entering returns the manager itself |
| ErrorHandling.ResourceManager.Exit | error_handling.py:126-128 | every held resource is cleaned up in order, then the list is empty |

## Left out

- `html.unescape` (universal_scraper.py:22): the title is taken as already unescaped.
- Letter case and character classes are modelled for ASCII only.
  - `\w`, `\d`, `str.lower`, `str.title`, `re.I` and `int()`'s digits cover only the ASCII letters, digits and `_`.
  - Python's Unicode categories are not modelled.
  - Whitespace (`str.isspace`, `\s`) is the full Python set.
- Newlines in regular expressions: the model treats a newline like any other character.
  - `$` is taken to match only at the very end, not before a final newline.
  - `.` is taken to match a newline.
- The HTTP look-ups of `infer_artist_album_from_url` (universal_scraper.py:47-55, 102-110) are taken to fail. They are network I/O.
- `retry_on_error`:
  - Delays and back-off are natural numbers, not floats.
  - The arguments of the wrapped coroutine are not modelled.
  - `asyncio.sleep` timing and the log lines are left out.
  - Exceptions outside `Exception`, such as cancellation, are not modelled.
- BotErrorsAreNotOSErrors: holds only for classes with one base each. A class may derive from both `BotError` and `OSError`, as `VoiceTimeoutIsBoth` shows; no class in error_handling.py does.
- BotErrorsNotRetryable: holds only for classes with one base each, for the same reason.
- ConnectionErrorsAreNotTimeouts: holds only for classes with one base each, for the same reason.
- SummaryOfRetryable: without one base per class, it promises the connection and time-out messages only for classes outside the other branches; a class with several bases takes the first matching branch, as `GetErrorSummary` states.
- SummaryOfOtherErrors: without one base per class, it needs the error to lie outside the other branch, for the same reason.
- The order in which Python looks up a class's bases is not modelled; `isinstance` does not depend on it.
- `asyncio.TimeoutError` is taken to be the built-in `TimeoutError`, as it is from Python 3.11 on.
- The resources that `cleanup_resources` cleans up do nothing except possibly raise an `Exception`. A `BaseException` outside `Exception`, such as cancellation, would stop the loop; it is not modelled. The warning is recorded as a flag rather than logged.
- `handle_errors`, `safe_execute`, `safe_async_execute` and `log_error_context` (error_handling.py:40-95, 131-138) only log and re-raise or return a default.
- The file-system and library-backed helpers of `utils.py` are not modelled:
  - `create_temp_directory`, `cleanup_temp_directory`, `safe_temp_directory_context`, `find_cover_art` and `count_music_files` use the file system.
  - `validate_url`, `sanitize_query` and `is_ignored_domain` depend on `urllib.parse`.
  - `normalize_text` depends on Unicode normalisation.
  - `format_file_size` and `safe_float` compute in floating point.
- Utils.ExtractMetadataFromPath: the `except` branch (utils.py:118-120) is left out, because `PurePosixPath` of a string does not raise.
- Utils.SafeInt: only `int`, `str` and `None` values are modelled. Floats, bytes and other objects are left out.
- Decimal.ShowInt: writes out integers of any length, while Python's `str()` raises a `ValueError` beyond 4300 digits. The lemmas that read a written number back require it to fit (`FitsStrDigits`).
- Utils.FormatDuration: for a number of minutes of more than 4300 digits Python's formatting raises a `ValueError`; the model writes the digits out.
- `MAX_FILENAME_LENGTH` and the extension lists take their default values (config_constants.py:34, 68-69). Environment overrides are left out.
- bot.py is not part of this model. Nor is any session or voice-connection engine, since no shown file contains one.

## Findings

| source | as written | input that shows it | evidently intended | confidence | as-written member | corrected member |
|---|---|---|---|---|---|---|
| universal_scraper.py:30 | the apostrophe class `['â€™]` holds `'`, `â`, `€` and `™`, the UTF-8 bytes of `’` (U+2019) read as Windows-1252 | the title `Portishead’s Dummy`, or any `<artist>’s <album>` whose artist is ASCII word characters: the possessive rule does not fire, and the token rule returns the artist `Portishead’s` | the class `['’]`, giving the artist `Portishead` and the album `Dummy` | high; not executed | QuietusTitle.CurlyPossessiveAsWritten | QuietusTitle.CurlyPossessiveIntended |
