# YouTube downloader server: format listing, title cleaning, link discovery and requests

This project is a Dafny model of the computational core of a small Express server,
`download_youtube_video.js`. The server does four things:

- it finds YouTube links on an arbitrary web page;
- it lists a video's formats in three ranked classes: video-only, audio-only and combined;
- it admits download requests by their query parameters;
- it names the downloaded file by cleaning the video's title. The merge download and the
  direct download clean the title in different ways.

The model follows the code. The fetched page, the video catalog, the URL validator and the
clock are inputs. Everything else is proved about functions over those inputs.

Modules, one file each:

- `Wrappers` (`wrappers.dfy`): `Option` and `Result`.
- `Chars` (`chars.dfy`): the character classes of the regular expressions (`[a-zA-Z0-9]`,
  `\w`, `\s`).
- `Numerals` (`numerals.dfy`): digits in a radix, and the decimal rendering of a number.
- `Seqs` (`seqs.dfy`): `filter` and `map`, the stable `Array.prototype.sort` used with a
  descending numeric comparator, and a JavaScript `Set` read back in insertion order.
- `Formats` (`formats.dfy`): the `/quality` classifier and its quality-label parser.
- `Titles` (`titles.dfy`): the merge route's four-step title cleaner and the direct route's
  one-step cleaner.
- `Links` (`links.dfy`): `extractYoutubeUrls`, as the two loops over frames and anchors
  that the source runs.
- `Requests` (`requests.dfy`): `parseInt` and the `itag` stream filter, admission of both
  download routes, the merge's temporary file names, and the `Content-Disposition` header.

## Model

| member | source | states |
|---|---|---|
| Formats.ParseQualityNone | download_youtube_video.js:151 | A label yields no quality, which makes the comparator throw, exactly when it contains no digit. |
| Formats.ParseQualityAt | download_youtube_video.js:151 | The quality is the value of the maximal run of digits starting at the first digit of the label. |
| Formats.QualityOfRendered | download_youtube_video.js:179 | A number written between a prefix without digits and a suffix that does not continue the digits parses back to that number ("1080p60" gives 1080). |
| Formats.ClassifyFails | download_youtube_video.js:139-181 | The listing fails exactly when the video-only or the combined class has two or more formats and one of them has no quality. A class of one format never fails, because the comparator is not called. |
| Formats.ClassifyPermutes | download_youtube_video.js:139-181 | Each list is a permutation of the projected formats of its class. |
| Formats.ClassifyCounts | download_youtube_video.js:139-181 | The three lists together hold one entry per format with video or audio. Formats with neither are dropped. |
| Formats.ClassifyMembers | download_youtube_video.js:139-181 | An option is in a list exactly when some format of that class projects to it. |
| Formats.ClassifyDisjoint | download_youtube_video.js:139-181 | With unique itags, no two lists share an itag, pair by pair, whichever lists are empty. No format with neither video nor audio shares an itag with a listed option. |
| Formats.ClassifyOrdered | download_youtube_video.js:150-181 | Video-only and combined lists do not increase in quality, and every entry of a list of two or more has a quality. The audio-only list does not increase in bitrate. |
| Formats.ClassifyStable | download_youtube_video.js:150-181 | Options of equal rank keep their catalog order. |
| Formats.ClassifyTwoFormats | download_youtube_video.js:139-181 | A catalog with one 1080p video-only format and one 128 kbps audio-only format lists each alone in its class. |
| Formats.ClassifyUnlabelledFails | download_youtube_video.js:150-153 | As written, a 1080p video-only format next to one without a quality label makes the whole listing fail. |
| Formats.ClassifyRankedSpec | download_youtube_video.js:139-181 | The corrected listing permutes each class, is ordered, keeps catalog order among equal ranks in all three lists, and places every option without a quality after all those with one. |
| Formats.ClassifyRankedAgrees | download_youtube_video.js:139-181 | Wherever the listing as written succeeds, the corrected listing equals it. |
| Seqs.SortDescCharacterized | download_youtube_video.js:150-181 | The modelled sort is the only arrangement that is ordered by key and keeps the order among equal keys, so it is the stable sort's result. |
| Seqs.SortDescShort | download_youtube_video.js:164 | Zero or one element comes back unchanged from the sort. |
| Titles.MergeStemShape | download_youtube_video.js:284-288 | The merge stem has only `[A-Za-z0-9_]`, no doubled `_`, at most 100 characters, and no leading `_`. It ends in `_` only when the trimmed text was longer than 100 characters and the cut falls right after an underscore; a stem shorter than 100 never ends in `_`. |
| Titles.MergeStemAlnum | download_youtube_video.js:284-288 | The stem's letters and digits are a prefix of the title's, and all of them when the stem is shorter than 100. |
| Titles.MergeStemOfPlainTitle | download_youtube_video.js:284-288 | A title of at most 100 ASCII letters and digits is its own stem. |
| Titles.MergeStemCanEndInUnderscore | download_youtube_video.js:285-288 | Because the trim runs before the cut, 99 letters, a space and a letter give a stem ending in `_`. |
| Titles.DirectStemSpec | download_youtube_video.js:389 | The direct stem keeps word and white-space characters with their counts, in order, deletes every other character, and is idempotent. |
| Titles.DirectStemOfPlainTitle | download_youtube_video.js:389 | A title of word and white-space characters is its own stem. |
| Links.ReplaceFirstAt | download_youtube_video.js:30 | `replace` with a string pattern rewrites only the first occurrence. |
| Links.ReplaceFirstAbsent | download_youtube_video.js:30 | A source without `embed/` is kept as it is. |
| Links.CollectFrameUrls | download_youtube_video.js:27-33 | The frame loop leaves the watch form of each YouTube frame address once, in first-seen order. |
| Links.CollectLinkUrls | download_youtube_video.js:35-41 | The anchor loop adds each YouTube anchor address that is not yet in the set, at its end. |
| Links.AddUrl | download_youtube_video.js:24-41 | Adding to the set appends an address it does not hold and leaves it unchanged otherwise. |
| Links.ExtractYoutubeUrls | download_youtube_video.js:20-47 | A page that fails to load gives no links. Otherwise the result is the de-duplicated frame candidates followed by the anchor candidates, with no repetition. |
| Links.PageUrlsSpec | download_youtube_video.js:20-47 | An address is listed exactly when it comes from a YouTube frame or a YouTube anchor, once, in order of first appearance. |
| Links.FramesBeforeAnchors | download_youtube_video.js:27-42 | Every address from a frame comes before every address that only anchors give. |
| Seqs.AddAllDedup | download_youtube_video.js:24-42 | Adding a second list to the set built from a first one gives the set built from both in order. |
| Requests.ParseIntRendered | download_youtube_video.js:299 | `parseInt` of a decimal number, after white space and before a non-digit, gives that number. |
| Requests.ParseIntSigned | download_youtube_video.js:304 | After white space, `-` negates the magnitude that follows and `+` keeps it. |
| Requests.ParseIntUndefined | download_youtube_video.js:396 | `parseInt` of a missing parameter is `NaN`. |
| Requests.ParseIntHex | download_youtube_video.js:396 | `0x89` is read as hexadecimal 137. |
| Requests.SelectedSpec | download_youtube_video.js:299 | The stream filter keeps exactly the formats whose itag equals the parameter's number, in order, all with one itag. It keeps nothing when the parameter is `NaN`. |
| Requests.SelectRenderedItag | download_youtube_video.js:304 | An itag sent as its decimal text selects exactly the formats with that itag. |
| Requests.MissingItagSelectsNothing | download_youtube_video.js:396 | A direct request without an itag selects no format. |
| Requests.MergeOfListedItags | download_youtube_video.js:297-305 | A merge with the decimal itags of two formats streams exactly the formats with those itags. |
| Requests.AdmitMergeSpec | download_youtube_video.js:270-278 | A merge is admitted exactly when all three parameters are non-empty and the URL is valid. Incomplete parameters are answered before the validator is consulted. |
| Requests.AdmitDirectSpec | download_youtube_video.js:377-385 | A direct request is admitted exactly when its URL is non-empty and valid, whatever its itag. Without an itag it streams nothing. |
| Requests.TempFilesDistinct | download_youtube_video.js:291-294 | The video, audio and output paths of one merge are three different files. |
| Requests.TempFilesSeparate | download_youtube_video.js:291-294 | Merges with different timestamps share no temporary file. |
| Requests.TempNameInjective | download_youtube_video.js:292-294 | A temporary file name determines its prefix and its timestamp. |
| Requests.DispositionQuotesStem | download_youtube_video.js:322 | For a stem without quotes, the quoted file name in the header is exactly the stem plus `.mp4`. |
| Requests.StemsQuoteFree | download_youtube_video.js:322 | Neither route's stem contains a quote. |
| Requests.DirectHeaderKeepsLineFeeds | download_youtube_video.js:389-392 | A line feed in the title reaches the direct route's header, because `\s` is kept. |

## Left out

- The routes `/` and `/search`, all HTML generation, and the server start (lines 50-120, 183-256, 407-409): these are presentation and wiring, not computation.
- HTTP fetching (`axios`) and HTML parsing (`cheerio`): `Links.Page` carries the attribute values in document order. A failed fetch or parse is `None`.
- The `/quality` handler's own checks (lines 126-134: a missing URL, then an invalid one) are not modelled separately. They are the same two steps as the direct route's, which `Requests.AdmitDirect` models.
- `ytdl.validateURL` is a function parameter. `ytdl.getInfo` is left out; its catalog and title are inputs.
- ytdl's choice of one format among those the filter passes (the `quality` option) is left out. The model stops at the filtered list.
- Streaming, `Promise.all`, `ffmpeg` and all `fs` calls (lines 308-363) are left out. The `'error'` handlers at lines 312 and 317 listen on the file write streams that `pipe` returns, and `pipe` does not pass on an error of the download stream. So a failed file write rejects `Promise.all`, reaches the handler's `catch` at lines 365-367 and deletes no temporary file. A failed download leaves its promise unsettled. The model claims no clean-up.
- The display strings for fps, bitrate, size and audio quality (lines 147-148, 162, 173-176) are left out: they are formatting only.
- `Date.now()` is a timestamp parameter. Two requests in the same millisecond get the same names; collision freedom is not claimed.
- `Requests.JoinPath`: `path.join` normalises `..`, `.` and doubled separators; the model joins a directory and a plain name with `/` only.
- `Requests.ParseIntJs`: does not model the loss of precision above 2^53, because numbers are unbounded here.
- `Formats.ParseQuality`: does not model the loss of precision above 2^53 of the `parseInt` at lines 151 and 179 either, for the same reason.
- Query parameters given more than once (Express then supplies an array) are not modelled; each parameter is a string or missing.
- `Formats.AudioKey`: does not model an `undefined` bitrate, because the comparator's `NaN` makes the order implementation-defined. `null` is read as 0, as subtraction does.
- The Node.js rules that reject some header values (for example, a line feed) are not modelled. `Requests.DirectHeaderKeepsLineFeeds` only shows that such a character reaches the header value.
- Strings are sequences of characters, so the merge cleaner sees a character outside the Basic Multilingual Plane as one character, while the server sees two UTF-16 units. Both become `_`, and the collapsing step merges them, so the stem is the same.

## Findings

| source | as written | input that shows it | evidently intended | confidence | as-written member | corrected member |
|---|---|---|---|---|---|---|
| download_youtube_video.js:151 | `label.match(/\d+/)[0]` throws for a label without digits or a missing label. The whole `/quality` listing then fails through the handler's `catch`. | Two video-only formats, one labelled `1080p` and one without a label. | Formats without a quality rank after all formats with one, and keep their catalog order. The listing does not fail. | medium, not executed | Formats.ClassifyUnlabelledFails | Formats.ClassifyRankedSpec |
