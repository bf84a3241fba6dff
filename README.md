# WeiboLiveAutoRecord, modelled in Dafny

WeiboLiveAutoRecord is one Python script, `main.py`. It polls a Weibo account's post feed. When a post made today carries a live-stream address, it records that stream with ffmpeg until ffmpeg exits, or until it reports that the stream is gone and is killed. This project models the script's four deterministic pieces and proves properties about them:

- **Feed selection** (`feed.dfy`, module `Feed`): `check_weibo_live` takes the response status and the decoded JSON body. It scans `data.list` in order and returns the first post that was made today and has a non-empty `page_info.media_info.live_ld`. That address comes back with every `.m3u8` replaced by `.flv`. The `for` loop with its early return is the method `CheckWeiboLive`. It is proved equal to the function `Select`, and the lemmas are about `Select`.
- **Same-day filter** (`timestamp.dfy`, module `Timestamp`, with `calendar.dfy`): `is_today` parses `'%a %b %d %H:%M:%S %z %Y'` and converts the instant to local time. It then compares that calendar date with today's local date. The current time and the local UTC offset are parameters (`Clock`). Date arithmetic follows Python's proleptic-Gregorian ordinal (`calendar.dfy`).
- **ffmpeg monitor** (`monitor.dfy`, module `Monitor`): `monitor_ffmpeg` reads ffmpeg's standard error until the stream ends or a line contains `HTTP error 404 Not Found`. On that line it kills the process. The process is a class (`FfmpegProcess`) holding the lines, a read position and a kill count. `MonitorFfmpeg` is the `while True` loop, proved against the function `Watch`.
- **Output file name** (`filename.dfy`, module `Filename`): the recording is named `{uid}-{%Y%m%d_%H%M%S}.mp4`, with the uid fixed in the script.

Shared helpers: `wrappers.dfy` (Option, Result) and `text.dfy`. `text.dfy` holds Python's `in` on strings, `str.replace`, and zero-padded decimal fields.

Exceptions that escape `check_weibo_live` are modelled as `Err` outcomes, not as skips:
- a body that is not JSON;
- a non-empty `created_at` that does not parse.

The date test runs before the `page_info` tests. So a malformed date raises even on a post with no `page_info`.

What `main.py` does not do, and the model therefore does not either:
- there is no configurable recency window: a post counts when it was made on the current local calendar date;
- the `.m3u8` to `.flv` rewrite is unconditional;
- a recording is one output file, with no segmentation, stitching or interrupt handling;
- a body that is not JSON is not treated as "no match": the decoding error propagates.

## Model

| member | source | states |
|---|---|---|
| Text.ContainsIffOccurs | main.py:76 | Python's `in` on two strings holds exactly when the pattern occurs at some position |
| Text.ReplaceAll | main.py:43 | `str.replace` with a non-empty pattern: a string without the pattern comes back unchanged; with a non-empty replacement, the result is empty exactly when the input is |
| Text.ReplaceAt | main.py:43 | `str.replace` keeps the text before the first occurrence, writes the replacement in its place, and rewrites the rest in turn; with the unchanged case above this fixes the result for every input |
| Text.DigitsOfDecimalValue | main.py:52 | a field of ASCII digits that `strptime` reads is exactly the zero-padded rendering of the number it reads |
| Calendar.DaysInMonth | main.py:52 | month lengths as `datetime` validates them: 28 to 31 days, and February has 29 exactly in leap years |
| Calendar.YearLength | main.py:54 | the ordinal that `astimezone` works from counts 366 days in a leap year and 365 otherwise |
| Calendar.OrdinalOfNextDate | main.py:54 | consecutive calendar dates, across month and year ends, have consecutive ordinals, and the next date is valid |
| Timestamp.ConvertDateTime | main.py:52 | date and time fields are accepted only when they form a date-time that `datetime` accepts |
| Timestamp.ConvertOffset | main.py:52 | an accepted `%z` offset is strictly within 24 hours either way |
| Timestamp.Parse | main.py:52 | every accepted timestamp is a valid date-time with an offset under 24 hours |
| Timestamp.ParseFormat | main.py:52 | parsing a rendered timestamp gives it back, whether the offset is written `+HHMM` or `+HH:MM` |
| Timestamp.ParsedIsRendering | main.py:52 | the converse: every string that parses is the rendering of what it parses to, except for the weekday name, the capitalization of the month name, and the sign of a zero offset; so every other non-empty string raises |
| Timestamp.WeekdayNotChecked | main.py:52 | any weekday name is accepted with any date and does not change the result |
| Timestamp.IsToday | main.py:48-57 | an empty string gives `false`; the result is an error exactly when a non-empty string does not parse; a parsed string gives whether its timestamp falls on the current local date (`OnToday`) |
| Timestamp.OnToday | main.py:53-57 | a parsed timestamp is today exactly when its instant lies in the 24 hours that start at the current local midnight (a calendar day, not a rolling window) |
| Timestamp.OnTodayInOwnZone | main.py:53-57 | a timestamp written in the local zone is today exactly when its written date is today's local date |
| Timestamp.SameInstantSameAnswer | main.py:52-57 | two timestamps for the same instant, in any zones and either offset style, give the same answer |
| Feed.ToFlv | main.py:43 | the rewritten address is unchanged when it holds no `.m3u8`, and it is empty exactly when the input is |
| Feed.ToFlvSplit | main.py:43 | the first `.m3u8` becomes `.flv`, the text before it is kept, and the text after it (a query string, say) is rewritten in turn; with `ToFlv`'s unchanged case this fixes every rewrite |
| Feed.NoHlsLeft | main.py:43 | after the rewrite no `.m3u8` remains, and none is formed where a `.flv` meets its neighbours |
| Feed.Examine | main.py:37-44 | one pass of the loop: a post with no `created_at`, or an empty one, is skipped; the post raises exactly when its `created_at` is non-empty and does not parse, whatever the rest of the post holds, and the error names that date |
| Feed.ExamineDatedPost | main.py:38-44 | a dated post yields an address exactly when it is from today and `page_info.media_info.live_ld` is present and non-empty; the address is that `live_ld` rewritten, non-empty and free of `.m3u8` |
| Feed.FirstOutcomeAt | main.py:36-44 | if every earlier post is skipped and post `i` yields an address or raises, that is the outcome of the scan |
| Feed.FirstOutcomeIndex | main.py:36-44 | an address or error from the scan comes from some post, and every earlier post was skipped |
| Feed.NoMatchIffAllSkipped | main.py:36-45 | the scan finds nothing and raises nothing exactly when every post is skipped |
| Feed.LaterPostsIgnored | main.py:36-44 | posts after the one that ends the scan do not affect the outcome, even ones whose dates would raise |
| Feed.Select | main.py:33-45 | a non-200 status, or a body without `data` or `data.list`, gives `None` and raises nothing; a body that is not JSON raises exactly when the status is 200 |
| Feed.SelectedAddress | main.py:36-44 | a returned address is non-empty (so the caller's truthiness test at line 91 sees it), holds no `.m3u8`, and is the rewritten `live_ld` of a listed post made today |
| Feed.CheckWeiboLive | main.py:29-45 | the loop with early return computes exactly `Select` |
| Monitor.FfmpegProcess.constructor | main.py:67 | a new process has its standard-error lines, nothing read yet, and no kill |
| Monitor.FfmpegProcess.ReadLine | main.py:71-72 | `readline` returns the next line and advances, or returns the empty string at end of stream without advancing |
| Monitor.FfmpegProcess.Kill | main.py:78 | a kill adds one to the kill count |
| Monitor.Watch | main.py:70-79 | the watch reads no more lines than exist; if it kills, the last line read holds the 404 message; no earlier line does; without a kill it reads to the end |
| Monitor.WatchStopsAtFirst404 | main.py:76-79 | the first 404 line is where the watch stops, and it kills |
| Monitor.KilledIff404 | main.py:76-79 | a kill happens exactly when some line holds the 404 message |
| Monitor.LaterLinesUnread | main.py:79 | after the 404 line, whatever follows, the watch ends the same way: later lines are not read |
| Monitor.MonitorFfmpeg | main.py:69-79 | the loop leaves the process read exactly as far as `Watch` says and adds one kill if a 404 line was read, otherwise none |
| Filename.TimestampText | main.py:62 | the timestamp is 15 characters: eight digits, `_`, six digits |
| Filename.OutputFilename | main.py:62-63 | the name is the uid, `-`, eight digits, `_`, six digits, then `.mp4`, and the fifteen-character timestamp reads back as the start date-time `dt` |
| Filename.ReadTimestampText | main.py:62 | reading the timestamp back gives the date-time it was written from |
| Filename.DistinctTimesDistinctNames | main.py:62-63 | recordings started at different seconds get different names |

## Left out

- The HTTP session, headers, cookies and the request (main.py:4, 10-19, 24, 26-30). The model takes the status and the decoded body as input.
- All `print` logging (main.py:31-32, 60, 65, 75, 77, 92-98).
- The ffmpeg command line and `subprocess.Popen` (main.py:66-67), and ffmpeg's own behaviour. The process is modelled only as the lines it writes to standard error.
- The monitor thread, `process.wait()` and `join` (main.py:81-85). Concurrency is not modelled: `stderr` is every line ffmpeg ever writes, and its end is end of stream.
- UTF-8 decoding of standard-error lines (main.py:74): lines arrive as text. A decoding error, which would end the monitor thread without a kill, is not modelled.
- The main loop, the global `session` reassignment and `time.sleep` (main.py:88-100). They schedule I/O and have no result to state.
- The unused global `current_date` (main.py:22).
- The system clock and the local time zone (`datetime.now()`, `astimezone()`). They are the parameter `Clock`: the current instant in whole seconds and one fixed local UTC offset. Daylight-saving changes between the post's instant and now are not modelled. The sub-second part of now does not affect the date.
- Timestamp.Parse: accepts a narrower grammar than `strptime`, and rejects forms that `strptime` would accept. Not accepted:
  - any whitespace between fields other than one space (`strptime` turns each space of the format into `\s+`, so several spaces or a tab are accepted);
  - non-ASCII decimal digits in the numeric fields (`strptime` matches them with `\d` without `re.ASCII`, and `int` reads them);
  - one-digit day, hour, minute or second fields;
  - `%z` written with seconds, fractions or `Z`.
- Feed.Select: one `Clock` serves the whole scan, while `is_today` reads `datetime.now()` again for each post (main.py:56). A scan that crosses local midnight, where later posts are compared with the next day, is not modelled.
- Timestamp.IsToday: `OverflowError` from `astimezone` for instants at the very ends of years 1 and 9999 is not modelled; the model uses unbounded integers there.
- Feed.Select: JSON shapes that make the Python code raise `TypeError` or `AttributeError` are not modelled. Examples are a `data` that is a number or `null`, a `data` that is an array or string containing `"list"`, a `page_info` or `media_info` that is `null` in a post dated today, and a `live_ld` that is a non-zero number. A `live_ld` of `0`, `false` or `[]` is falsy and skips the post, as an empty string does. A `data` that is an array without the string `"list"` gives `None`, like an object without `list`; that case is modelled as `Json(Some(Payload(None)))`. Absent and `null` values of `created_at` and `live_ld` are one case (`None`), since the code treats them alike.
- Text.ReplaceAll: requires a non-empty pattern. The code only replaces the constant `.m3u8`.
- Filename.TimestampText: writes years before 1000 with four zero-padded digits. The C library's `%Y` may not pad them. Recording time comes in as local date-time components; converting from the clock is not modelled.
