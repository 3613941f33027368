# daily: a verified model of the date resolver and the flat-file entry store

`daily.py` is a small command-line journal. It keeps free-text entries per
calendar day, one text file `<YYYY-MM-DD>.txt` per day in an entries
directory. This project models its core in Dafny:

- **`Daily`** turns a date token into a date key:
  - `today`/`t` and `yesterday`/`y` become today's or yesterday's key;
  - `last`/`l` becomes the most recent day with entries;
  - anything else must look like `YYYY-MM-DD`.

  It also finds that most recent day by looking back at most 30 days. It
  reads a day's entries and falls back to the most recent day, with a
  warning, when the asked-for day has none. Adding, deleting and editing are
  passed on to the store.
- **`FsDriver`** is the store. It appends a line to a day's file, reads the
  file back the way `readlines()` does, removes a day's file, and removes a
  file that an edit left empty.

Files:

- `calendar.dfy`: the proleptic Gregorian calendar of `datetime.date`, day
  arithmetic (`date + timedelta(n)`), and the `%Y-%m-%d` text form.
- `resolver.dfy`: `lower()`/`strip()` of a token, the `YYYY-MM-DD` check,
  the keywords, and `compute_date`.
- `store.dfy`:
  - `readlines()` over a file's text;
  - the file name of a day;
  - the `Result` record;
  - `class FsDriver`, whose `files` field maps a file name to the file's
    text and is updated in place by adding, removing and editing.
- `journal.dfy`:
  - the 30-day lookback as a specification function (`Latest`), with its
    properties;
  - `class Daily`, whose methods are proved against `Latest`, the store and
    the resolver.
- `wrappers.dfy`: `Option`.

Two facts about the code that a reader might not expect, both modelled as
the code has them:

- The code checks only the shape of a date token, not whether it names a
  real day, so `2024-13-45` is accepted. `ValidateDate` and `TranslateDate`
  accept it too.
- `readlines()` keeps the line separator, so after writing `"x"` the last
  line read back is `"x" + os.linesep`, and only when the file already
  ended with a line break; see `AppendLine` and `AppendToUnterminated`.

## Model

| member | source | states |
|---|---|---|
| Calendar.DaysInMonth | daily.py:48 | every month has 28 to 31 days, and February has 29 exactly in leap years |
| Calendar.NextDay | daily.py:48 | the next day is a real day, later than the given one, with no real day in between |
| Calendar.PrevDay | daily.py:48 | the previous day is a real day, earlier than the given one, and its next day is the given day |
| Calendar.PrevDayOfNextDay | daily.py:48 | stepping a day forward and then back returns the same day |
| Calendar.AddDays | daily.py:48 | `date + timedelta(n)` is a real day; it is the same day exactly when n is 0, earlier for negative n and later for positive n |
| Calendar.AddDaysBackStep | daily.py:66-68 | going back i + 1 days is going back i days and then one more |
| Calendar.FurtherBackIsEarlier | daily.py:66-68 | a day further back is strictly earlier, so the 30 days looked at are pairwise distinct |
| Calendar.IsDateShape | daily.py:19 | the pattern `^\d{4}-\d{2}-\d{2}$`: ten characters, ASCII digits at 0-3, 5-6 and 8-9, and '-' at 4 and 7 |
| Calendar.Format | daily.py:49 | `strftime("%Y-%m-%d")` of a day: never empty; its shape and read-back are stated by FormatRoundTrip |
| Calendar.FormatRoundTrip | daily.py:17-19 | `strftime("%Y-%m-%d")` of a day in the years 0..9999 has the `YYYY-MM-DD` shape and reads back as that day |
| Calendar.FormatOfDateOf | daily.py:17-19 | a `YYYY-MM-DD` string that names a real day is exactly the formatting of that day |
| Calendar.FormatInjective | daily.py:49 | two days of the years 0..9999 get the same key exactly when they are the same day |
| Resolver.IsSpace | daily.py:52 | the characters `strip()` removes: the code points of Python's `str.isspace()` |
| Resolver.LowerChar | daily.py:52 | `lower()` maps an ASCII capital to its small letter and leaves every other character alone |
| Resolver.Lower | daily.py:52 | `lower()` keeps the length and lowers each character |
| Resolver.LeadingSpaces | daily.py:52 | counts exactly the whitespace run at the start of the string |
| Resolver.TrailingSpaces | daily.py:52 | counts exactly the whitespace run at the end of the string |
| Resolver.Strip | daily.py:52 | `strip()` is empty exactly for all-whitespace input, and otherwise starts and ends with a non-whitespace character |
| Resolver.StripSplit | daily.py:52 | what `strip()` keeps is a slice of the input with only whitespace before and after it |
| Resolver.StripExactly | daily.py:52 | a slice surrounded by whitespace, and not starting or ending with whitespace, is exactly what `strip()` returns |
| Resolver.StripAround | daily.py:52 | whitespace put around a string that does not start or end with whitespace is removed by `strip()` |
| Resolver.StripPadding | daily.py:52 | whitespace put around any string does not change what `strip()` returns |
| Resolver.StripIdempotent | daily.py:52 | stripping twice is stripping once |
| Resolver.Normalize | daily.py:52 | `special_date.lower().strip()`: lower-casing and then stripping the token |
| Resolver.NormalizeIgnoresPadding | daily.py:52 | surrounding whitespace does not change the normalised token |
| Resolver.NormalizeKeepsDateShape | daily.py:52-61 | a `YYYY-MM-DD` token is its own normal form |
| Resolver.ValidateDate | daily.py:38-44 | accepts exactly the tokens whose stripped form has the `YYYY-MM-DD` shape; the empty token gives the "empty date" error and any other rejected token gives the "invalid date" error naming it |
| Resolver.KeywordIsNoDate | daily.py:53-61 | no keyword has the date shape, so keyword and date resolution never overlap |
| Resolver.ComputeDate | daily.py:46-49 | the key is never empty, and for years 0..9999 it has the date shape and reads back as today moved by the offset |
| Store.FileName | daily.py:110-111 | the name of a date's entries file, `<date>.txt`, relative to the entries directory |
| Store.FileNameInjective | daily.py:110-111 | two dates share an entries file exactly when they are the same date |
| Store.LineLength | daily.py:143-144 | the first line runs up to and including the first '\n', or to the end of the text |
| Store.Lines | daily.py:143-144 | `readlines()` gives non-empty lines with no '\n' before their last character; every line but the last ends with its '\n', and the last does too when the text ends with one |
| Store.LinesConcat | daily.py:143-144 | joining what `readlines()` returns gives back the whole text |
| Store.LineLengthOfExtension | daily.py:143-144 | text appended after a terminated first line does not change that line |
| Store.SingleLine | daily.py:143-144 | one terminated line reads back as that one line |
| Store.AppendLine | daily.py:146-153 | appending a terminated line to text that ends with a line break adds exactly that line after the earlier lines |
| Store.AppendSameLineTwice | daily.py:146-153 | adding the same entry twice stores it twice |
| Store.AppendToUnterminated | daily.py:146-153 | appending to text whose last line has no line break keeps the number of lines and every earlier line, and glues the new text onto that last line |
| Store.LineLengthOfUnterminated | daily.py:143-153 | text without a line break followed by one line reads as a single line |
| Store.Items | daily.py:138-144 | the lines `get_entry` returns for a date: none without a file, and joined together they give back the file's text |
| Store.Result | daily.py:26-30 | the `Result` record: items, warnings and the date the items belong to (`""` when none) |
| Store.FsDriver.constructor | daily.py:100-102 | the store opens on the files already in the entries directory |
| Store.FsDriver.HasEntry | daily.py:113-116 | true exactly when the date's file exists |
| Store.FsDriver.NukeEntries | daily.py:118-123 | reports whether the file existed; afterwards only that date's file is gone and every other date's lines are unchanged |
| Store.FsDriver.EditEntry | daily.py:125-136 | an absent date only gets the "No entry for d" warning; an empty edit removes the file with the "Deleted entries file" warning; any other edit replaces the text; afterwards the date has an entry exactly when the edit was not empty |
| Store.FsDriver.GetEntry | daily.py:138-144 | the lines of the date's file, and no lines for an absent date |
| Store.FsDriver.AddEntry | daily.py:146-153 | appends content and the line separator to the date's file, creating it if needed; the new line follows the earlier lines, and other dates are unchanged |
| Journal.Latest | daily.py:66-71 | what `get_latest_entry` finds: a non-empty date key with entries, the first of the 30-day window (LatestIsFirstEntry) |
| Journal.LatestFrom | daily.py:66-71 | whatever is found from step i on is a non-empty date key that has entries |
| Journal.LatestFromNone | daily.py:66-71 | nothing is found from step i on exactly when none of those days has entries |
| Journal.LatestFromSome | daily.py:66-71 | what is found from step i on is the first of those days with entries |
| Journal.LatestIsFirstEntry | daily.py:66-71 | the latest entry is the first of today, today-1, ..., today-29 with entries, and none exactly when none of them has any |
| Journal.NeverOlderThanLookback | daily.py:66-71 | a day 30 or more days back is never returned, even when it has entries |
| Journal.Daily.constructor | daily.py:34-35 | the journal works on the given store |
| Journal.Daily.HasEntry | daily.py:63-64 | the journal's `has_entry` asks the store whether the date's file exists |
| Journal.Daily.TranslateDate | daily.py:51-61 | after lower-casing and stripping: `today`/`t` gives today's key, `yesterday`/`y` gives yesterday's, and `last`/`l` gives the lookback result unvalidated; any other token is returned exactly when it has the date shape, and is otherwise rejected with the empty-date or invalid-date error |
| Journal.Daily.GetLatestEntry | daily.py:66-71 | the loop returns exactly the first day of the 30-day window with entries, or none |
| Journal.Daily.GetEntry | daily.py:73-87 | an existing date gives its lines with no warning; otherwise the latest date's lines with exactly one "Nothing found for d, showing results for L" warning; otherwise no lines, no date and the single "No entries found for the last 30 days" warning |
| Journal.Daily.NukeEntries | daily.py:89-90 | passes deletion to the store: reports whether the date had a file and removes only that file |
| Journal.Daily.EditEntry | daily.py:92-93 | passes the edit to the store, with the store's three outcomes |
| Journal.Daily.AddEntry | daily.py:95-96 | passes the append to the store: the date's file gets the content and the line separator |

## Left out

- Argument parsing, output rendering, terminal colours, the deletion
  prompt and `main` (daily.py:156 onwards) are console glue.
  - `main` asks for confirmation before deleting but ignores the answer, so
    no confirmation gate is modelled.
  - When `last` finds nothing, `main` uses Python's `None` as a date. That
    use is not modelled; `TranslateDate` returns `Resolved(None)`.
- Store.FsDriver.EditEntry: the editor process is not modelled.
  - The text the editor leaves in the file is a parameter (`edited`), and
    "zero bytes" is "empty text".
  - The `os.stat` failure when the editor deletes the file itself is not
    modelled.
- Store.FsDriver.constructor: the entries directory is a map from file name
  to text.
  - The directory's creation, `~` expansion and `os.path.join` are left
    out, so `FileName` is the name relative to the directory.
  - File-system errors are left out.
- Store.FsDriver.AddEntry: opening with mode `"w"` for a new file and `"a"`
  for an existing one is one update of the map. `linesep` is a constant of
  the store.
  - The exact new lines are stated only when `content + linesep` is one
    terminated line and the file ended with a line break.
  - Text containing its own `'\n'` adds several lines; that is not stated.
- Store.Lines: the file text is the characters written. Text-mode newline
  translation (`'\r\n'` on reading) and the file encoding are not modelled.
- Resolver.ComputeDate: the clock is a parameter (`today`).
  - Each Python call reads the clock again, so a run across midnight could
    mix two days; one `today` per operation does not capture that.
  - Calendar arithmetic is unbounded. The `OverflowError` Python raises
    outside the years 1..9999 is not modelled.
  - Years below 1000 are written with four digits, as on platforms whose
    `strftime` pads `%Y`.
- Resolver.Lower: only ASCII letters are lower-cased. Python's full Unicode
  case mapping is not modelled.
- Calendar.IsDateShape: `\d` is an ASCII digit. Python's `re` also accepts
  other Unicode decimal digits.
- Journal.Daily.HasEntry is a predicate over the store's state, because
  `has_entry` only asks the store.
- A relational (SQL) store is not part of this model.
