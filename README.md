# byr spider — a Dafny model

`byr.py` is a spider for the bt.byr.cn tracker. When created, it reads the ids of earlier
downloads from `list.csv`, taking the first comma-separated field of each line. It restores its
session from the `cookie` file, or logs in and saves the cookies. It then reads the first listing
page, which has two header rows followed by alternating data and detail rows. From every data row
it builds a `ByrPage`:
- the size comes from the fifth-from-last cell. `tosize` drops the two-character unit, removes
  thousands separators and divides megabytes by 1024;
- the seeders and snatched counts come from the fourth- and second-from-last cells, read with
  `int()` after the commas are removed.

A torrent is downloaded when its id is not in the start-up history and it has seeders. Each
download appends `id,name,<size>GB,seeders` to `list.csv`.

The model has six modules:

- `Results`: the `Option` and `Result` types.
- `Text`:
  - `str.replace(',', '')`;
  - `split(',')[0]`;
  - `readlines()`, with its partition and append laws.
- `Numerals`:
  - the parts of Python's `int()`, `float()` and `str()` that the cells go through;
  - the numbers are unbounded integers and exact reals.
- `Listing`:
  - `ByrPage` construction (`ParseRow`) and `tosize` (`SizeToGB`);
  - the row selection of `Byr.pages` (`Selected`);
  - the run over the pages, which stops at the first row that raises (`ParseRows`); the lines
    appended before that row stay in `list.csv` (`Spider.Byr.Crawl`).
- `History`:
  - reading `list.csv` (`HistoryIds`);
  - the appended line (`EntryLine`);
  - the choice of what to download (`Chosen`);
  - their round trip.
- `Spider`:
  - the `Byr` class. Its fields are the in-memory history, the files on disk (list.csv, the cookie
    file, the downloaded torrents) and the session;
  - its methods `__init__`, `login`, `_save`, `_load`, `pages`, `start` and `download`;
  - two-run scenarios.

Three behaviours of `byr.py` a reader might not expect:
- a failed login is not fatal. `login` returns without saving, and `_load` then saves the cookies
  unconditionally (byr.py:88-91, 106-108). `Spider.FailedLoginIsKept` states the consequence;
- the line appended to `list.csv` has four fields, `id,name,<size>GB,seeders`, with no category
  and no snatched count (byr.py:146);
- `tosize` drops the last two characters whatever they are and divides only for `MB`
  (byr.py:188-191).

## Model

| member | source | states |
|---|---|---|
| History.HistoryIds | byr.py:59-63 | the ids read from list.csv: the first field of each `readlines()` line; FirstFields, HistoryAppend and EntriesRoundTrip state what it returns |
| Spider.Byr.constructor | byr.py:58-63 | `list` holds the first comma-separated field of every line of list.csv, in order, and is empty when the file is absent; nothing is logged in, saved or downloaded yet |
| History.FirstFields | byr.py:62-63 | one id per line, and the i-th id is the first field of the i-th line |
| History.HistoryAppend | byr.py:61-63 | reading a history that ends with a complete line followed by more text gives the two parts' ids, one after the other |
| History.FirstFieldsAppend | byr.py:62-63 | the first fields of two runs of lines are those of each run, concatenated |
| Text.FirstField | byr.py:63 | `split(',')[0]`: a comma-free prefix of the line that stops at the first comma |
| Text.FirstFieldOfPrefix | byr.py:63 | a comma-free field followed by a comma reads back as exactly that field |
| Text.LineEnd | byr.py:62 | the first line ends just after its first line break, or at the end of the text |
| Text.LineEndAt | byr.py:62 | any position that closes a break-free run with a line break is the first line end |
| Text.Lines | byr.py:62 | `readlines()`: each line runs up to and including its first line break; its laws are LinesPartition and LinesAppend |
| Text.LinesPartition | byr.py:62 | corollary of LinesConcat and LinesShape, stated in one place: `readlines()` loses nothing: the lines join back to the text, none is empty, none holds a line break before its last character, and all but the last end with a line break |
| Text.LinesConcat | byr.py:62 | joining the lines gives the text back |
| Text.LinesShape | byr.py:62 | every line is non-empty, has a line break only as its last character, and has one there unless it is the last line |
| Text.LinesAppend | byr.py:62 | the lines of a text ending with a line break, followed by more text, are the lines of each part |
| Text.FirstLineStartsWith | byr.py:62-63 | a text whose start has no line break has a first line beginning with that start |
| Text.StripCommas | byr.py:172-173 | `replace(',', '')` leaves no comma and leaves a comma-free text unchanged |
| Text.StripCommasKeepsOthers | byr.py:172 | removing commas keeps every other character, as often as it occurs |
| Text.StripCommasAppend | byr.py:172 | removing commas commutes with concatenation |
| Spider.Byr.Save | byr.py:93-97 | the cookie file is replaced by the current session, and one more save is counted |
| Spider.Byr.Login | byr.py:65-91 | every call counts one login; the session is logged in exactly when the reply landed on the index page, and only then are the cookies saved |
| Spider.Byr.LoadSession | byr.py:99-108 | with a cookie file, the session is restored from it with no login and no save; without one, there is exactly one login followed by a save, whether or not the login succeeded |
| Spider.FailedLoginIsKept | byr.py:88-108 | after a failed login with no cookie file, a run still stores a logged-out session; the next run restores it and never logs in |
| Spider.Byr.Pages | byr.py:117-124 | the counter loop yields exactly `Selected(rows)`: after the two header rows, every other row starting with the first |
| Listing.SelectedRows | byr.py:119-124 | for k rows after the headers, ceil(k/2) rows are chosen, and the i-th chosen row is the row at offset 2i after the headers |
| Listing.Selected | byr.py:118-124 | the rows `pages` turns into `ByrPage`s: the two header rows dropped, then every other row; SelectedRows states which |
| Listing.EveryOther | byr.py:119-124 | every other element starting with the first; EveryOtherAt states which |
| Listing.EveryOtherAt | byr.py:119-124 | every other element keeps exactly the elements at even positions, in order |
| Listing.Ok | byr.py:176-181 | `ok` holds exactly when the torrent has at least one seeder |
| Listing.ParseCount | byr.py:172-173 | `int(text.replace(',', ''))`; CountRoundTrip states that it reads a printed count back |
| Listing.ParseRow | byr.py:168-174 | a built page keeps the row's id, name and category; fewer than five cells is exactly the missing-cell error; a number error names the size cell (fifth from the end), the seeders cell (fourth) or the snatched cell (second); ParseRowCells states which one |
| Listing.ParseRowCells | byr.py:171-173 | the build succeeds exactly when the size, seeders and snatched cells all convert, and the torrent then holds those three values in those fields; otherwise the cells are converted in that order and the first that fails is the one named: a size that does not convert is the error whatever the counts hold, with a good size a bad seeders cell is the error whatever the snatched cell holds, and only then a bad snatched cell |
| Listing.ParseConvertedRow | byr.py:171-174 | a row whose three cells convert builds the torrent holding the converted values |
| Listing.ParseRenderedRow | byr.py:171-192 | a row holding any size the tracker prints (whole part with separators, optional fraction digits) followed by any two-character unit, and counts printed with separators, builds a torrent with exactly those numbers, the size divided by 1024 exactly when the unit is "MB" |
| Listing.RowExample | byr.py:168-174 | a row with cells "1.5GB", "5", "x", "0", "y" builds a 1.5 GB torrent with 5 seeders and 0 snatches |
| Listing.Grouped | byr.py:172-173 | how the tracker prints a count: groups of three digits separated by commas; GroupedDigits and CountRoundTrip state how it reads back |
| Listing.GroupedDigits | byr.py:172-173 | removing the separators from a grouped count leaves a non-empty numeral whose value is the count |
| Listing.ThreeDigitsValue | byr.py:172-173 | a three-digit group with leading zeros has its own value |
| Listing.ThreeDigits | byr.py:172-173 | a three-digit group is three digits without a comma |
| Listing.CountRoundTrip | byr.py:172-173 | `int(text.replace(',', ''))` reads a count printed with thousands separators back as that count ("1,234" gives 1234) |
| Listing.EndsWithMB | byr.py:188 | `text.endswith('MB')`: the last two characters are 'M' then 'B' |
| Listing.InGigabytes | byr.py:188-191 | the unit's scaling: a parsed number is divided by 1024 in megabytes and kept otherwise; a failed parse stays failed |
| Listing.SizeToGB | byr.py:183-192 | a text shorter than the two-character unit does not parse; SizeToGBDomain states exactly which texts raise |
| Listing.SizeToGBDomain | byr.py:183-192 | `tosize` raises `ValueError` exactly when the text is shorter than the unit or the text before the unit, with its commas removed, is not decimal notation |
| Listing.LettersRefused | byr.py:183-192 | "abcGB" raises |
| Listing.SecondPointRefused | byr.py:183-192 | "1.2.3MB" raises |
| Listing.SizeDropsUnit | byr.py:183-192 | whatever the two-character unit, the number before it is read with its commas removed, and only "MB" divides it by 1024 |
| Listing.MegabytesAreGigabytesOver1024 | byr.py:188-191 | the same digits parse in MB exactly when they parse in GB, and the MB size is exactly the GB size over 1024 |
| Listing.MegabyteRoundTrip | byr.py:188-189 | any count of megabytes printed with separators converts to that count over 1024 gigabytes |
| Listing.SizeOfNumber | byr.py:183-192 | a number followed by any two-character unit converts to that number, divided by 1024 when the unit is "MB" |
| Listing.DecimalValueShift | byr.py:189-191 | the number a printed size denotes is its digits with the point taken out, over 10 to the number of fraction digits |
| Listing.StripBeforePoint | byr.py:189 | removing the separators of a number with a fraction changes only its whole part |
| Listing.SizeWithFraction | byr.py:183-192 | a size with a fraction, followed by any two-character unit, is read as its whole part without separators, the point and the fraction digits, then scaled for the unit |
| Listing.GroupedParses | byr.py:189-191 | a whole number printed with separators reads back through `float()` as itself |
| Listing.GroupedFractionParses | byr.py:189-191 | a whole part with its separators removed, a point and fraction digits read through `float()` as the number they denote |
| Listing.PrintedSizeValue | byr.py:183-192 | any size the tracker prints, followed by any two-character unit, converts to the number it denotes, scaled as that unit says |
| Listing.PrintedSizeScaled | byr.py:183-192 | corollary of PrintedSizeValue: the number itself, or the number over 1024 when the unit is "MB" |
| Listing.GigabyteExample | byr.py:190-191 | "1.5GB" is 1.5 gigabytes |
| Listing.MegabyteExample | byr.py:188-189 | "1,024MB" is exactly one gigabyte |
| Listing.ZeroExample | byr.py:188-189 | "0MB" is zero gigabytes |
| Numerals.ShowNat | byr.py:146 | `str()` of a non-negative int is a non-empty numeral with that value and no leading zero (only 0 itself starts with '0') |
| Numerals.ShowInt | byr.py:146 | `str()` of an int is non-empty, starts with '-' exactly when the int is negative, and holds only digits after its first character; the digits after any '-' are a non-empty numeral with no leading zero, so no '+', "05" or "-05" |
| Numerals.ParseNat | byr.py:172-173 | a value exactly for non-empty digit strings |
| Numerals.ParseInt | byr.py:172-173 | `int()` accepts exactly an optional sign followed by one or more digits; ParseIntSign states the values |
| Numerals.ParseIntSign | byr.py:172-173 | `int(d)` and `int("+" + d)` are the value of the digits `d`, and `int("-" + d)` is its negation |
| Numerals.ParseShowInt | byr.py:146 | `int(str(i)) == i` for every int |
| Numerals.PointIndex | byr.py:189-191 | the position of the first '.', with no '.' before it |
| Numerals.NumeralValueAppend | byr.py:189-191 | digits appended after a numeral shift its value left by their count |
| Numerals.TenthsPow10 | byr.py:189-191 | dividing by ten k times is dividing by 10 to the k |
| Numerals.ParseDecimal | byr.py:189-191 | `float()` on decimal notation; ParseDecimalDomain states which texts it reads and which it refuses; ParseDecimalOfNumeral, ParseDecimalParts, ParseDecimalPointShift and ParseDecimalTrailingPoint state the values of unsigned texts, and UnsignedDecimalRead, NegativeDecimal and PositiveDecimal the effect of a sign |
| Numerals.ParseDecimalDomain | byr.py:189-191 | `float()` reads a text exactly when it is an optional '+' or '-' followed by ASCII digits with at most one '.' and at least one digit; every other text is refused |
| Numerals.UnsignedDecimalDomain | byr.py:189-191 | without a sign, `float()` reads exactly the texts of digits with at most one '.' and at least one digit |
| Numerals.ParseDecimalParts | byr.py:189-191 | `float(w + "." + f)` is the whole part `w` plus the fraction digits `f` read as tenths, hundredths, ... |
| Numerals.ParseDecimalOfNumeral | byr.py:189-191 | `float()` of a plain numeral is its integer value |
| Numerals.ParseDecimalPointShift | byr.py:189-191 | `float(w + "." + f)` is the value of `w + f` over 10 to the number of fraction digits |
| Numerals.ParseDecimalTrailingPoint | byr.py:189-191 | `float(w + ".")`, a point with no digits after it, is the value of the digits `w` |
| Numerals.UnsignedDecimalRead | byr.py:189-191 | an unsigned decimal text reads through `float()` as its unsigned reading, which exists |
| Numerals.NegativeDecimal | byr.py:189-191 | `float("-" + d)` is the negation of the reading of `d` |
| Numerals.PositiveDecimal | byr.py:189-191 | `float("+" + d)` is the reading of `d` |
| Numerals.NegativeExample | byr.py:189-191 | "-1.5" reads as -1.5 |
| Listing.ParseEach | byr.py:119-121 | one outcome per selected row |
| Listing.ParseEachAt | byr.py:121 | each outcome is that row's own `ByrPage` construction |
| Listing.Collect | byr.py:140 | the run keeps no more pages than there are rows |
| Listing.CollectAgree | byr.py:140 | the kept pages are the leading successes in order; the run completes exactly when every row built; otherwise it stops with the first failure |
| Listing.CollectSnoc | byr.py:140 | once a row has raised, later rows change nothing; otherwise the next row's page or error is added |
| Listing.CollectNext | byr.py:140 | while no row has raised, the next row's outcome is added to the run |
| Listing.CollectStopsEarly | byr.py:140 | rows after the first one that raised are never looked at |
| Listing.ParseRows | byr.py:119-140 | the run over the selected rows: each row parsed in turn, stopping at the first that raises; ParseRowsAgree states its records and error |
| Listing.ParseRowsAgree | byr.py:119-140 | the run's pages are the leading rows' `ByrPage`s; it completes exactly when every row built, and otherwise carries the first row's error |
| History.Qualifies | byr.py:143 | a page is downloaded when its id is not in the start-up history and it is `ok` |
| History.Chosen | byr.py:143 | a torrent is chosen exactly when it is on the page, its id is not in the start-up history, and it has seeders; never more than the pages |
| History.Ids | byr.py:145 | the i-th downloaded id is that of the i-th chosen torrent |
| History.EntryLine | byr.py:146 | the line appended for a download: `id,name,<size>GB,seeders` and a line break; EntryReadBack and EntryReadsAsOneId state how it reads back |
| History.Entries | byr.py:146 | the appended text always ends with a complete line |
| History.ChosenStep | byr.py:143-146 | one more page is chosen exactly when it qualifies, adding its id and its line |
| History.EntryReadBack | byr.py:146 | an appended line starts with `id,`, so its first field reads back as the id |
| History.EntryReadsAsOneId | byr.py:146 | an appended line without stray line breaks reads back as exactly one id |
| History.EntriesRoundTrip | byr.py:146 | a history followed by a run's lines reads back as the old ids followed by the downloaded ids |
| History.HistoryAfterEntry | byr.py:146 | one more appended line adds exactly that line's ids to the history |
| History.EndsLineAppend | byr.py:146 | appending a complete line to a text ending with a complete line keeps it ending with a complete line |
| History.EntriesRemembered | byr.py:146 | the appended lines keep the old history as a prefix and make every downloaded id known, whatever the names hold |
| History.NothingQualifies | byr.py:143 | when no page qualifies, nothing is downloaded |
| History.SecondRunChoosesNothing | byr.py:139-146 | with the history a run leaves behind, the same pages qualify for nothing |
| Spider.Byr.Visit | byr.py:143-146 | a page is downloaded and its line appended exactly when its id is not in `list` and it has seeders; otherwise nothing changes |
| Spider.Byr.Download | byr.py:148-156 | the torrent file for the id is written |
| Spider.CrawlStep | byr.py:140-146 | one successful pass adds the page to the run and, exactly when it qualifies, its id to the downloads and its line to list.csv |
| Spider.Byr.Crawl | byr.py:139-146 | the downloads and the appended text are those of the chosen pages before the first row that raised; the outcome is that error or completion; `list` does not change |
| Spider.Byr.Start | byr.py:135-146 | session loading as `_load` does; list.csv is created if absent; then exactly the new, seeded pages of the selected rows are downloaded and logged, up to the first row that raises |
| Spider.OneNewTorrent | byr.py:135-146 | one seeded torrent behind the headers, an empty history and a stored session: exactly that torrent is downloaded, and list.csv holds exactly its line |
| Spider.PlainRecords | byr.py:174 | pages built from rows with plain ids have plain ids |
| Spider.SecondRunDownloadsNothing | byr.py:135-146 | a second run over the same listing, on the history and cookie file the first run left, downloads nothing |

## Left out

- The network: requests, the SOCKS proxy, `get_url`, and the bytes of the download. `Download` records only which ids were fetched.
- The HTML parsing by BeautifulSoup. A row arrives as its id, title, category and cell texts. The `parse_qs(urlparse(...))` lookup of the id is one of those inputs.
- The login form, the captcha image and its classifier. Whether the reply landed on the index page is the `landed` parameter.
- The content of the cookie jar and pickle. The cookie file records only whether its session is logged in.
- The `User` credentials file and all logging.
- Spider.Byr.Start: a Python exception (a malformed row) ends the run. The model returns `Aborted` with the row's error.
- Spider.Byr.Start: transport and file-system errors are not modelled.
- Spider.Byr.Start: if the listing has no torrents table, `pages` raises. That is not modelled, because the HTML is outside the model.
- Spider.Byr.Start: the `pages` generator is lazy, so a row is built only when the loop reaches it. The model builds the outcomes up front, but `Crawl` reads them in order and stops at the first failure. `Listing.CollectStopsEarly` shows the later ones are never used.
- EntryLine: `str(page.size)` (Python's float repr) is the `showSize` parameter.
- EntryLine: EntryReadBack, EntriesRemembered and SecondRunChoosesNothing assume only that an id holds no comma or line break. EntryReadsAsOneId and EntriesRoundTrip also assume that neither the name nor the size text holds a line break.
- Listing.SizeToGB: sizes are exact reals, not IEEE doubles. So "1,024MB" is exactly 1.0 and MB/GB scaling is exact.
- Listing.SizeToGB: `float()` accepts leading and trailing whitespace, underscores between digits, non-ASCII decimal digits ('５', '٣'), exponents, "inf" and "nan". The model accepts only an optional sign, digits and at most one decimal point. It reports the other forms as errors, where `float()` would have returned a value.
- Numerals.ParseInt: `int()` also accepts surrounding whitespace, underscores between digits and non-ASCII decimal digits ('５', '٣'). The model treats those texts as errors.
- Text.Lines: `readlines()` in text mode also splits on "\r" and "\r\n" (universal newlines). The model splits only on "\n".
- Listing.Ok: `seeders` is always an int here, because `ByrPage` built it with `int()`.
- Spider.SecondRunDownloadsNothing: requires that list.csv ends with a line break. If its last line has none, the first appended entry merges into that line, its id is not read back, and the next run downloads it again.
- `main` only creates a `Byr` and calls `start`; `Spider.OneNewTorrent` and `Spider.SecondRunDownloadsNothing` exercise that sequence.
