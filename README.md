# Qing timeline viewer: a Dafny model of its data handling

The Streamlit viewer `timeline_enhanced.py` shows a slider over the late-Qing
years. It reads a table of years, reign names, 干支 and 属相 annotations and
event columns 事件1, 事件2, …. For the selected year it computes the reign
period its own table gives (lines 309-313), although no branch displays it
(see `Viewer.NoRecordMarker`). It shows:

- a header line built from the first matching row;
- every recorded event;
- the pictures of the `images` folder named after that year, each with a caption.

This project models the viewer's data handling and proves what it computes.

- `wrappers.dfy` (`Wrappers`): the `Option` type. A Python exception is an explicit outcome.
- `text.dfy` (`Text`): the string operations the viewer borrows from Python:
  - `str.isdigit`, `str(int)`, integer parsing, `strip`, `lower`;
  - `startswith`, `endswith`, `split('_', 1)`, `rsplit('.', 1)`;
  - single-character `replace`, `os.path.basename`.
- `frame.dfy` (`Frame`): the table as a value:
  - ordered columns, each with a text tag standing for pandas' dtype `object`;
  - rows of cells that are missing (NaN), text or integer;
  - unique column names and rectangular rows.
- `normalise.dfy` (`Normalise`): `process_data`, written step by step as a method. It is proved equal to the function `Normalised`, and its properties are lemmas about that function.
- `reigns.dfy` (`Reigns`): the hard-coded reign table and the first-match scan with `break`.
- `events.dfy` (`Events`): the year filter and the nested collection loop over the matching rows and their numbered event columns.
- `images.dfy` (`Images`): `find_images_for_year` over a directory listing given as input, and the caption taken from a picture's file name.
- `viewer.dfy` (`Viewer`): what `main` computes:
  - the slider span and its default value;
  - how the page starts (stop, crash or slider);
  - the year header;
  - the whole view of one selected year.

Two behaviours of the code worth knowing:

- **The last reign.** The last era, 宣统, is labelled "1908-1912", but the interval its membership test uses is [1909, 1911). Every interval, the last one included, is half-open. So 1908 and 1911 belong to no reign (`Reigns.GapYears`).
- **Crashes.** The code raises before the slider exists:
  - `min([])` at line 254 raises when the year column holds no number at all;
  - the era band arithmetic at line 273 divides by zero when the earliest and latest years are equal.

  Both are the outcome `Crashed` of `Viewer.Start`.

## Model

| member | source | states |
|---|---|---|
| Text.NatToString | timeline_enhanced.py:195 | `str(n)` of a natural number is a non-empty run of ASCII digits with no leading zero |
| Text.NatToStringValue | timeline_enhanced.py:195 | the digits `str(n)` prints read back as `n` |
| Text.IntToString | timeline_enhanced.py:195 | `str(year)` is non-empty, ends in a digit, and holds only digits apart from a leading minus |
| Text.ParseIntRoundTrip | timeline_enhanced.py:182 | numeric parsing of the text `str(n)` gives back `n`, for every integer |
| Text.ParseIntRejects | timeline_enhanced.py:182 | the empty text, a lone `-` and `1870.5x` are not numbers |
| Text.ParseInt | timeline_enhanced.py:182 | a text that parses ends in a digit, and a plain digit run parses as its decimal value |
| Text.TrimLeftSpec | timeline_enhanced.py:342 | `lstrip` returns a suffix, removes only whitespace, and leaves no leading whitespace |
| Text.TrimRightSpec | timeline_enhanced.py:342 | `rstrip` returns a prefix, removes only whitespace, and leaves no trailing whitespace |
| Text.TrimLeft | timeline_enhanced.py:342 | `lstrip` never lengthens the text |
| Text.TrimRight | timeline_enhanced.py:342 | `rstrip` never lengthens the text |
| Text.Strip | timeline_enhanced.py:342 | `strip` never lengthens the text |
| Text.StripEmptyIffBlank | timeline_enhanced.py:342 | `s.strip()` is empty if and only if every character of `s` is whitespace |
| Text.LowerAscii | timeline_enhanced.py:195 | lower-casing keeps the length |
| Text.AfterFirst | timeline_enhanced.py:361 | `split(c, 1)[1]` fails exactly when `c` is absent; otherwise it is the suffix after the first `c`, and no `c` comes before it |
| Text.LastIndex | timeline_enhanced.py:361 | the last occurrence of `c`: absent exactly when `c` is absent, and no `c` follows it |
| Text.BeforeLast | timeline_enhanced.py:361 | `rsplit(c, 1)[0]` is the whole text when `c` is absent; otherwise it is the prefix that ends right before a `c` with no `c` after it |
| Text.Basename | timeline_enhanced.py:361 | the base name holds no `/`, and a path without `/` is its own base name |
| Text.BasenameSuffix | timeline_enhanced.py:361 | the base name is a suffix of the path |
| Text.ReplaceAll | timeline_enhanced.py:361 | `replace(a, b)` keeps the length, and no `a` is left when `b` differs from `a` |
| Text.AfterFirstAt | timeline_enhanced.py:361 | splitting `p + c + q` at the first `c` gives `q` when `p` has no `c` |
| Text.LastIndexAt | timeline_enhanced.py:361 | the last `c` of `p + c + q` is at `|p|` when `q` has no `c` |
| Text.BeforeLastAt | timeline_enhanced.py:361 | `rsplit(c, 1)[0]` of `p + c + q` is `p` when `q` has no `c` |
| Frame.IndexOf | timeline_enhanced.py:318 | `df[name]` selects the first column with that name, and that column has it |
| Frame.RowGet | timeline_enhanced.py:323-325 | `row.get(name, "")` is the cell of a column with that name when there is one, and '' otherwise |
| Normalise.EventColumnTest | timeline_enhanced.py:157 | `事件` + suffix is numbered if and only if the suffix is a non-empty digit run; it is an event column if and only if the suffix is also allowed to be empty |
| Normalise.NotEventColumn | timeline_enhanced.py:157 | a name not starting with 事件 is neither an event column nor a numbered one |
| Normalise.IsNumberedEventColumn | timeline_enhanced.py:157 | a numbered event column name starts with 事件 and is longer than it |
| Normalise.IsEventColumn | timeline_enhanced.py:157 | an event column name starts with 事件 |
| Normalise.EventNamesMembers | timeline_enhanced.py:155-158 | a name is collected if and only if it is a column name that passes the event-column test |
| Normalise.DiscoverEventColumns | timeline_enhanced.py:155-158 | the loop collects the event-column names in column order |
| Normalise.AliasLegacy | timeline_enhanced.py:161-162 | the rename keeps the column names unique |
| Normalise.RenameColumns | timeline_enhanced.py:162 | the rename keeps the number and order of columns and their text tags, renames every column called `from` to `to` and leaves the others unchanged |
| Normalise.LegacyAlias | timeline_enhanced.py:161-162 | with 事件 and no 事件1, 事件 is renamed 事件1 at its own position, and every other column and every row stays unchanged; otherwise nothing changes |
| Normalise.WarningCondition | timeline_enhanced.py:167-168 | after the alias, a numbered event column exists if and only if the input had one or had a bare 事件 |
| Normalise.AddTextColumn | timeline_enhanced.py:173 | adding a new column keeps the table well formed |
| Normalise.AddTextColumnNames | timeline_enhanced.py:173 | the new column is appended after the existing names |
| Normalise.EnsureColumns | timeline_enhanced.py:171-173 | ensuring columns keeps the table well formed, keeps the row count and never removes a column |
| Normalise.EnsureColumnsExtends | timeline_enhanced.py:171-173 | existing columns and cells stay in place as a prefix, and every requested name is a column afterwards |
| Normalise.EnsureColumnsAdded | timeline_enhanced.py:171-173 | every column that is added is a text column holding '' in every row |
| Normalise.EnsureAnnotations | timeline_enhanced.py:171-173 | 干支 and 属相 both exist afterwards; the missing ones are appended in that order |
| Normalise.EnsureAnnotationsKept | timeline_enhanced.py:171-173 | every old column and every old cell stays at its position, and the row count is kept |
| Normalise.EnsureAnnotationsAdded | timeline_enhanced.py:171-173 | every added annotation column holds '' in every row |
| Normalise.AnnotationsNotYear | timeline_enhanced.py:171-173 | no added annotation column is the year column |
| Normalise.FillNone | timeline_enhanced.py:176-178 | before the fill loop no cell has changed |
| Normalise.FillStep | timeline_enhanced.py:176-178 | one turn of the loop fills exactly the next column when it is a text column, and leaves the rows alone otherwise |
| Normalise.FillCell | timeline_enhanced.py:178 | in a text column the filled cell is never missing; a present cell, or any cell of a non-text column, is unchanged |
| Normalise.FillColumn | timeline_enhanced.py:178 | filling column `j` keeps the row count and widths, leaves no missing cell in column `j` and changes no other column |
| Normalise.FillNulls | timeline_enhanced.py:176-178 | filling keeps the table well formed |
| Normalise.FillTextColumns | timeline_enhanced.py:176-178 | the per-column loop yields the rows of the filled table |
| Normalise.FillNullsCells | timeline_enhanced.py:176-178 | filling changes only the missing cells of text columns, each into '' |
| Normalise.ToNumeric | timeline_enhanced.py:182 | the parsed cell is missing or an integer; a text cell becomes missing exactly when it does not parse |
| Normalise.CoerceYear | timeline_enhanced.py:181-182 | parsing the year column keeps the table well formed |
| Normalise.CoerceYearCells | timeline_enhanced.py:181-182 | parsing changes only the cells of the year column, each into its parsed value, and keeps the names and row count |
| Normalise.YearCoercion | timeline_enhanced.py:182 | a year written as `str(n)` is kept; an unparseable year such as `1870.5x` and an empty one become missing instead of raising |
| Normalise.Normalised | timeline_enhanced.py:153-184 | the normalised table is well formed |
| Normalise.ProcessData | timeline_enhanced.py:153-184 | the step-by-step method returns the normalised table; it warns if and only if the input has no numbered event column and no bare 事件 |
| Normalise.NormalisedColumns | timeline_enhanced.py:171-173 | afterwards 干支 and 属相 are columns; the names are those after the alias, followed by the missing annotations in order |
| Normalise.NormalisedCells | timeline_enhanced.py:153-184 | row count and order are kept; an old cell is only filled (text columns) or parsed (the year column); the added columns hold ''; every old column keeps its place and its text tag except the year column, which becomes non-text |
| Normalise.NormalisedNoNulls | timeline_enhanced.py:175-182 | no text column holds a missing value, and the year column is non-text and holds only integers or missing values |
| Reigns.CurrentReign | timeline_enhanced.py:309-313 | the scan with `break` returns the first-match reign |
| Reigns.ReignOf | timeline_enhanced.py:309-313 | the reign is '' or the name of an era that contains the year |
| Reigns.ReignOfFirstMatch | timeline_enhanced.py:309-313 | when era `i` contains the year and no earlier era does, the answer is the name of era `i` |
| Reigns.ReignOfNoMatch | timeline_enhanced.py:309-313 | when no era contains the year, the answer is '' |
| Reigns.ReignOfSound | timeline_enhanced.py:309-313 | with non-empty era names, the answer is non-empty if and only if some era contains the year, and then it is the name of such an era |
| Reigns.ErasDisjoint | timeline_enhanced.py:243-249 | the five intervals are increasing and pairwise disjoint, so at most one contains any year |
| Reigns.ReignTable | timeline_enhanced.py:243-249 | the reign of every year over the hard-coded table |
| Reigns.GapYears | timeline_enhanced.py:243-249 | 1850, 1861, 1874, 1908 and 1911 have no reign; 1898 is 光绪 |
| Events.KeptIsNotBlank | timeline_enhanced.py:342 | a cell is kept if and only if it is not missing and its stripped text is non-empty; a text cell is kept if and only if it is not all whitespace |
| Events.CellText | timeline_enhanced.py:342 | `str(value)` of a text cell is the text itself |
| Events.CellTextParses | timeline_enhanced.py:342 | `str(value)` of a number cell reads back as that number |
| Events.Kept | timeline_enhanced.py:342 | a kept cell is never missing |
| Events.RowEvents | timeline_enhanced.py:338-344 | a row yields at most one value per visited column |
| Events.RowEventsKept | timeline_enhanced.py:338-344 | every value a row yields passes the test of line 342 |
| Events.RowsEvents | timeline_enhanced.py:336-344 | every value collected from the visited rows passes the test of line 342 |
| Events.Select | timeline_enhanced.py:318 | at most one row per visited row is selected, and every selected row is a row of the table whose year cell equals the selected year |
| Events.SelectComplete | timeline_enhanced.py:318 | every row whose year cell equals the selected year is selected |
| Events.SelectEmpty | timeline_enhanced.py:318-320 | an empty selection means that no visited row has the selected year |
| Events.SelectFirst | timeline_enhanced.py:318-322 | the first selected row is the first visited row, in row order, whose year equals the selected one |
| Events.SelectFirstKept | timeline_enhanced.py:318 | visiting one more row keeps the first row of a non-empty selection |
| Events.SelectFirstNew | timeline_enhanced.py:318 | a row that makes an empty selection non-empty is its first row and has the selected year |
| Events.MatchingRows | timeline_enhanced.py:318 | the matching rows are as wide as the header |
| Events.MatchingRowsFirst | timeline_enhanced.py:318-322 | `year_events.iloc[0]` is the first row of the table, in table order, whose year equals the selected one |
| Events.YearEvents | timeline_enhanced.py:335-344 | every value collected for the year is kept and not missing |
| Events.CollectEvents | timeline_enhanced.py:316-344 | the nested loop collects the year's events, in row order and then column order; `has_events` holds if and only if the list is non-empty |
| Events.CollectRow | timeline_enhanced.py:338-344 | the inner loop appends exactly the row's kept values of numbered event columns, in column order, and keeps `has_events` equal to whether anything was collected |
| Events.RowEventsSound | timeline_enhanced.py:338-343 | every value taken from a row is a kept cell of a numbered event column of that row |
| Events.RowEventsComplete | timeline_enhanced.py:338-343 | every kept cell of a numbered event column of a row is taken |
| Events.RowsEventsSound | timeline_enhanced.py:336-344 | every collected value comes from one of the visited rows |
| Events.RowsEventsComplete | timeline_enhanced.py:336-344 | every value of a visited row is collected |
| Events.YearEventsSound | timeline_enhanced.py:318-344 | every collected value is the unstripped cell of a numbered event column, kept, in a row whose year is the selected one |
| Events.YearEventsComplete | timeline_enhanced.py:318-344 | every kept cell of a numbered event column in a row of the selected year is collected |
| Events.RowEventsExample | timeline_enhanced.py:338-343 | from 事件1 "A", an empty 事件2 and 事件3 "B" the values "A" and "B" are collected in that order |
| Events.BareEventIgnored | timeline_enhanced.py:338-343 | in any row, whatever the cell of a bare 事件 column holds, the row yields the same values |
| Events.SingleRowYearEvents | timeline_enhanced.py:318-344 | on a one-row table whose year matches, the collected values are exactly that row's |
| Images.FindImagesForYear | timeline_enhanced.py:187-201 | the listing loop returns the accepted names joined to `images`, in listing order; a missing folder or a listing error gives [] |
| Images.YearPrefix | timeline_enhanced.py:195 | the prefix `{year}_` ends in its only `_` |
| Images.HasImageExtension | timeline_enhanced.py:195 | a name with an accepted extension has at least four characters |
| Images.IsImageFor | timeline_enhanced.py:195 | an accepted name holds a `_` and is at least as long as the year prefix |
| Images.Join | timeline_enhanced.py:196 | `os.path.join("images", name)` is `images/` followed by the name |
| Images.ImagesFor | timeline_enhanced.py:194-196 | the filter returns at most one path per listed name, each under `images/` |
| Images.ImagesForAppend | timeline_enhanced.py:194-196 | filtering a listing in two pieces gives the two results in order |
| Images.ImagesForSound | timeline_enhanced.py:194-196 | every returned path is `images/` joined to a listed name that starts with `{year}_` and has an image extension |
| Images.ImagesForComplete | timeline_enhanced.py:194-196 | every listed name that passes the test is returned, joined to `images/` |
| Images.PrefixIsWholeYear | timeline_enhanced.py:195 | `1840_opium_war.jpg` is a picture of 1840 and not of 184; `1898_Reform.PNG` passes, `1898_notes.txt` does not |
| Images.ExtensionExamples | timeline_enhanced.py:195 | `.jpg` and upper-case `.PNG` pass the extension test and `.txt` does not |
| Images.Caption | timeline_enhanced.py:361 | the caption chain fails exactly when the base name has no `_`; a caption holds no `_` and is shorter than the base name |
| Images.YearTextPlain | timeline_enhanced.py:195 | `str(year)` holds no `/`, `_` or `.` |
| Images.BasenameOfJoin | timeline_enhanced.py:196 | the base name of a listed path is the listed name |
| Images.ListedName | timeline_enhanced.py:195 | `{year}_{description}.{ext}` splits at the `_` right after the year and holds no separator |
| Images.CaptionOfSplit | timeline_enhanced.py:361 | a name made of an underscore-free head, `_`, a description, `.` and a dot-free extension is captioned with the description, underscores turned into spaces |
| Images.ListedCaption | timeline_enhanced.py:361 | the picture `images/{year}_{description}.{ext}` is captioned with the description, underscores turned into spaces |
| Images.AcceptedHasCaption | timeline_enhanced.py:361 | every name the filter accepts has a caption: the chain at line 361 never raises on it |
| Images.CaptionExample | timeline_enhanced.py:360-361 | `images/1840_opium_war.jpg` is captioned "opium war" |
| Images.ExamplePath | timeline_enhanced.py:360 | `images/1840_opium_war.jpg` is the path of the listed name `1840_opium_war.jpg` |
| Images.SpacedDescription | timeline_enhanced.py:361 | `opium_war` with underscores replaced reads "opium war" |
| Viewer.YearsOfMembers | timeline_enhanced.py:253 | a year is in the list if and only if some row's year cell holds it |
| Viewer.YearsOf | timeline_enhanced.py:253 | `dropna()` keeps at most one year per row |
| Viewer.Min | timeline_enhanced.py:254 | `min` of a non-empty list is an element no larger than any other |
| Viewer.Max | timeline_enhanced.py:254 | `max` of a non-empty list is an element no smaller than any other |
| Viewer.NormalisedYearsParsed | timeline_enhanced.py:144-184 | the table `process_data` returns is well formed and its year column holds no text, as the span and the start require |
| Viewer.YearRange | timeline_enhanced.py:252-257 | without a year column the span is 1821-1911; with one, it fails (`min([])`) exactly when no row has a year; a span has lo <= hi |
| Viewer.YearRangeBounds | timeline_enhanced.py:252-254 | every year in the table lies within the span, and both ends are years of some row |
| Viewer.DefaultYear | timeline_enhanced.py:303 | the initial slider value lies in the span, in its middle, rounded down |
| Viewer.Start | timeline_enhanced.py:229-303 | an empty table stops the page; a table with no year, or with a single year, crashes; otherwise the slider spans the table's years and starts at `(min_year + max_year) // 2`, which lies inside them |
| Viewer.StartWithoutYearColumn | timeline_enhanced.py:255-303 | without a year column the slider spans 1821-1911 and starts at 1866 |
| Viewer.Truthy | timeline_enhanced.py:209 | a cell is false in Python exactly when it is the empty text or the number 0 |
| Viewer.YearMarker | timeline_enhanced.py:208-212 | the header starts with `{year}年`; it is exactly that if and only if one of reign, 干支 and 属相 is false; otherwise it is `{year}年，{reign}，{ganzhi}，{shengxiao}` with each part printed by `str` |
| Viewer.MarkerParts | timeline_enhanced.py:209-210 | with three non-empty texts the header is `{year}年，{reign}，{ganzhi}，{shengxiao}` |
| Viewer.NoRecordMarker | timeline_enhanced.py:368-370 | for a year with no row the header is only `{year}年`: the reign found is never shown |
| Viewer.NanInMarker | timeline_enhanced.py:209-210 | missing values are true in Python, so they are shown as "nan" |
| Viewer.ResolveYear | timeline_enhanced.py:308-371 | the view of a selected year: the first-match reign; no year column gives no view; no matching row gives the short header; otherwise the first row's header, exactly the year's events, `has_events` if and only if there are some, the year's pictures, each with a caption, and their captions in order |
| Viewer.CaptionTexts | timeline_enhanced.py:359-361 | there is one caption per picture |
| Viewer.CaptionTextsAt | timeline_enhanced.py:359-361 | each caption is the one extracted from the picture at the same position, and it holds no `_` |
| Viewer.CaptionAll | timeline_enhanced.py:359-361 | the loop over the pictures yields the caption of each picture, in order |
| Viewer.ListedImageHasCaption | timeline_enhanced.py:356-361 | every picture found for a listing has a caption |

## Left out

- `load_data`, which reads the CSV file and caches it, is not modelled; the table is an input. The converter script `convert_excel_to_csv.py` is not part of this model.
- Rendering is not modelled: CSS, HTML cards, `st.markdown`, `st.columns`, `st.subheader`, `st.info` and `st.image`. The header is modelled as text only.
- The warning texts of lines 168 and 198 are not modelled. `ProcessData` returns whether line 168 warns.
- The era band geometry (lines 266-296) is floating-point HTML layout and is not modelled. Only its division by zero is modelled, as `Crashed`.
- `os.path.exists` and `os.listdir` are not modelled. The listing is an input: `Missing`, `Unreadable` or the entry names in listing order. `os.makedirs` is not modelled either.
- Opening pictures with PIL, and reporting one that fails to decode (lines 363-367), is not modelled.
- `st.slider` is not modelled. The selected year is an input of `ResolveYear`, and only its initial value is modelled.
- Floats are not modelled. A cell is missing, text or an integer. A non-integral year counts as absent: it never equals an integer slider value, so the filter behaves the same. Only the `astype(int)` truncation at line 253 would differ.
- Normalise.ToNumeric: parsing is restricted to integer literals with an optional sign. pandas also accepts decimals, exponents and surrounding spaces.
- Normalise.IsNumberedEventColumn: `isdigit` is restricted to the ASCII digits. Python also accepts other Unicode digits.
- Images.HasImageExtension: `lower` is restricted to the ASCII letters. Python also lowers other Unicode letters.
- Lines 163-164 rebuild a local list that nothing reads afterwards, so they are not modelled.
- `process_data` updates the caller's DataFrame in place unless the rename of line 162 made a copy. The model returns a new table value instead. The caller (line 144) uses only the returned table, so the aliasing is not modelled.
- Text.Basename: paths use the POSIX separator `/` only.
- Viewer.ResolveYear: directory entry names are required to hold no `/`, as real directory entries never do. Only under that requirement does every found picture have a caption.
- Viewer.YearRange, Viewer.Start: both require a year column without text, which `process_data` guarantees (`Viewer.NormalisedYearsParsed`). A text year that `astype(int)` at line 253 would convert is not modelled, because `main` never sees one.
- Viewer.Start: `df.empty` is modelled as no rows or no columns. The page's sidebar and title are left out.
