/** What the viewer's `main` computes from the normalised table: the span of the
    year slider and its default position (timeline_enhanced.py:227-231, 251-257,
    299-306), and, for the selected year, its reign, the header text of
    `display_year_marker` (lines 208-212), the collected events, the matching
    pictures and their captions (lines 308-371). */
module Viewer {
  import opened Wrappers
  import opened Text
  import opened Frame
  import opened Normalise
  import opened Reigns
  import opened Events
  import opened Images

  /** The bounds of the year slider. */
  datatype Range = Range(lo: int, hi: int)

  /** Line 257: the span used when the table has no year column. */
  const DefaultRange := Range(1821, 1911)

  /** The integer years of column `k` over the rows, in row order; missing
      years are dropped (`dropna().astype(int).tolist()`, line 253). */
  function YearsOf(rows: seq<seq<Cell>>, k: nat): (r: seq<int>)
    requires forall i :: 0 <= i < |rows| ==> k < |rows[i]|
    ensures |r| <= |rows|
  {
    if rows == [] then []
    else
      var last := rows[|rows| - 1][k];
      YearsOf(rows[..|rows| - 1], k) + (if last.Int? then [last.n] else [])
  }

  /** A year is listed exactly when some row holds it. */
  lemma {:induction false} YearsOfMembers(rows: seq<seq<Cell>>, k: nat, y: int)
    requires forall i :: 0 <= i < |rows| ==> k < |rows[i]|
    ensures y in YearsOf(rows, k) <==> exists i :: 0 <= i < |rows| && rows[i][k] == Int(y)
    decreases |rows|
  {
    if rows != [] {
      var init := rows[..|rows| - 1];
      var last := rows[|rows| - 1][k];
      assert YearsOf(rows, k) == YearsOf(init, k) + (if last.Int? then [last.n] else []);
      YearsOfMembers(init, k, y);
      if y in YearsOf(rows, k) {
        if y in YearsOf(init, k) {
          var i :| 0 <= i < |init| && init[i][k] == Int(y);
          assert rows[i] == init[i];
        } else {
          assert rows[|rows| - 1][k] == Int(y);
        }
      }
      if exists i :: 0 <= i < |rows| && rows[i][k] == Int(y) {
        var i :| 0 <= i < |rows| && rows[i][k] == Int(y);
        if i < |rows| - 1 {
          assert init[i] == rows[i];
        }
      }
    }
  }

  /** The years of the table's year column. */
  function YearValues(t: Table): seq<int>
    requires Valid(t) && Year in Names(t.columns)
  {
    YearsOf(t.rows, IndexOf(t.columns, Year))
  }

  /** Python's `min` of a non-empty list. */
  function Min(s: seq<int>): (m: int)
    requires s != []
    ensures m in s && forall x :: x in s ==> m <= x
  {
    if |s| == 1 then s[0]
    else
      var m := Min(s[1..]);
      assert forall x :: x in s ==> x == s[0] || x in s[1..];
      if s[0] <= m then s[0] else m
  }

  /** Python's `max` of a non-empty list. */
  function Max(s: seq<int>): (m: int)
    requires s != []
    ensures m in s && forall x :: x in s ==> x <= m
  {
    if |s| == 1 then s[0]
    else
      var m := Max(s[1..]);
      assert forall x :: x in s ==> x == s[0] || x in s[1..];
      if s[0] >= m then s[0] else m
  }

  /** The year column holds no text, so that `astype(int)` at line 253 reads
      every present year. `main` only sees tables `process_data` has parsed
      (line 144), or an empty one, which stops at line 231. */
  predicate YearsParsed(t: Table)
    requires Valid(t)
  {
    Year in Names(t.columns) ==> forall i :: 0 <= i < |t.rows| ==> !t.rows[i][IndexOf(t.columns, Year)].Str?
  }

  /** The normalised table is one the viewer can read: well formed, with a
      parsed year column. */
  lemma {:induction false} NormalisedYearsParsed(t: Table)
    requires Valid(t)
    ensures Valid(Normalised(t)) && YearsParsed(Normalised(t))
  {
    NormalisedNoNulls(t);
  }

  /** Lines 252-257: the slider span. None where `min([])` raises ValueError,
      which is when the year column holds no year at all. */
  function YearRange(t: Table): (r: Option<Range>)
    requires Valid(t) && YearsParsed(t)
    ensures Year !in Names(t.columns) ==> r == Some(DefaultRange)
    ensures Year in Names(t.columns) ==> (r.None? <==> YearValues(t) == [])
    ensures r.Some? ==> r.value.lo <= r.value.hi
  {
    if Year in Names(t.columns) then
      var years := YearValues(t);
      if years == [] then None
      else
        assert Min(years) <= Max(years) by { assert Max(years) in years; }
        Some(Range(Min(years), Max(years)))
    else Some(DefaultRange)
  }

  /** With a year column, the span runs from the earliest to the latest year of
      the table: both ends occur in some row, and every year of a row lies within. */
  lemma {:induction false} YearRangeBounds(t: Table, i: nat)
    requires Valid(t) && YearsParsed(t) && Year in Names(t.columns) && YearRange(t).Some?
    requires i < |t.rows| && t.rows[i][IndexOf(t.columns, Year)].Int?
    ensures var r := YearRange(t).value; var k := IndexOf(t.columns, Year);
      r.lo <= t.rows[i][k].n <= r.hi
      && (exists j :: 0 <= j < |t.rows| && t.rows[j][k] == Int(r.lo))
      && (exists j :: 0 <= j < |t.rows| && t.rows[j][k] == Int(r.hi))
  {
    var k := IndexOf(t.columns, Year);
    var r := YearRange(t).value;
    var years := YearValues(t);
    YearsOfMembers(t.rows, k, t.rows[i][k].n);
    YearsOfMembers(t.rows, k, r.lo);
    YearsOfMembers(t.rows, k, r.hi);
  }

  /** Line 303: the slider starts at `(min_year + max_year) // 2`, the middle of
      the span, rounded down. */
  function DefaultYear(r: Range): (y: int)
    requires r.lo <= r.hi
    ensures r.lo <= y <= r.hi
    ensures y - r.lo <= r.hi - y <= y - r.lo + 1
  {
    (r.lo + r.hi) / 2
  }

  /** How the page starts: `st.stop()` on an empty table (line 231), an
      exception before the slider exists (ValueError from `min([])` at line 254,
      ZeroDivisionError at line 273 when the span is a single year), or the
      slider with its span and initial year. */
  datatype Startup = Stopped | Crashed | Slider(range: Range, initial: int)

  /** `df.empty` holds when the table has no rows or no columns. */
  predicate Empty(t: Table) {
    |t.rows| == 0 || |t.columns| == 0
  }

  function Start(t: Table): (s: Startup)
    requires Valid(t) && YearsParsed(t)
    ensures s.Stopped? <==> Empty(t)
    ensures s.Crashed? <==> !Empty(t) && (YearRange(t).None? || YearRange(t).value.lo == YearRange(t).value.hi)
    ensures s.Slider? ==> s.range == YearRange(t).value && s.range.lo < s.range.hi
    ensures s.Slider? ==> s.initial == DefaultYear(s.range) && s.range.lo <= s.initial <= s.range.hi
  {
    if Empty(t) then Stopped
    else
      match YearRange(t)
      case None => Crashed
      case Some(r) => if r.lo == r.hi then Crashed else Slider(r, DefaultYear(r))
  }

  /** Without a year column the slider spans the default 1821-1911 and starts at 1866. */
  lemma {:induction false} StartWithoutYearColumn(t: Table)
    requires Valid(t) && !Empty(t) && Year !in Names(t.columns)
    ensures Start(t) == Slider(Range(1821, 1911), 1866)
  {
  }

  /** Python's truth value of a cell: a missing value (NaN) is true, text is
      true unless empty, a number unless zero. */
  predicate Truthy(c: Cell)
    ensures !Truthy(c) <==> c == Str("") || c == Int(0)
  {
    match c
    case Null => true
    case Str(s) => s != ""
    case Int(n) => n != 0
  }

  const YearMark := "年"
  const Sep := "，"

  /** Lines 208-212: the header text. */
  function YearMarker(year: int, reign: Cell, ganzhi: Cell, shengxiao: Cell): (text: string)
    ensures StartsWith(text, IntToString(year) + YearMark)
    ensures text == IntToString(year) + YearMark <==> !(Truthy(reign) && Truthy(ganzhi) && Truthy(shengxiao))
    ensures Truthy(reign) && Truthy(ganzhi) && Truthy(shengxiao) ==>
      text == IntToString(year) + YearMark + Sep + CellText(reign) + Sep + CellText(ganzhi) + Sep + CellText(shengxiao)
  {
    var head := IntToString(year) + YearMark;
    if Truthy(reign) && Truthy(ganzhi) && Truthy(shengxiao) then
      var text := head + Sep + CellText(reign) + Sep + CellText(ganzhi) + Sep + CellText(shengxiao);
      assert text[..|head|] == head;
      assert |text| > |head|;
      text
    else head
  }

  /** When the header is the long form, the four parts follow the year in order,
      each introduced by a full-width comma. */
  lemma {:induction false} MarkerParts(year: int, reign: string, ganzhi: string, shengxiao: string)
    requires reign != "" && ganzhi != "" && shengxiao != ""
    ensures YearMarker(year, Str(reign), Str(ganzhi), Str(shengxiao))
      == IntToString(year) + "年，" + reign + "，" + ganzhi + "，" + shengxiao
  {
  }

  /** A year with no row gets the short header: the reign found by the lookup
      is passed but never shown, because the empty `ganzhi` is false. */
  lemma {:induction false} NoRecordMarker(year: int, reign: string)
    ensures YearMarker(year, Str(reign), Str(""), Str("")) == IntToString(year) + "年"
  {
  }

  /** A missing value is true, so a row whose cells are NaN shows them as "nan". */
  lemma {:induction false} NanInMarker(year: int)
    ensures YearMarker(year, Null, Null, Null) == IntToString(year) + "年，nan，nan，nan"
  {
  }

  /** What lines 308-371 compute for the selected year; `reign` is never
      displayed. */
  datatype YearView =
    | NoYearColumn(reign: string)
    | NoRecord(reign: string, marker: string)
    | Record(reign: string, marker: string, events: seq<Cell>, hasEvents: bool,
             images: seq<string>, captions: seq<string>)

  /** Lines 308-371 for one selected year. Directory entries never hold the
      path separator. */
  method ResolveYear(t: Table, year: int, listing: Listing) returns (v: YearView)
    requires Valid(t)
    requires listing.Entries? ==> forall n :: n in listing.names ==> '/' !in n
    ensures v.reign == ReignOf(Eras, year)
    ensures Year !in Names(t.columns) ==> v.NoYearColumn?
    ensures Year in Names(t.columns) && MatchingRows(t, year) == [] ==>
      v == NoRecord(v.reign, YearMarker(year, Str(v.reign), Str(""), Str("")))
    ensures Year in Names(t.columns) && MatchingRows(t, year) != [] ==>
      var first := MatchingRows(t, year)[0];
      && v.Record?
      && v.marker == YearMarker(year, RowGet(t.columns, first, ReignName),
                                RowGet(t.columns, first, Ganzhi), RowGet(t.columns, first, Shengxiao))
      && v.events == YearEvents(t, year)
      && (v.hasEvents <==> v.events != [])
      && v.images == (if listing.Entries? then ImagesFor(year, listing.names) else [])
      && (forall p :: p in v.images ==> Caption(p).Some?)
      && v.captions == CaptionTexts(v.images)
  {
    var currentReign := CurrentReign(Eras, year);
    if Year !in Names(t.columns) {
      return NoYearColumn(currentReign);
    }
    var yearEvents := MatchingRows(t, year);
    if yearEvents == [] {
      return NoRecord(currentReign, YearMarker(year, Str(currentReign), Str(""), Str("")));
    }
    var first := yearEvents[0];
    var marker := YearMarker(year, RowGet(t.columns, first, ReignName),
                             RowGet(t.columns, first, Ganzhi), RowGet(t.columns, first, Shengxiao));
    var events, hasEvents := CollectEvents(t, year);
    var imageFiles := FindImagesForYear(year, listing);
    forall p | p in imageFiles
      ensures Caption(p).Some?
    {
      ListedImageHasCaption(year, listing, p);
    }
    var captions := CaptionAll(imageFiles);
    v := Record(currentReign, marker, events, hasEvents, imageFiles, captions);
  }

  /** The captions of the pictures, in order. */
  function CaptionTexts(files: seq<string>): (r: seq<string>)
    requires forall p :: p in files ==> Caption(p).Some?
    ensures |r| == |files|
  {
    if files == [] then []
    else
      var init := files[..|files| - 1];
      assert forall p :: p in init ==> p in files;
      CaptionTexts(init) + [Caption(files[|files| - 1]).value]
  }

  /** Each caption is the one extracted from the picture at the same position,
      and it holds no underscore. */
  lemma {:induction false} CaptionTextsAt(files: seq<string>, i: nat)
    requires forall p :: p in files ==> Caption(p).Some?
    requires i < |files|
    ensures Caption(files[i]) == Some(CaptionTexts(files)[i])
    ensures '_' !in CaptionTexts(files)[i]
    decreases |files|
  {
    var init := files[..|files| - 1];
    assert forall p :: p in init ==> p in files;
    if i < |files| - 1 {
      CaptionTextsAt(init, i);
      assert files[i] == init[i];
    }
  }

  /** Lines 359-361: the caption of each picture, in order. */
  method CaptionAll(imageFiles: seq<string>) returns (captions: seq<string>)
    requires forall p :: p in imageFiles ==> Caption(p).Some?
    ensures captions == CaptionTexts(imageFiles)
  {
    captions := [];
    for i := 0 to |imageFiles|
      invariant forall p :: p in imageFiles[..i] ==> p in imageFiles
      invariant captions == CaptionTexts(imageFiles[..i])
    {
      var imgDesc := Caption(imageFiles[i]);
      assert imageFiles[..i + 1][..i] == imageFiles[..i];
      assert imageFiles[i] in imageFiles;
      captions := captions + [imgDesc.value];
    }
    assert imageFiles[..|imageFiles|] == imageFiles;
  }

  /** Every path the lookup returns for a real listing has a caption. */
  lemma {:induction false} ListedImageHasCaption(year: int, listing: Listing, p: string)
    requires listing.Entries? ==> forall n :: n in listing.names ==> '/' !in n
    requires p in (if listing.Entries? then ImagesFor(year, listing.names) else [])
    ensures Caption(p).Some?
  {
    var names := listing.names;
    ImagesForSound(year, names, p);
    var i :| 0 <= i < |names| && IsImageFor(year, names[i]) && p == Join(Folder, names[i]);
    assert names[i] in names;
    AcceptedHasCaption(year, names[i]);
  }
}
