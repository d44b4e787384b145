/** The picture lookup of the viewer: `find_images_for_year`
    (timeline_enhanced.py:187-201), which keeps the files of the `images` folder
    named after the selected year, and the caption taken from a picture's file
    name (line 361). The folder listing is an input. */
module Images {
  import opened Wrappers
  import opened Text

  const Folder := "images"

  /** What `os.listdir("images")` gives: no folder (the existence test of
      line 189 fails), an error while listing, or the entry names in listing order. */
  datatype Listing = Missing | Unreadable | Entries(names: seq<string>)

  /** The prefix `f"{year}_"` of line 195. */
  function YearPrefix(year: int): (r: string)
    ensures |r| >= 2 && r[|r| - 1] == '_' && '_' !in r[..|r| - 1]
  {
    YearTextPlain(year);
    var r := IntToString(year) + "_";
    assert r[..|r| - 1] == IntToString(year);
    r
  }

  /** `file.lower().endswith((".jpg", ".jpeg", ".png"))`. */
  predicate HasImageExtension(name: string)
    ensures HasImageExtension(name) ==> |name| >= 4
  {
    var lower := LowerAscii(name);
    EndsWith(lower, ".jpg") || EndsWith(lower, ".jpeg") || EndsWith(lower, ".png")
  }

  /** The test of line 195. */
  predicate IsImageFor(year: int, name: string)
    ensures IsImageFor(year, name) ==> '_' in name && |name| >= |YearPrefix(year)|
  {
    var p := YearPrefix(year);
    assert StartsWith(name, p) ==> name[|p| - 1] == p[|p| - 1];
    StartsWith(name, p) && HasImageExtension(name)
  }

  /** `os.path.join(dir, file)` for a relative directory without a trailing separator. */
  function Join(dir: string, file: string): (r: string)
    ensures StartsWith(r, dir + "/") && r[|dir| + 1..] == file
  {
    dir + "/" + file
  }

  /** The paths of the accepted names, in listing order. */
  function ImagesFor(year: int, names: seq<string>): (r: seq<string>)
    ensures |r| <= |names|
    ensures forall p :: p in r ==> StartsWith(p, Folder + "/")
  {
    if names == [] then []
    else
      var last := names[|names| - 1];
      ImagesFor(year, names[..|names| - 1]) + (if IsImageFor(year, last) then [Join(Folder, last)] else [])
  }

  /** Lines 187-201: the listing loop; a missing folder or a listing error gives no files. */
  method FindImagesForYear(year: int, listing: Listing) returns (imageFiles: seq<string>)
    ensures listing.Entries? ==> imageFiles == ImagesFor(year, listing.names)
    ensures !listing.Entries? ==> imageFiles == []
  {
    if listing.Missing? {
      return [];
    }
    if listing.Unreadable? {
      return [];
    }
    var names := listing.names;
    imageFiles := [];
    for i := 0 to |names|
      invariant imageFiles == ImagesFor(year, names[..i])
    {
      var file := names[i];
      assert names[..i + 1][..i] == names[..i];
      if StartsWith(file, YearPrefix(year)) && HasImageExtension(file) {
        imageFiles := imageFiles + [Join(Folder, file)];
      }
    }
    assert names[..|names|] == names;
  }

  /** Filtering a listing piece by piece gives the pieces' results in order. */
  lemma {:induction false} ImagesForAppend(year: int, a: seq<string>, b: seq<string>)
    ensures ImagesFor(year, a + b) == ImagesFor(year, a) + ImagesFor(year, b)
    decreases |b|
  {
    if b == [] {
      assert a + b == a;
    } else {
      var b' := b[..|b| - 1];
      assert (a + b)[..|a + b| - 1] == a + b';
      assert (a + b)[|a + b| - 1] == b[|b| - 1];
      ImagesForAppend(year, a, b');
    }
  }

  /** Every returned path is the folder joined to an accepted name of the listing. */
  lemma {:induction false} ImagesForSound(year: int, names: seq<string>, p: string)
    requires p in ImagesFor(year, names)
    ensures exists i :: 0 <= i < |names| && IsImageFor(year, names[i]) && p == Join(Folder, names[i])
    decreases |names|
  {
    var init := names[..|names| - 1];
    if p in ImagesFor(year, init) {
      ImagesForSound(year, init, p);
      var i :| 0 <= i < |init| && IsImageFor(year, init[i]) && p == Join(Folder, init[i]);
      assert names[i] == init[i];
    } else {
      assert p == Join(Folder, names[|names| - 1]);
    }
  }

  /** Every accepted name of the listing is returned, joined to the folder. */
  lemma {:induction false} ImagesForComplete(year: int, names: seq<string>, i: nat)
    requires i < |names| && IsImageFor(year, names[i])
    ensures Join(Folder, names[i]) in ImagesFor(year, names)
    decreases |names|
  {
    var init := names[..|names| - 1];
    if i < |names| - 1 {
      assert names[i] == init[i];
      ImagesForComplete(year, init, i);
    }
  }

  /** The prefix test reads the whole year: the files of 1840 are not those of 184. */
  lemma {:induction false} PrefixIsWholeYear()
    ensures IsImageFor(1840, "1840_opium_war.jpg")
    ensures !IsImageFor(184, "1840_opium_war.jpg")
    ensures IsImageFor(1898, "1898_Reform.PNG")
    ensures !IsImageFor(1898, "1898_notes.txt")
  {
    Prefix1840();
    Prefix184();
    Prefix1898();
    ExtensionExamples();
    assert "1840_opium_war.jpg"[..4][3] != "184_"[3];
  }

  lemma {:induction false} Prefix1840()
    ensures YearPrefix(1840) == "1840_"
  {
    assert IntToString(1840) == "1840";
  }

  lemma {:induction false} Prefix184()
    ensures YearPrefix(184) == "184_"
  {
    assert IntToString(184) == "184";
  }

  lemma {:induction false} Prefix1898()
    ensures YearPrefix(1898) == "1898_"
  {
    assert IntToString(1898) == "1898";
  }

  /** Upper-case extensions pass the test, other extensions do not. */
  lemma {:induction false} ExtensionExamples()
    ensures HasImageExtension("1840_opium_war.jpg")
    ensures HasImageExtension("1898_Reform.PNG")
    ensures !HasImageExtension("1898_notes.txt")
  {
    assert LowerAscii("1840_opium_war.jpg")[14..] == ".jpg";
    assert LowerAscii("1898_Reform.PNG")[11..] == ".png";
    var l := LowerAscii("1898_notes.txt");
    assert l[13] == 't';
  }

  /** Line 361: the text after the first `_` of the file name, without its last
      `.`-suffix, with every `_` turned into a space. None where the `[1]` of the
      split raises IndexError, which is when the name has no `_`. */
  function Caption(path: string): (r: Option<string>)
    ensures r.None? <==> '_' !in Basename(path)
    ensures r.Some? ==> '_' !in r.value && |r.value| < |Basename(path)|
  {
    match AfterFirst(Basename(path), '_')
    case None => None
    case Some(rest) =>
      var stem := BeforeLast(rest, '.');
      assert |stem| <= |rest|;
      Some(ReplaceAll(stem, '_', ' '))
  }

  /** `str(year)` holds neither a separator nor an underscore. */
  lemma {:induction false} YearTextPlain(year: int)
    ensures '/' !in IntToString(year) && '_' !in IntToString(year) && '.' !in IntToString(year)
  {
    var y := IntToString(year);
    forall k | 0 <= k < |y|
      ensures y[k] != '/' && y[k] != '_' && y[k] != '.'
    {
    }
  }

  /** A listed name joined to the folder has that name as its base name. */
  lemma {:induction false} BasenameOfJoin(name: string)
    requires '/' !in name
    ensures Basename(Join(Folder, name)) == name
  {
    assert Join(Folder, name) == Folder + ['/'] + name;
    LastIndexAt(Folder, '/', name);
  }

  /** A name `{year}_{description}.{ext}` splits at the `_` after the year and
      holds no separator when its parts hold none. */
  lemma {:induction false} ListedName(year: int, description: string, ext: string)
    requires '/' !in description && '/' !in ext
    ensures var name := YearPrefix(year) + description + "." + ext;
      '/' !in name && name == IntToString(year) + ['_'] + (description + ['.'] + ext)
  {
    var y := IntToString(year);
    var rest := description + ['.'] + ext;
    assert YearPrefix(year) + description + "." + ext == y + ['_'] + rest;
    YearTextPlain(year);
    assert '/' !in rest;
  }

  /** A name made of an underscore-free head, `_`, a description, `.` and a
      dot-free extension is captioned with the description, underscores spaced. */
  lemma {:induction false} CaptionOfSplit(head: string, description: string, ext: string)
    requires '_' !in head && '.' !in ext && '/' !in head + ['_'] + (description + ['.'] + ext)
    ensures Caption(Join(Folder, head + ['_'] + (description + ['.'] + ext))) == Some(ReplaceAll(description, '_', ' '))
  {
    var rest := description + ['.'] + ext;
    var name := head + ['_'] + rest;
    BasenameOfJoin(name);
    AfterFirstAt(head, '_', rest);
    BeforeLastAt(description, '.', ext);
    assert AfterFirst(Basename(Join(Folder, name)), '_') == Some(rest);
  }

  /** The caption of a file `{year}_{description}.{ext}` listed in the folder is
      the description with its underscores turned into spaces. */
  lemma {:induction false} ListedCaption(year: int, description: string, ext: string)
    requires '/' !in description && '/' !in ext && '.' !in ext
    ensures Caption(Join(Folder, YearPrefix(year) + description + "." + ext)) == Some(ReplaceAll(description, '_', ' '))
  {
    ListedName(year, description, ext);
    YearTextPlain(year);
    CaptionOfSplit(IntToString(year), description, ext);
  }

  /** Every file the lookup accepts has a caption: the accepted name carries the
      `_` of its year prefix. */
  lemma {:induction false} AcceptedHasCaption(year: int, name: string)
    requires IsImageFor(year, name) && '/' !in name
    ensures Caption(Join(Folder, name)).Some?
  {
    BasenameOfJoin(name);
    var p := YearPrefix(year);
    assert name[|p| - 1] == p[|p| - 1] == '_';
  }

  /** The example of the source comment: `1840_opium_war.jpg` is captioned "opium war". */
  lemma {:induction false} CaptionExample()
    ensures Caption("images/1840_opium_war.jpg") == Some("opium war")
  {
    ExamplePath();
    ListedCaption(1840, "opium_war", "jpg");
    SpacedDescription();
  }

  lemma {:induction false} ExamplePath()
    ensures "images/1840_opium_war.jpg" == Join(Folder, YearPrefix(1840) + "opium_war" + "." + "jpg")
  {
    Prefix1840();
  }

  lemma {:induction false} SpacedDescription()
    ensures ReplaceAll("opium_war", '_', ' ') == "opium war"
  {
  }
}
