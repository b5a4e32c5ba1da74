/** The validation rules of the bundle's configuration tree: the reserved
    `upload_path` directories, the image size names, the integer bounds, and
    the assembly of the default `locales` list. The tree builder itself and
    the directory scan are not modelled; the scanned directory names are an
    input. */
module Configuration {
  import opened Wrappers
  import Paths

  /** Why a configuration value is refused. */
  datatype ConfigError =
    | EmptyValue(node: string)
    | InvalidUploadPath(path: string)
    | OnlyDigits(name: string)
    | ReservedSizeName(name: string)
    | InvalidSizeName(name: string)
    | InvalidResizeMode(mode: string)
    | TooSmall(node: string, value: int, min: int)
    | TooBig(node: string, value: int, max: int)

  // ---------------------------------------------------------------------
  // PCRE helpers

  /** What `$` accepts without the D modifier: the end of the subject, or a
      final newline just before it. */
  predicate AtEnd(s: string, i: nat) {
    i == |s| || (i == |s| - 1 && s[i] == '\n')
  }

  predicate IsLower(c: char) {
    'a' <= c <= 'z'
  }

  predicate IsUpper(c: char) {
    'A' <= c <= 'Z'
  }

  predicate IsDigit(c: char) {
    '0' <= c <= '9'
  }

  // ---------------------------------------------------------------------
  // web_dir, preview_script, image.target_dir

  /** The default of `web_dir` and `image.target_dir`: the canonical form of
      a path below the project directory. */
  function DefaultDir(projectDir: string, suffix: string): (r: string)
    ensures Paths.Canonical(r)
  {
    Paths.Canonicalize(projectDir + suffix)
  }

  /** The `always` validation of a path node: canonicalise the value. */
  function ValidatePath(value: string): (r: string)
    ensures Paths.Canonical(r)
    ensures Paths.Canonical(value) ==> r == value
  {
    Paths.CanonicalFixpoint(value);
    Paths.Canonicalize(value)
  }

  /** A default directory passes its own validation unchanged. The tree
      builder does not run a node's validation on the default of an omitted
      key, so this is the case of the default value being given explicitly. */
  lemma DefaultDirStable(projectDir: string, suffix: string)
    ensures ValidatePath(DefaultDir(projectDir, suffix)) == DefaultDir(projectDir, suffix)
  {
    Paths.Idempotent(projectDir + suffix);
  }

  // ---------------------------------------------------------------------
  // upload_path

  const ReservedDirs: seq<string> :=
    ["app", "assets", "bin", "config", "contao", "plugins", "share", "system", "templates", "var", "vendor", "web"]

  /** `v` begins with directory `name` followed by `/` or the end. */
  predicate BeginsWithDir(v: string, name: string) {
    && |name| <= |v|
    && v[..|name|] == name
    && (AtEnd(v, |name|) || v[|name|] == '/')
  }

  /** The alternation of the pattern, tried name by name. */
  function MatchesReserved(v: string, names: seq<string>): (b: bool)
    ensures b <==> exists i :: 0 <= i < |names| && BeginsWithDir(v, names[i])
  {
    if |names| == 0 then false
    else BeginsWithDir(v, names[0]) || MatchesReserved(v, names[1..])
  }

  /** The `upload_path` node: not empty, and not inside one of the
      application's own top-level directories. */
  function ValidateUploadPath(v: string): (r: Result<string, ConfigError>)
    ensures r.Ok? <==> v != "" && forall i :: 0 <= i < |ReservedDirs| ==> !BeginsWithDir(v, ReservedDirs[i])
    ensures r.Ok? ==> r.value == v
    ensures v == "" ==> r == Err(EmptyValue("upload_path"))
    ensures v != "" && r.Err? ==> r.error == InvalidUploadPath(v)
  {
    if v == "" then Err(EmptyValue("upload_path"))
    else if MatchesReserved(v, ReservedDirs) then Err(InvalidUploadPath(v))
    else Ok(v)
  }

  /** A directory name cannot begin a path that starts with another letter. */
  lemma FirstLetterDiffers(v: string, name: string)
    requires |v| > 0 && |name| > 0 && v[0] != name[0]
    ensures !BeginsWithDir(v, name)
  {
  }

  /** `files`, the default, and `webfoo` are accepted. */
  lemma UploadPathAccepted()
    ensures ValidateUploadPath("files") == Ok("files")
    ensures ValidateUploadPath("webfoo") == Ok("webfoo")
  {
    FilesAccepted();
    WebfooAccepted();
  }

  lemma FilesAccepted()
    ensures ValidateUploadPath("files") == Ok("files")
  {
    forall i | 0 <= i < |ReservedDirs|
      ensures !BeginsWithDir("files", ReservedDirs[i])
    {
      ReservedInitial(i);
      FirstLetterDiffers("files", ReservedDirs[i]);
    }
  }

  /** The first letters of the reserved directory names. */
  lemma ReservedInitial(i: nat)
    requires i < |ReservedDirs|
    ensures |ReservedDirs[i]| > 0 && ReservedDirs[i][0] in "abcpstvw"
    ensures i < |ReservedDirs| - 1 ==> ReservedDirs[i][0] != 'w'
  {
  }

  lemma WebfooAccepted()
    ensures ValidateUploadPath("webfoo") == Ok("webfoo")
  {
    forall i | 0 <= i < |ReservedDirs| - 1
      ensures !BeginsWithDir("webfoo", ReservedDirs[i])
    {
      ReservedInitial(i);
      FirstLetterDiffers("webfoo", ReservedDirs[i]);
    }
    assert ReservedDirs[11] == "web";
    assert !BeginsWithDir("webfoo", "web") by {
      assert "webfoo"[3] == 'f';
    }
  }

  /** `web` and `web/x` are refused. */
  lemma UploadPathRefused()
    ensures ValidateUploadPath("web/x") == Err(InvalidUploadPath("web/x"))
    ensures ValidateUploadPath("web") == Err(InvalidUploadPath("web"))
  {
    assert ReservedDirs[11] == "web";
    assert BeginsWithDir("web/x", ReservedDirs[11]);
    assert BeginsWithDir("web", ReservedDirs[11]);
  }

  // ---------------------------------------------------------------------
  // image.sizes

  /** The resize modes `box`, `proportional` and `crop`. */
  const ResizeModes: seq<string> := ["box", "proportional", "crop"]

  const ReservedSizeNames: seq<string> := ResizeModes + [
    "left_top", "center_top", "right_top",
    "left_center", "center_center", "right_center",
    "left_bottom", "center_bottom", "right_bottom"
  ]

  /** `/^\d+$/`. */
  predicate AllDigits(name: string) {
    exists k :: 0 < k <= |name| && AtEnd(name, k) && forall i :: 0 <= i < k ==> IsDigit(name[i])
  }

  predicate SizeNameChar(c: char) {
    IsLower(c) || IsDigit(c) || c == '_'
  }

  /** The digits-only test, written as a scan. */
  function DigitsOnly(name: string): (b: bool)
    ensures b <==> AllDigits(name)
  {
    var k := if |name| > 0 && name[|name| - 1] == '\n' then |name| - 1 else |name|;
    var b := k > 0 && forall i :: 0 <= i < k ==> IsDigit(name[i]);
    assert b ==> AtEnd(name, k);
    assert AllDigits(name) ==> b by {
      if AllDigits(name) {
        var j :| 0 < j <= |name| && AtEnd(name, j) && forall i :: 0 <= i < j ==> IsDigit(name[i]);
        if j != k {
          assert j == |name| && name[|name| - 1] == '\n';
          assert IsDigit(name[|name| - 1]);
        }
      }
    }
    b
  }

  /** The checks on one size name, in the order they are made. */
  function CheckSizeName(name: string): (r: Option<ConfigError>)
    ensures r.None? <==>
      && !AllDigits(name)
      && name !in ReservedSizeNames
      && forall i :: 0 <= i < |name| ==> SizeNameChar(name[i])
    ensures AllDigits(name) ==> r == Some(OnlyDigits(name))
    ensures !AllDigits(name) && name in ReservedSizeNames ==> r == Some(ReservedSizeName(name))
    ensures r.Some? && !AllDigits(name) && name !in ReservedSizeNames ==> r == Some(InvalidSizeName(name))
    ensures r.Some? ==> r.value in {OnlyDigits(name), ReservedSizeName(name), InvalidSizeName(name)}
  {
    if DigitsOnly(name) then Some(OnlyDigits(name))
    else if name in ReservedSizeNames then Some(ReservedSizeName(name))
    else if exists i :: 0 <= i < |name| && !SizeNameChar(name[i]) then Some(InvalidSizeName(name))
    else None
  }

  /** One `items` entry of an image size. Only the constrained fields are
      modelled. */
  datatype SizeItem = SizeItem(resizeMode: Option<string>, zoom: Option<int>)

  /** One image size. Only the constrained fields are modelled. */
  datatype ImageSize = ImageSize(resizeMode: Option<string>, zoom: Option<int>, items: seq<SizeItem>)

  /** An integer node's `min`/`max`. Both tests are made and the too-big
      message is assigned last, so it is the one reported when a value is
      out of both bounds (possible only when min exceeds max). */
  function CheckBounds(node: string, v: int, min: Option<int>, max: Option<int>): (r: Result<int, ConfigError>)
    ensures r.Ok? <==> (min.None? || min.value <= v) && (max.None? || v <= max.value)
    ensures r.Ok? ==> r.value == v
    ensures max.Some? && v > max.value ==> r == Err(TooBig(node, v, max.value))
    ensures r.Err? && (max.None? || v <= max.value) ==> r == Err(TooSmall(node, v, min.value))
  {
    if max.Some? && v > max.value then Err(TooBig(node, v, max.value))
    else if min.Some? && v < min.value then Err(TooSmall(node, v, min.value))
    else Ok(v)
  }

  /** `error_level`: an integer from -1 to 32767. */
  function ValidateErrorLevel(v: int): (r: Result<int, ConfigError>)
    ensures r.Ok? <==> -1 <= v <= 32767
    ensures r.Ok? ==> r.value == v
  {
    CheckBounds("error_level", v, Some(-1), Some(32767))
  }

  /** `zoom`, in a size and in its items: an integer from 0 to 100. */
  function ValidateZoom(v: int): (r: Result<int, ConfigError>)
    ensures r.Ok? <==> 0 <= v <= 100
    ensures r.Ok? ==> r.value == v
  {
    CheckBounds("zoom", v, Some(0), Some(100))
  }

  /** The `E_*` constants of PHP. */
  const E_ALL: bv64 := 32767
  const E_NOTICE: bv64 := 8
  const E_DEPRECATED: bv64 := 8192
  const E_USER_DEPRECATED: bv64 := 16384

  /** The default `error_level`: `E_ALL & ~E_NOTICE & ~E_DEPRECATED & ~E_USER_DEPRECATED`. */
  function DefaultErrorLevel(): int {
    (E_ALL & !E_NOTICE & !E_DEPRECATED & !E_USER_DEPRECATED) as int
  }

  /** The default error level is 8183, and it passes its own bounds. */
  lemma DefaultErrorLevelValid()
    ensures DefaultErrorLevel() == 8183
    ensures ValidateErrorLevel(DefaultErrorLevel()) == Ok(8183)
  {
  }

  function CheckOptionalZoom(zoom: Option<int>): Option<ConfigError> {
    match zoom
    case None => None
    case Some(z) => if ValidateZoom(z).Err? then Some(ValidateZoom(z).error) else None
  }

  function CheckResizeMode(mode: Option<string>): Option<ConfigError> {
    if mode.Some? && mode.value !in ResizeModes then Some(InvalidResizeMode(mode.value)) else None
  }

  function CheckItems(items: seq<SizeItem>): (r: Option<ConfigError>)
    ensures r.None? <==> forall i :: 0 <= i < |items| ==>
      CheckResizeMode(items[i].resizeMode).None? && CheckOptionalZoom(items[i].zoom).None?
  {
    if |items| == 0 then None
    else if CheckResizeMode(items[0].resizeMode).Some? then CheckResizeMode(items[0].resizeMode)
    else if CheckOptionalZoom(items[0].zoom).Some? then CheckOptionalZoom(items[0].zoom)
    else CheckItems(items[1..])
  }

  /** The child nodes of one size, in the order they are declared. */
  function CheckSize(size: ImageSize): (r: Option<ConfigError>)
    ensures r.None? <==>
      && (size.resizeMode.None? || size.resizeMode.value in ResizeModes)
      && (size.zoom.None? || 0 <= size.zoom.value <= 100)
      && forall i :: 0 <= i < |size.items| ==>
           (size.items[i].resizeMode.None? || size.items[i].resizeMode.value in ResizeModes)
           && (size.items[i].zoom.None? || 0 <= size.items[i].zoom.value <= 100)
    ensures size.resizeMode.Some? && size.resizeMode.value !in ResizeModes ==>
      r == Some(InvalidResizeMode(size.resizeMode.value))
  {
    if CheckResizeMode(size.resizeMode).Some? then CheckResizeMode(size.resizeMode)
    else if CheckOptionalZoom(size.zoom).Some? then CheckOptionalZoom(size.zoom)
    else CheckItems(size.items)
  }

  /** The `sizes` closure: every name is checked in order and the first
      failure is reported; when all pass, the sizes come back unchanged. */
  function ValidateSizeNames(sizes: seq<(string, ImageSize)>): (r: Result<seq<(string, ImageSize)>, ConfigError>)
    ensures r.Ok? <==> forall i :: 0 <= i < |sizes| ==> CheckSizeName(sizes[i].0).None?
    ensures r.Ok? ==> r.value == sizes
    ensures r.Err? ==> exists i :: 0 <= i < |sizes| && CheckSizeName(sizes[i].0) == Some(r.error)
                         && forall j :: 0 <= j < i ==> CheckSizeName(sizes[j].0).None?
  {
    if |sizes| == 0 then Ok(sizes)
    else match CheckSizeName(sizes[0].0)
      case Some(e) => Err(e)
      case None =>
        match ValidateSizeNames(sizes[1..])
        case Ok(_) => Ok(sizes)
        case Err(e) =>
          ghost var i :| 0 <= i < |sizes[1..]| && CheckSizeName(sizes[1..][i].0) == Some(e)
                     && forall j :: 0 <= j < i ==> CheckSizeName(sizes[1..][j].0).None?;
          assert CheckSizeName(sizes[i + 1].0) == Some(e);
          Err(e)
  }

  /** The `sizes` node: the children of every size first, then the names. */
  function ValidateSizes(sizes: seq<(string, ImageSize)>): (r: Result<seq<(string, ImageSize)>, ConfigError>)
    ensures r.Ok? ==> r.value == sizes
    ensures r.Ok? ==> forall i :: 0 <= i < |sizes| ==>
      CheckSizeName(sizes[i].0).None? && CheckSize(sizes[i].1).None?
    ensures (forall i :: 0 <= i < |sizes| ==> CheckSize(sizes[i].1).None?) ==> r == ValidateSizeNames(sizes)
    ensures FirstSizeError(sizes).Some? ==> r == Err(FirstSizeError(sizes).value)
  {
    match FirstSizeError(sizes)
    case Some(e) => Err(e)
    case None => ValidateSizeNames(sizes)
  }

  /** The error of the first size whose children fail, if any. */
  function FirstSizeError(sizes: seq<(string, ImageSize)>): (r: Option<ConfigError>)
    ensures r.None? <==> forall i :: 0 <= i < |sizes| ==> CheckSize(sizes[i].1).None?
    ensures r.Some? ==> exists i :: 0 <= i < |sizes| && CheckSize(sizes[i].1) == r
                          && forall j :: 0 <= j < i ==> CheckSize(sizes[j].1).None?
  {
    if |sizes| == 0 then None
    else if CheckSize(sizes[0].1).Some? then CheckSize(sizes[0].1)
    else match FirstSizeError(sizes[1..])
      case None => None
      case Some(e) =>
        ghost var i :| 0 <= i < |sizes[1..]| && CheckSize(sizes[1..][i].1) == Some(e)
                   && forall j :: 0 <= j < i ==> CheckSize(sizes[1..][j].1).None?;
        assert CheckSize(sizes[i + 1].1) == Some(e);
        Some(e)
  }

  lemma SizeNameExamples()
    ensures CheckSizeName("123") == Some(OnlyDigits("123"))
    ensures CheckSizeName("crop") == Some(ReservedSizeName("crop"))
    ensures CheckSizeName("Big") == Some(InvalidSizeName("Big"))
    ensures CheckSizeName("big_2x") == None
  {
    assert AllDigits("123") by { assert AtEnd("123", 3); }
    assert !IsDigit('B');
    assert !SizeNameChar("Big"[0]);
    assert !IsDigit('b');
  }

  // ---------------------------------------------------------------------
  // locales

  /** `/^[a-z]{2}(_[A-Z]{2})?$/`, the pattern language directories match. */
  predicate LocaleName(s: string) {
    && |s| >= 2 && IsLower(s[0]) && IsLower(s[1])
    && (AtEnd(s, 2)
        || (|s| >= 5 && s[2] == '_' && IsUpper(s[3]) && IsUpper(s[4]) && AtEnd(s, 5)))
  }

  predicate NoDuplicates(s: seq<string>) {
    forall i, j :: 0 <= i < j < |s| ==> s[i] != s[j]
  }

  /** The position of the first occurrence of `x` in `s`. */
  function FirstIndex(s: seq<string>, x: string): (k: nat)
    requires x in s
    ensures k < |s| && s[k] == x && x !in s[..k]
  {
    if s[0] == x then 0
    else
      var k := 1 + FirstIndex(s[1..], x);
      assert s[..k] == [s[0]] + s[1..][..k - 1];
      k
  }

  /** A value that already occurs in a prefix first occurs at the same place. */
  lemma FirstIndexPrefix(s: seq<string>, n: nat, x: string)
    requires n <= |s| && x in s[..n]
    ensures x in s && FirstIndex(s, x) == FirstIndex(s[..n], x)
  {
    var a := FirstIndex(s[..n], x);
    var b := FirstIndex(s, x);
    assert s[..n][..a] == s[..a];
    assert forall k :: 0 <= k < b ==> s[k] != x by {
      forall k | 0 <= k < b ensures s[k] != x { assert s[k] == s[..b][k]; }
    }
    assert forall k :: 0 <= k < a ==> s[k] != x by {
      forall k | 0 <= k < a ensures s[k] != x { assert s[k] == s[..a][k]; }
    }
  }

  /** `array_values(array_unique($list))`: the first occurrence of each
      value, in the order those first occurrences appear. */
  function Unique(s: seq<string>): (r: seq<string>)
    ensures NoDuplicates(r)
    ensures forall x :: x in r <==> x in s
    ensures forall i, j :: 0 <= i < j < |r| ==> FirstIndex(s, r[i]) < FirstIndex(s, r[j])
    ensures |s| > 0 ==> |r| > 0 && r[0] == s[0]
  {
    if |s| == 0 then []
    else
      var init := Unique(s[..|s| - 1]);
      var last := s[|s| - 1];
      assert forall x :: x in s <==> x in s[..|s| - 1] || x == last;
      forall x | x in init
        ensures FirstIndex(s, x) == FirstIndex(s[..|s| - 1], x) < |s| - 1
      {
        FirstIndexPrefix(s, |s| - 1, x);
      }
      if last in init then init
      else
        assert FirstIndex(s, last) == |s| - 1;
        init + [last]
  }

  function FilterLocales(dirs: seq<string>): (r: seq<string>)
    ensures forall x :: x in r <==> x in dirs && LocaleName(x)
  {
    if |dirs| == 0 then []
    else
      var rest := FilterLocales(dirs[1..]);
      assert forall x :: x in dirs <==> x == dirs[0] || x in dirs[1..];
      if LocaleName(dirs[0]) then [dirs[0]] + rest else rest
  }

  /** The default locales: the default locale first, then every scanned
      language directory whose name looks like a locale, without
      duplicates. */
  function Locales(defaultLocale: string, dirs: seq<string>): (r: seq<string>)
    ensures |r| > 0 && r[0] == defaultLocale
    ensures NoDuplicates(r)
    ensures forall i :: 1 <= i < |r| ==> LocaleName(r[i]) && r[i] in dirs
    ensures forall d :: d in dirs && LocaleName(d) ==> d in r
  {
    var r := Unique([defaultLocale] + FilterLocales(dirs));
    var all := [defaultLocale] + FilterLocales(dirs);
    forall i | 1 <= i < |r|
      ensures LocaleName(r[i]) && r[i] in dirs
    {
      assert r[i] != r[0];
      assert r[i] in all;
      assert r[i] in FilterLocales(dirs);
    }
    r
  }
}
