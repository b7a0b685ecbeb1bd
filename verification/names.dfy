/** The filename conventions of the movie pipeline: the ` - <height>p.mp4`
    marker that records a finished rung, the output name built from a base
    name, the two regular expressions that recover the base name and the
    title, the ", The" display rewrite, and the extension filter. */
module Names {
  import opened Wrappers
  import opened Strings

  /** ` - {res}p.mp4`, the suffix a file processed at height `res` carries. */
  function Marker(res: int): string {
    " - " + IntToString(res) + "p.mp4"
  }

  /** The `is_processed` test of `_process_resolution`. */
  predicate IsProcessed(source: string, res: int) {
    EndsWith(source, Marker(res))
  }

  /** `f"{base_name} - {target_resolution}p.mp4"`: the base name followed
      by the marker and nothing else, so it passes the processed test for
      its own height. */
  function OutputName(base: string, res: int): (r: string)
    ensures IsProcessed(r, res)
    ensures StartsWith(r, base)
    ensures |r| == |base| + |Marker(res)|
  {
    EndsWithAppend(base, Marker(res));
    assert (base + Marker(res))[..|base|] == base;
    base + Marker(res)
  }

  /** A name passes the processed test for `res` exactly when it is the
      output name of some base for `res`. */
  lemma ProcessedIffOutputName(s: string, res: int)
    ensures IsProcessed(s, res) <==> exists stem :: s == OutputName(stem, res)
  {
    if IsProcessed(s, res) {
      var stem := s[..|s| - |Marker(res)|];
      assert s == stem + Marker(res);
      assert s == OutputName(stem, res);
    }
  }

  /** The characters of `base + " - " + digits + "p.mp4"` around the digits. */
  lemma MarkedNameChars(base: string, digits: string)
    ensures var x := base + " - " + digits + "p.mp4";
      |x| == |base| + |digits| + 8 && x[|base| + 2] == ' '
      && forall i :: 0 <= i < |digits| ==> x[|base| + 3 + i] == digits[i]
  {
  }

  /** Two different digit strings give marked names that cannot end in
      each other's marker. */
  lemma DigitMarkersDistinct(base: string, A: string, B: string)
    requires AllDigits(A) && AllDigits(B) && A != B
    ensures !EndsWith(base + " - " + A + "p.mp4", " - " + B + "p.mp4")
  {
    MarkedNameChars(base, A);
    MarkedNameChars("", B);
    assert "" + " - " + B + "p.mp4" == " - " + B + "p.mp4";
  }

  /** The marker of one height never matches the output name of another. */
  lemma MarkersDistinct(base: string, a: nat, b: nat)
    requires a != b
    ensures !IsProcessed(OutputName(base, a), b)
  {
    var A, B := NatToString(a), NatToString(b);
    assert A != B;
    assert OutputName(base, a) == base + " - " + A + "p.mp4";
    assert Marker(b) == " - " + B + "p.mp4";
    DigitMarkersDistinct(base, A, B);
  }

  /** No newline among the first `j` characters (the reach of a regex `.*`). */
  predicate NoNewlineBefore(s: string, j: nat)
    requires j <= |s|
  {
    forall k :: 0 <= k < j ==> s[k] != '\n'
  }

  /** `(.*) \(\d{4}\)` can match with the group ending at `j`. */
  predicate TitleAt(s: string, j: nat) {
    && j + 7 <= |s|
    && NoNewlineBefore(s, j)
    && s[j] == ' ' && s[j + 1] == '('
    && AllDigits(s[j + 2..j + 6])
    && s[j + 6] == ')'
  }

  /** The greatest group end below `n` at which the title pattern matches. */
  function LastTitleAt(s: string, n: nat): (r: Option<nat>)
    ensures r.Some? ==> r.value < n && TitleAt(s, r.value)
    ensures r.Some? ==> forall j :: r.value < j < n ==> !TitleAt(s, j)
    ensures r.None? ==> forall j: nat :: j < n ==> !TitleAt(s, j)
    decreases n
  {
    if n == 0 then None else if TitleAt(s, n - 1) then Some(n - 1) else LastTitleAt(s, n - 1)
  }

  /** `re.match(r"(.*) \(\d{4}\)", base_name).group(1)`: the greedy group is
      the longest prefix followed by ` (dddd)`; `None` where the script's
      `.group` would raise on a failed match. */
  function ParseTitle(base: string): (r: Option<string>)
    ensures r.Some? ==> StartsWith(base, r.value) && TitleAt(base, |r.value|)
    ensures r.Some? ==> forall j :: |r.value| < j < |base| ==> !TitleAt(base, j)
    ensures r.None? ==> forall j: nat :: j < |base| ==> !TitleAt(base, j)
  {
    match LastTitleAt(base, |base|)
    case None => None
    case Some(j) => Some(base[..j])
  }

  /** The title of `Title (Year)` is `Title`. */
  lemma TitleRoundTrip(title: string, year: string)
    requires '\n' !in title
    requires |year| == 4 && AllDigits(year)
    ensures ParseTitle(title + " (" + year + ")") == Some(title)
  {
    var s := title + " (" + year + ")";
    var j := |title|;
    assert s[..j] == title;
    assert s[j + 2..j + 6] == year;
    assert TitleAt(s, j);
  }

  /** `re.match(r"(.*\(\d+\))", filename)` can match with `.*` ending at `j`. */
  predicate ParenNumberAt(s: string, j: nat) {
    && j < |s|
    && NoNewlineBefore(s, j)
    && s[j] == '('
    && DigitRun(s, j + 1) >= 1
    && j + 1 + DigitRun(s, j + 1) < |s|
    && s[j + 1 + DigitRun(s, j + 1)] == ')'
  }

  function LastParenNumberAt(s: string, n: nat): (r: Option<nat>)
    ensures r.Some? ==> r.value < n && ParenNumberAt(s, r.value)
    ensures r.Some? ==> forall j :: r.value < j < n ==> !ParenNumberAt(s, j)
    ensures r.None? ==> forall j: nat :: j < n ==> !ParenNumberAt(s, j)
    decreases n
  {
    if n == 0 then None
    else if ParenNumberAt(s, n - 1) then Some(n - 1)
    else LastParenNumberAt(s, n - 1)
  }

  /** `re.match(r"(.*\(\d+\))", filename).group(1)`: the filename up to and
      including the last parenthesised number; `None` where the script's
      `.group` would raise. */
  function BaseName(filename: string): (r: Option<string>)
    ensures r.Some? ==> StartsWith(filename, r.value) && EndsWith(r.value, ")")
    ensures r.Some? ==> exists j :: (&& 0 <= j < |r.value| && ParenNumberAt(filename, j)
                                     && r.value == filename[..j + 2 + DigitRun(filename, j + 1)]
                                     && forall k :: j < k < |filename| ==> !ParenNumberAt(filename, k))
    ensures r.None? ==> forall j: nat :: j < |filename| ==> !ParenNumberAt(filename, j)
  {
    match LastParenNumberAt(filename, |filename|)
    case None => None
    case Some(j) =>
      var e := j + 2 + DigitRun(filename, j + 1);
      assert filename[..e][e - 1..] == [filename[e - 1]];
      Some(filename[..e])
  }

  /** A name of the form `stem(digits)` followed by text without a `(`
      (a ` - 1080p.mp4` marker or an extension) has `stem(digits)` as its
      base name. */
  lemma BaseNameRoundTrip(stem: string, digits: string, rest: string)
    requires '\n' !in stem
    requires |digits| > 0 && AllDigits(digits)
    requires '(' !in rest
    ensures BaseName(stem + "(" + digits + ")" + rest) == Some(stem + "(" + digits + ")")
  {
    var base := stem + "(" + digits + ")";
    var s := base + rest;
    var j := |stem|;
    assert s[j] == '(';
    assert forall k :: j + 1 <= k < j + 1 + |digits| ==> s[k] == digits[k - j - 1];
    assert s[j + 1 + |digits|] == ')';
    var L := DigitRun(s, j + 1);
    assert L == |digits|;
    assert ParenNumberAt(s, j);
    forall k | j < k < |s|
      ensures !ParenNumberAt(s, k)
    {
      if k <= j + |digits| {
        assert s[k] == digits[k - j - 1];
      } else if k == j + 1 + |digits| {
        assert s[k] == ')';
      } else {
        assert s[k] == rest[k - |base|];
      }
    }
    assert s[..j + 2 + L] == base;
  }

  /** The definite-article rewrite of the display title. */
  function DisplayTitle(title: string): string {
    if EndsWith(title, ", The") then "The " + title[..|title| - 5] else title
  }

  /** `Movie, The` is displayed as `The Movie`. */
  lemma ArticleFronted(m: string)
    ensures DisplayTitle(m + ", The") == "The " + m
  {
    EndsWithAppend(m, ", The");
    assert (m + ", The")[..|m|] == m;
  }

  /** A title that does not end in `, The` is displayed unchanged. */
  lemma OtherTitlesUnchanged(t: string)
    requires !EndsWith(t, ", The")
    ensures DisplayTitle(t) == t
  {
  }

  /** `Movie, The (2020)` displays as `The Movie`. */
  lemma DisplayTitleExample()
    ensures ParseTitle("Movie, The (2020)").Some?
    ensures DisplayTitle(ParseTitle("Movie, The (2020)").value) == "The Movie"
  {
    assert ParseTitle("Movie, The (2020)") == Some("Movie, The") by {
      assert "Movie, The (2020)" == "Movie, The" + " (" + "2020" + ")";
      TitleRoundTrip("Movie, The", "2020");
    }
    assert DisplayTitle("Movie, The") == "The Movie" by {
      assert "Movie, The" == "Movie" + ", The";
      ArticleFronted("Movie");
    }
  }

  /** The library kinds the script processes. */
  datatype Mode = Movies | Television | Music

  /** The `allowed_extensions` table. */
  function AllowedExtensions(mode: Mode): seq<string> {
    match mode
    case Movies => ["mkv", "mp4", "avi", "m4v", "wmv", "m2ts"]
    case Television => ["mkv", "mp4"]
    case Music => ["flac"]
  }

  /** `name.split(".")[-1]`: the text after the last dot, or the whole name. */
  function Extension(name: string): (r: string)
    ensures '.' !in r && EndsWith(name, r)
    ensures r == name || EndsWith(name, "." + r)
  {
    LastPieceIsSuffix(name, '.');
    Last(Split(name, '.'))
  }

  /** The extension test of `_find_files`. */
  predicate IsAllowed(name: string, mode: Mode) {
    Extension(name) in AllowedExtensions(mode)
  }

  /** The extension of `stem.ext` is `ext` whatever dots `stem` holds. */
  lemma ExtensionRoundTrip(stem: string, ext: string)
    requires '.' !in ext
    ensures Extension(stem + "." + ext) == ext
  {
    LastPieceAfterSeparator(stem, ext, '.');
  }

  /** A name passes the extension test exactly when it is an allowed
      extension itself or ends in a dot followed by one. */
  lemma AllowedIff(name: string, mode: Mode)
    ensures IsAllowed(name, mode) <==>
      exists e :: e in AllowedExtensions(mode) && (name == e || EndsWith(name, "." + e))
  {
    var allowed := AllowedExtensions(mode);
    assert forall e :: e in allowed ==> '.' !in e;
    forall e | e in allowed && (name == e || EndsWith(name, "." + e))
      ensures Extension(name) == e
    {
      if name == e {
        SplitSeparatorFree(name, '.');
      } else {
        var stem := name[..|name| - |e| - 1];
        assert name == stem + "." + e;
        ExtensionRoundTrip(stem, e);
      }
    }
  }
}
