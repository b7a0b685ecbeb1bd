/** Duplicate resolution in the movies mode: a directory holding several
    eligible files keeps one master, chosen by the resolution marker in the
    file names (`_find_highest_res`), and every other sibling is removed
    (`_check_movies`). */
module Duplicates {
  import opened Wrappers
  import opened Strings
  import opened Paths
  import opened Names
  import opened Effects

  /** The ending the first scan of `_find_highest_res` tests for. */
  const Suffix: string := "p.mp4"

  /** The pattern `(\d+)p.mp4` matches at `i`: the maximal digit run
      starting there is followed by `p`, any character but a newline, and
      `mp4` (a shorter run would leave a digit where `p` is needed). */
  predicate ResAt(s: string, i: nat) {
    i < |s| && IsDigit(s[i]) &&
    var n := DigitRun(s, i);
    i + n + 5 <= |s| && s[i + n] == 'p' && s[i + n + 1] != '\n' && s[i + n + 2..i + n + 5] == "mp4"
  }

  /** The captured digits of a match at `i`: the longest run of digits
      that starts there (`\d+` is greedy). */
  function Captured(s: string, i: nat): (g: string)
    requires i <= |s|
    ensures AllDigits(g) && i + |g| <= |s| && g == s[i..i + |g|]
    ensures i + |g| == |s| || !IsDigit(s[i + |g|])
    ensures |g| == DigitRun(s, i)
  {
    var g := s[i..i + DigitRun(s, i)];
    assert forall k :: 0 <= k < |g| ==> g[k] == s[i + k];
    g
  }

  /** The leftmost match at or after `i`. */
  function FirstResAt(s: string, i: nat): (r: Option<nat>)
    requires i <= |s|
    ensures r.Some? ==> i <= r.value < |s| && ResAt(s, r.value)
    ensures r.Some? ==> forall k :: i <= k < r.value ==> !ResAt(s, k)
    ensures r.None? ==> forall k :: i <= k < |s| ==> !ResAt(s, k)
    decreases |s| - i
  {
    if i == |s| then None else if ResAt(s, i) then Some(i) else FirstResAt(s, i + 1)
  }

  /** `int(re.search(r"(\d+)p.mp4", name).group(1))`, or `None` where the
      search finds nothing (`SearchResSpec` states it). */
  function SearchRes(name: string): Option<nat> {
    match FirstResAt(name, 0)
    case None => None
    case Some(k) => Some(DigitsValue(Captured(name, k)))
  }

  /** The search fails exactly when the pattern matches nowhere, and
      otherwise reads the digits of the leftmost match. */
  lemma SearchResSpec(name: string)
    ensures SearchRes(name).None? <==> forall k :: 0 <= k < |name| ==> !ResAt(name, k)
    ensures SearchRes(name).Some? ==> exists k :: (0 <= k < |name| && ResAt(name, k)
      && (forall j :: 0 <= j < k ==> !ResAt(name, j))
      && SearchRes(name).value == DigitsValue(Captured(name, k)))
  {
  }

  /** The resolution the search reads from `name`, 0 where it finds none. */
  function ResOf(name: string): nat {
    match SearchRes(name)
    case Some(n) => n
    case None => 0
  }

  /** The index of the first name without the suffix, or `|files|`: where
      the first scan stops. */
  function FirstPlain(files: seq<string>): (k: nat)
    ensures k <= |files|
    ensures forall i :: 0 <= i < k ==> EndsWith(files[i], Suffix)
    ensures k < |files| ==> !EndsWith(files[k], Suffix)
    decreases |files|
  {
    if |files| == 0 || !EndsWith(files[0], Suffix) then 0 else 1 + FirstPlain(files[1..])
  }

  /** The names the first scan searches. */
  function Scanned(files: seq<string>): seq<string> {
    files[..FirstPlain(files)]
  }

  predicate AllMatch(names: seq<string>) {
    forall i :: 0 <= i < |names| ==> SearchRes(names[i]).Some?
  }

  /** `m` is the largest of `h` and the resolutions found in `names`. */
  predicate MaxRes(m: nat, h: nat, names: seq<string>)
    requires AllMatch(names)
  {
    && m >= h
    && (forall i :: 0 <= i < |names| ==> ResOf(names[i]) <= m)
    && (m == h || exists i :: 0 <= i < |names| && ResOf(names[i]) == m)
  }

  /** What the first scan leaves: the highest resolution seen and the plain
      name it stopped at, if any. */
  datatype Scan = Scan(highest: nat, plain: Option<string>)

  /** The first loop of `_find_highest_res`, from `files` on, with `h` the
      highest resolution so far (`ScanHighestSucceeds` states what it finds). */
  function ScanHighest(files: seq<string>, h: nat): Result<Scan, Crash>
    decreases |files|
  {
    if |files| == 0 then Success(Scan(h, None))
    else if !EndsWith(files[0], Suffix) then Success(Scan(h, Some(files[0])))
    else
      match SearchRes(files[0])
      case None => Failure(NoResolutionMatch(files[0]))
      case Some(res) => ScanHighest(files[1..], if res > h then res else h)
  }

  /** The scanned names of a list whose first name carries the suffix are
      that name followed by the scanned names of the rest. */
  lemma ScannedCons(files: seq<string>)
    requires |files| > 0 && EndsWith(files[0], Suffix)
    ensures Scanned(files) == [files[0]] + Scanned(files[1..])
  {
  }

  /** The index of the first scanned name the search finds nothing in, or
      where the first scan stops. */
  function FirstMiss(files: seq<string>): (k: nat)
    ensures k <= FirstPlain(files)
    ensures k < FirstPlain(files) ==> SearchRes(files[k]).None?
    decreases |files|
  {
    if |files| == 0 || !EndsWith(files[0], Suffix) || SearchRes(files[0]).None? then 0
    else 1 + FirstMiss(files[1..])
  }

  /** Every name before the first miss matches. */
  lemma {:induction false} MatchesBeforeMiss(files: seq<string>)
    ensures AllMatch(files[..FirstMiss(files)])
    decreases |files|
  {
    var k := FirstMiss(files);
    if k > 0 {
      var tail := files[1..];
      assert k == 1 + FirstMiss(tail);
      MatchesBeforeMiss(tail);
      forall j | 0 <= j < k ensures SearchRes(files[..k][j]).Some? {
        if j > 0 {
          assert files[..k][j] == tail[..k - 1][j - 1];
        }
      }
    }
  }

  /** The first scan succeeds exactly when it misses nothing before the
      first plain name. */
  lemma {:induction false} ScanSucceedsAtMiss(files: seq<string>, h: nat)
    ensures ScanHighest(files, h).Success? <==> FirstMiss(files) == FirstPlain(files)
    decreases |files|
  {
    if |files| > 0 && EndsWith(files[0], Suffix) && SearchRes(files[0]).Some? {
      var res := SearchRes(files[0]).value;
      ScanSucceedsAtMiss(files[1..], if res > h then res else h);
    }
  }

  /** The first scan succeeds exactly when every scanned name matches. */
  lemma ScanSucceedsIff(files: seq<string>, h: nat)
    ensures ScanHighest(files, h).Success? <==> AllMatch(Scanned(files))
  {
    ScanSucceedsAtMiss(files, h);
    MatchesBeforeMiss(files);
    var k := FirstMiss(files);
    if k < FirstPlain(files) {
      assert Scanned(files)[k] == files[k];
    }
  }

  /** A successful first scan finds the largest of `h` and the scanned
      names' resolutions. */
  lemma {:induction false} ScanFindsMax(files: seq<string>, h: nat)
    requires ScanHighest(files, h).Success?
    ensures AllMatch(Scanned(files)) && MaxRes(ScanHighest(files, h).value.highest, h, Scanned(files))
    decreases |files|
  {
    ScanSucceedsIff(files, h);
    if |files| > 0 && EndsWith(files[0], Suffix) {
      var s := Scanned(files);
      ScannedCons(files);
      var res := SearchRes(files[0]).value;
      var h' := if res > h then res else h;
      var s' := Scanned(files[1..]);
      ScanFindsMax(files[1..], h');
      var m := ScanHighest(files, h).value.highest;
      assert m == ScanHighest(files[1..], h').value.highest;
      assert m >= h' >= h;
      assert forall j :: 0 <= j < |s| ==> ResOf(s[j]) <= m by {
        forall j | 0 <= j < |s| ensures ResOf(s[j]) <= m {
          if j > 0 {
            assert s[j] == s'[j - 1];
            assert ResOf(s'[j - 1]) <= m;
          }
        }
      }
      assert m == h || exists j :: 0 <= j < |s| && ResOf(s[j]) == m by {
        if m != h {
          if m == h' {
            assert ResOf(s[0]) == m;
          } else {
            var j :| 0 <= j < |s'| && ResOf(s'[j]) == m;
            assert s[j + 1] == s'[j];
            assert ResOf(s[j + 1]) == m;
          }
        }
      }
    }
  }

  /** A successful first scan stops at the first plain name, if any. */
  lemma {:induction false} ScanStopsAtPlain(files: seq<string>, h: nat)
    requires ScanHighest(files, h).Success?
    ensures ScanHighest(files, h).value.plain ==
      if FirstPlain(files) < |files| then Some(files[FirstPlain(files)]) else None
    decreases |files|
  {
    if |files| > 0 && EndsWith(files[0], Suffix) {
      var res := SearchRes(files[0]).value;
      ScanStopsAtPlain(files[1..], if res > h then res else h);
    }
  }

  /** The first scan succeeds exactly when every scanned name matches; it
      then finds the largest of `h` and their resolutions, and the plain
      name it stopped at. */
  lemma ScanHighestSucceeds(files: seq<string>, h: nat)
    ensures var r := ScanHighest(files, h);
      && (r.Success? <==> AllMatch(Scanned(files)))
      && (r.Success? ==> MaxRes(r.value.highest, h, Scanned(files)))
      && (r.Success? ==> r.value.plain == if FirstPlain(files) < |files| then Some(files[FirstPlain(files)]) else None)
  {
    ScanSucceedsIff(files, h);
    if ScanHighest(files, h).Success? {
      ScanFindsMax(files, h);
      ScanStopsAtPlain(files, h);
    }
  }

  /** A failing first scan fails at the first miss. */
  lemma {:induction false} ScanFailsAtMiss(files: seq<string>, h: nat)
    requires ScanHighest(files, h).Failure?
    ensures FirstMiss(files) < FirstPlain(files)
    ensures ScanHighest(files, h).error == NoResolutionMatch(files[FirstMiss(files)])
    ensures SearchRes(files[FirstMiss(files)]).None?
    decreases |files|
  {
    if SearchRes(files[0]).Some? {
      var res := SearchRes(files[0]).value;
      var tail := files[1..];
      ScanFailsAtMiss(tail, if res > h then res else h);
      assert files[FirstMiss(files)] == tail[FirstMiss(tail)];
    }
  }

  /** A failing first scan fails on the first scanned name without a match. */
  lemma ScanHighestFails(files: seq<string>, h: nat)
    requires ScanHighest(files, h).Failure?
    ensures exists i :: (0 <= i < FirstPlain(files) && ScanHighest(files, h).error == NoResolutionMatch(files[i])
                         && SearchRes(files[i]).None? && AllMatch(files[..i]))
  {
    ScanFailsAtMiss(files, h);
    MatchesBeforeMiss(files);
    var i := FirstMiss(files);
    assert 0 <= i < FirstPlain(files) && ScanHighest(files, h).error == NoResolutionMatch(files[i])
           && SearchRes(files[i]).None? && AllMatch(files[..i]);
  }

  /** The index of the first name ending with `tag`, if any. */
  function FirstEnding(files: seq<string>, tag: string, i: nat): (r: Option<nat>)
    requires i <= |files|
    ensures r.Some? ==> i <= r.value < |files| && EndsWith(files[r.value], tag)
    ensures r.Some? ==> forall k :: i <= k < r.value ==> !EndsWith(files[k], tag)
    ensures r.None? ==> forall k :: i <= k < |files| ==> !EndsWith(files[k], tag)
    decreases |files| - i
  {
    if i == |files| then None
    else if EndsWith(files[i], tag) then Some(i)
    else FirstEnding(files, tag, i + 1)
  }

  /** The name `_find_highest_res` falls back to: the plain name the first
      scan stopped at, or none, in which case `master_file` is unbound. */
  function Fallback(scan: Scan): Result<string, Crash> {
    match scan.plain
    case Some(f) => Success(f)
    case None => Failure(MasterUnbound)
  }

  /** `_find_highest_res`: the master among the sibling names `files`. */
  function FindHighestRes(files: seq<string>): (r: Result<string, Crash>)
    ensures r.Success? ==> r.value in files
    ensures |files| > 0 && !EndsWith(files[0], Suffix) ==> r == Success(files[0])
  {
    var scan :- ScanHighest(files, 0);
    ScanHighestSucceeds(files, 0);
    if scan.highest > 0 then
      match FirstEnding(files, NatToString(scan.highest) + Suffix, 0)
      case Some(j) => Success(files[j])
      case None => Fallback(scan)
    else Fallback(scan)
  }

  /** `_find_highest_res` crashes when a scanned name has no match. */
  lemma FindHighestResCrashes(files: seq<string>)
    requires !AllMatch(Scanned(files))
    ensures FindHighestRes(files).Failure? && FindHighestRes(files).error.NoResolutionMatch?
  {
    ScanHighestSucceeds(files, 0);
    ScanHighestFails(files, 0);
  }

  /** With `m` the largest resolution among the scanned names, positive,
      and some name (scanned or not) ending in `{m}p.mp4`, the master is
      the first such name. */
  lemma FindHighestResPicksTag(files: seq<string>, m: nat)
    requires AllMatch(Scanned(files)) && MaxRes(m, 0, Scanned(files)) && m > 0
    requires exists j :: 0 <= j < |files| && EndsWith(files[j], NatToString(m) + Suffix)
    ensures exists j :: (0 <= j < |files| && FindHighestRes(files) == Success(files[j])
      && EndsWith(files[j], NatToString(m) + Suffix)
      && forall i :: 0 <= i < j ==> !EndsWith(files[i], NatToString(m) + Suffix))
  {
    ScanHighestSucceeds(files, 0);
    var scan := ScanHighest(files, 0).value;
    MaxResUnique(m, scan.highest, Scanned(files));
    var tag := NatToString(m) + Suffix;
    var found := FirstEnding(files, tag, 0);
    assert found.Some?;
    assert FindHighestRes(files) == Success(files[found.value]);
  }

  /** Otherwise the master is the plain name the first scan stopped at,
      and without one `master_file` is unbound. */
  lemma FindHighestResFallsBack(files: seq<string>, m: nat)
    requires AllMatch(Scanned(files)) && MaxRes(m, 0, Scanned(files))
    requires m == 0 || forall j :: 0 <= j < |files| ==> !EndsWith(files[j], NatToString(m) + Suffix)
    ensures FindHighestRes(files) ==
      if FirstPlain(files) < |files| then Success(files[FirstPlain(files)]) else Failure(MasterUnbound)
  {
    ScanHighestSucceeds(files, 0);
    MaxResUnique(m, ScanHighest(files, 0).value.highest, Scanned(files));
  }

  /** The largest resolution is unique. */
  lemma MaxResUnique(m: nat, m': nat, names: seq<string>)
    requires AllMatch(names) && MaxRes(m, 0, names) && MaxRes(m', 0, names)
    ensures m == m'
  {
  }

  /** A name in the script's own naming: it ends in ` - {n}p.mp4` for a
      positive `n`, and the search reads that `n`. */
  predicate Canonical(name: string) {
    && SearchRes(name).Some? && ResOf(name) > 0
    && EndsWith(name, " - " + NatToString(ResOf(name)) + Suffix)
  }

  /** Two digit strings that each end a name just before `p.mp4`, the
      first right after ` - `: the second is an ending of the first. */
  lemma DigitTagsAligned(f: string, D: string, E: string)
    requires AllDigits(E)
    requires EndsWith(f, " - " + D + Suffix)
    requires EndsWith(f, E + Suffix)
    ensures |E| <= |D| && D[|D| - |E|..] == E
  {
    var base := |f| - 5;
    assert forall t :: 0 <= t < |D| ==> f[base - |D| + t] == D[t] by {
      forall t | 0 <= t < |D| ensures f[base - |D| + t] == D[t] {
        assert f[base - |D| + t] == (" - " + D + Suffix)[3 + t];
      }
    }
    assert f[base - |D| - 1] == ' ' by {
      assert f[base - |D| - 1] == (" - " + D + Suffix)[2];
    }
    assert forall t :: 0 <= t < |E| ==> f[base - |E| + t] == E[t] by {
      forall t | 0 <= t < |E| ensures f[base - |E| + t] == E[t] {
        assert f[base - |E| + t] == (E + Suffix)[t];
      }
    }
    if |E| > |D| {
      assert false;
    }
    var k := |D| - |E|;
    forall t | 0 <= t < |E| ensures D[k + t] == E[t] {
      assert f[base - |D| + (k + t)] == D[k + t];
    }
  }

  /** A canonical name ending in ` - {n}p.mp4` ends in `{m}p.mp4` for no
      `m >= n` but `n` itself. */
  lemma TagSuffixUnique(f: string, n: nat, m: nat)
    requires n > 0 && m >= n
    requires EndsWith(f, " - " + NatToString(n) + Suffix)
    requires EndsWith(f, NatToString(m) + Suffix)
    ensures m == n
  {
    var D := NatToString(n);
    var E := NatToString(m);
    DigitTagsAligned(f, D, E);
    var P := D[..|D| - |E|];
    assert D == P + E;
    if |P| > 0 {
      assert P[0] == D[0];
      LeadingDigitPositive(P);
      DigitsValueAppend(P, E);
      MulAtLeast(DigitsValue(P), Pow10(|E|));
      assert false;
    }
    assert D == E;
  }

  lemma MulAtLeast(q: nat, w: nat)
    requires q >= 1
    ensures q * w >= w
  {
  }

  /** A canonical name ends in `{n}p.mp4` for its own resolution `n`. */
  lemma CanonicalEndsWithTag(name: string)
    requires Canonical(name)
    ensures EndsWith(name, NatToString(ResOf(name)) + Suffix)
  {
    var tag := NatToString(ResOf(name)) + Suffix;
    assert " - " + NatToString(ResOf(name)) + Suffix == " - " + tag;
    EndsWithTail(name, " - ", tag);
  }

  /** Names that all follow the script's naming are all scanned, and all
      match. */
  lemma CanonicalNamesAreScanned(files: seq<string>)
    requires forall i :: 0 <= i < |files| ==> Canonical(files[i])
    ensures FirstPlain(files) == |files| && Scanned(files) == files && AllMatch(files)
  {
    forall i | 0 <= i < |files| ensures EndsWith(files[i], Suffix) {
      EndsWithTail(files[i], " - " + NatToString(ResOf(files[i])), Suffix);
    }
    assert FirstPlain(files) == |files|;
    assert Scanned(files) == files;
  }

  /** Among names that all follow the script's naming, the master is the
      first name of the highest resolution. */
  lemma CanonicalHighestWins(files: seq<string>)
    requires |files| > 0
    requires forall i :: 0 <= i < |files| ==> Canonical(files[i])
    ensures FindHighestRes(files).Success?
    ensures forall i :: 0 <= i < |files| ==> ResOf(files[i]) <= ResOf(FindHighestRes(files).value)
    ensures forall i :: 0 <= i < |files| && ResOf(files[i]) == ResOf(FindHighestRes(files).value) ==>
      FindHighestRes(files).value in files[..i + 1]
  {
    CanonicalNamesAreScanned(files);
    ScanHighestSucceeds(files, 0);
    var m := ScanHighest(files, 0).value.highest;
    assert ResOf(files[0]) <= m;
    var i0 :| 0 <= i0 < |files| && ResOf(files[i0]) == m;
    var tag := NatToString(m) + Suffix;
    CanonicalEndsWithTag(files[i0]);
    FindHighestResPicksTag(files, m);
    var j :| 0 <= j < |files| && FindHighestRes(files) == Success(files[j])
      && EndsWith(files[j], tag) && forall i :: 0 <= i < j ==> !EndsWith(files[i], tag);
    TagSuffixUnique(files[j], ResOf(files[j]), m);
    forall i | 0 <= i < j ensures ResOf(files[i]) < m {
      if ResOf(files[i]) == m {
        CanonicalEndsWithTag(files[i]);
        assert false;
      }
    }
    assert ResOf(files[j]) == m;
    forall i | 0 <= i < |files| && ResOf(files[i]) == m ensures files[j] in files[..i + 1] {
      assert files[..i + 1][j] == files[j];
    }
  }

  lemma SearchExample1080()
    ensures SearchRes("Movie - 1080p.mp4") == Some(1080)
  {
    var a := "Movie - 1080p.mp4";
    Match1080();
    assert Captured(a, 8) == "1080";
    Value1080();
  }

  lemma Match1080()
    ensures DigitRun("Movie - 1080p.mp4", 8) == 4
    ensures FirstResAt("Movie - 1080p.mp4", 0) == Some(8)
  {
    var a := "Movie - 1080p.mp4";
    assert DigitRun(a, 12) == 0;
    assert DigitRun(a, 8) == 4;
    assert ResAt(a, 8);
    assert forall k :: 0 <= k < 8 ==> !IsDigit(a[k]);
  }

  lemma Value1080()
    ensures DigitsValue("1080") == 1080
  {
    assert "1080"[..3] == "108" && "108"[..2] == "10" && "10"[..1] == "1";
  }

  lemma SearchExample720()
    ensures SearchRes("Movie - 720p.mp4") == Some(720)
  {
    var b := "Movie - 720p.mp4";
    Match720();
    assert Captured(b, 8) == "720";
    Value720();
  }

  lemma Match720()
    ensures DigitRun("Movie - 720p.mp4", 8) == 3
    ensures FirstResAt("Movie - 720p.mp4", 0) == Some(8)
  {
    var b := "Movie - 720p.mp4";
    assert DigitRun(b, 11) == 0;
    assert DigitRun(b, 8) == 3;
    assert ResAt(b, 8);
    assert forall k :: 0 <= k < 8 ==> !IsDigit(b[k]);
  }

  lemma Value720()
    ensures DigitsValue("720") == 720
  {
    assert "720"[..2] == "72" && "72"[..1] == "7";
  }

  lemma Render1080()
    ensures NatToString(1080) == "1080"
  {
    assert NatToString(1) == "1";
    assert NatToString(10) == "1" + "0";
    assert NatToString(108) == "10" + "8";
    assert NatToString(1080) == "108" + "0";
  }

  lemma ScanExample()
    ensures ScanHighest(["Movie - 1080p.mp4", "Movie - 720p.mp4"], 0) == Success(Scan(1080, None))
  {
    var a := "Movie - 1080p.mp4";
    var b := "Movie - 720p.mp4";
    SearchExample1080();
    SearchExample720();
    assert EndsWith(a, Suffix) && EndsWith(b, Suffix);
    assert ScanHighest([b], 1080) == Success(Scan(1080, None));
    assert [a, b][1..] == [b];
  }

  /** Of `Movie - 1080p.mp4` and `Movie - 720p.mp4`, the 1080p file is the
      master. */
  lemma DuplicateExample()
    ensures FindHighestRes(["Movie - 1080p.mp4", "Movie - 720p.mp4"]) == Success("Movie - 1080p.mp4")
  {
    var a := "Movie - 1080p.mp4";
    var b := "Movie - 720p.mp4";
    ScanExample();
    TagExample();
  }

  lemma TagExample()
    ensures FirstEnding(["Movie - 1080p.mp4", "Movie - 720p.mp4"], NatToString(1080) + Suffix, 0) == Some(0)
  {
    var a := "Movie - 1080p.mp4";
    Render1080();
    assert a[|a| - 9..] == "1080" + Suffix;
  }

  /** `list.remove(x)`: drop the first occurrence of `x`. */
  function RemoveFirst(s: seq<string>, x: string): (r: seq<string>)
    requires x in s
    ensures |r| == |s| - 1
    ensures multiset(r) + multiset{x} == multiset(s)
  {
    if s[0] == x then
      assert s == [s[0]] + s[1..];
      s[1..]
    else
      var rest := RemoveFirst(s[1..], x);
      assert s == [s[0]] + s[1..];
      [s[0]] + rest
  }

  /** The position of the first occurrence of `x`. */
  function IndexOf(s: seq<string>, x: string): (k: nat)
    requires x in s
    ensures k < |s| && s[k] == x && x !in s[..k]
  {
    if s[0] == x then 0
    else
      var k := IndexOf(s[1..], x);
      assert s[..k + 1] == [s[0]] + s[1..][..k];
      k + 1
  }

  /** Dropping position `k + 1` of a sequence is keeping its head and
      dropping position `k` of its tail. */
  lemma DropAfterHead<T>(s: seq<T>, k: nat)
    requires k + 1 < |s|
    ensures s[..k + 1] + s[k + 2..] == [s[0]] + (s[1..][..k] + s[1..][k + 1..])
  {
    assert s[..k + 1] == [s[0]] + s[1..][..k];
    assert s[k + 2..] == s[1..][k + 1..];
  }

  /** The names other than the one removed keep their order. */
  lemma {:induction false} RemoveFirstKeepsOrder(s: seq<string>, x: string)
    requires x in s
    ensures RemoveFirst(s, x) == s[..IndexOf(s, x)] + s[IndexOf(s, x) + 1..]
  {
    if s[0] != x {
      RemoveFirstKeepsOrder(s[1..], x);
      DropAfterHead(s, IndexOf(s[1..], x));
    }
  }

  /** The entries of `files_to_check`: a directory and its eligible names. */
  datatype Group = Group(root: string, files: seq<string>)

  /** The outcome of one directory: the master's name and the siblings to
      remove. */
  datatype Resolved = Resolved(master: string, removed: seq<string>)

  /** One iteration of `_check_movies`. */
  function ResolveGroup(files: seq<string>): (r: Result<Resolved, Crash>)
    requires |files| > 0
    ensures r.Success? ==> r.value.master in files
    ensures |files| == 1 ==> r == Success(Resolved(files[0], []))
  {
    if |files| > 1 then
      var master :- FindHighestRes(files);
      Success(Resolved(master, RemoveFirst(files, master)))
    else
      assert files == [files[0]];
      Success(Resolved(files[0], []))
  }

  /** Several files resolve exactly when the search for the highest
      resolution does, and then the master is its choice; the master and
      the removed names are the directory's files, as a multiset. */
  lemma ResolveGroupSpec(files: seq<string>)
    requires |files| > 0
    ensures var r := ResolveGroup(files);
      && (r.Success? ==> multiset(r.value.removed) + multiset{r.value.master} == multiset(files))
      && (|files| > 1 ==> (r.Success? <==> FindHighestRes(files).Success?))
      && (|files| > 1 && r.Success? ==> r.value.master == FindHighestRes(files).value)
  {
    if |files| == 1 {
      assert files == [files[0]];
    }
  }

  /** `os.remove` of each name in `names`, inside `root`. */
  function RemoveAll(root: string, names: seq<string>): (r: seq<Action>)
    ensures |r| == |names|
    ensures forall i :: 0 <= i < |names| ==> r[i] == Run(Remove(PathJoin(root, names[i])))
  {
    if |names| == 0 then [] else [Run(Remove(PathJoin(root, names[0])))] + RemoveAll(root, names[1..])
  }

  /** Every listed name is removed. */
  lemma RemoveAllRemoves(root: string, names: seq<string>, f: string)
    requires f in names
    ensures Run(Remove(PathJoin(root, f))) in RemoveAll(root, names)
  {
    var k :| 0 <= k < |names| && names[k] == f;
    assert RemoveAll(root, names)[k] == Run(Remove(PathJoin(root, f)));
  }

  /** What `_check_movies` leaves: the paths queued for processing, the
      removals it performed, and the crash that ended it, if any. The
      removals already run for earlier directories stay in the log when a
      later directory crashes. */
  datatype Checked = Checked(toProcess: seq<string>, actions: seq<Action>, crash: Option<Crash>)

  function FileCount(groups: seq<Group>): nat {
    if |groups| == 0 then 0 else |groups[0].files| + FileCount(groups[1..])
  }

  /** What `_check_movies` makes of one directory. */
  function Outcome(g: Group): Result<Resolved, Crash>
    requires |g.files| > 0
  {
    ResolveGroup(g.files)
  }

  /** The index of the first directory whose master search crashes, or
      `|groups|`. */
  function FirstUnresolved(groups: seq<Group>): (k: nat)
    requires forall i :: 0 <= i < |groups| ==> |groups[i].files| > 0
    ensures k <= |groups|
    ensures forall i :: 0 <= i < k ==> Outcome(groups[i]).Success?
    ensures k < |groups| ==> Outcome(groups[k]).Failure?
    decreases |groups|
  {
    if |groups| == 0 || Outcome(groups[0]).Failure? then 0
    else
      assert forall i :: 1 <= i < |groups| ==> groups[i] == groups[1..][i - 1];
      1 + FirstUnresolved(groups[1..])
  }

  /** `_check_movies` over the groups from `groups` on: the directories
      before the first crashing one are resolved, in order, and the crash
      of that one ends the run. */
  function CheckMovies(groups: seq<Group>): (r: Checked)
    requires forall i :: 0 <= i < |groups| ==> |groups[i].files| > 0
    ensures r.crash.None? <==> FirstUnresolved(groups) == |groups|
    ensures r.crash.Some? ==> r.crash.value == Outcome(groups[FirstUnresolved(groups)]).error
    ensures |r.toProcess| == FirstUnresolved(groups)
    ensures forall i :: 0 <= i < FirstUnresolved(groups) ==>
      r.toProcess[i] == PathJoin(groups[i].root, Outcome(groups[i]).value.master)
    decreases |groups|
  {
    if |groups| == 0 then Checked([], [], None)
    else
      var g := groups[0];
      match Outcome(g)
      case Failure(e) => Checked([], [], Some(e))
      case Success(res) =>
        var tail := groups[1..];
        var rest := CheckMovies(tail);
        CheckMoviesStep(groups, rest);
        Checked([PathJoin(g.root, res.master)] + rest.toProcess,
                RemoveAll(g.root, res.removed) + rest.actions, rest.crash)
  }

  /** What `CheckMovies` promises about `r` for `groups`. */
  ghost predicate ChecksMovies(groups: seq<Group>, r: Checked)
    requires forall i :: 0 <= i < |groups| ==> |groups[i].files| > 0
  {
    && (r.crash.None? <==> FirstUnresolved(groups) == |groups|)
    && (r.crash.Some? ==> r.crash.value == Outcome(groups[FirstUnresolved(groups)]).error)
    && |r.toProcess| == FirstUnresolved(groups)
    && (forall i :: 0 <= i < FirstUnresolved(groups) ==>
          r.toProcess[i] == PathJoin(groups[i].root, Outcome(groups[i]).value.master))
  }

  /** A resolved first directory put in front of the rest's outcome keeps
      the promise. */
  lemma CheckMoviesStep(groups: seq<Group>, rest: Checked)
    requires forall i :: 0 <= i < |groups| ==> |groups[i].files| > 0
    requires |groups| > 0 && Outcome(groups[0]).Success?
    requires ChecksMovies(groups[1..], rest)
    ensures ChecksMovies(groups, Checked([PathJoin(groups[0].root, Outcome(groups[0]).value.master)] + rest.toProcess,
                                         RemoveAll(groups[0].root, Outcome(groups[0]).value.removed) + rest.actions,
                                         rest.crash))
  {
    var tail := groups[1..];
    var q := [PathJoin(groups[0].root, Outcome(groups[0]).value.master)] + rest.toProcess;
    var k := FirstUnresolved(groups);
    assert k == 1 + FirstUnresolved(tail);
    if rest.crash.Some? {
      assert groups[k] == tail[k - 1];
    }
    forall i | 0 <= i < k
      ensures q[i] == PathJoin(groups[i].root, Outcome(groups[i]).value.master)
    {
      if i > 0 {
        assert groups[i] == tail[i - 1];
      }
    }
  }

  /** A resolved directory's master and removed names are as many as its
      files. */
  lemma ResolvedSize(files: seq<string>)
    requires |files| > 0 && ResolveGroup(files).Success?
    ensures |ResolveGroup(files).value.removed| + 1 == |files|
  {
    var res := ResolveGroup(files).value;
    ResolveGroupSpec(files);
    assert |multiset(res.removed) + multiset{res.master}| == |multiset(files)|;
  }

  /** Every file of a directory resolved before the first crash is either
      queued or removed: nothing in those directories is left untouched. */
  lemma {:induction false} CheckMoviesAccountsForEveryFile(groups: seq<Group>)
    requires forall i :: 0 <= i < |groups| ==> |groups[i].files| > 0
    ensures |CheckMovies(groups).toProcess| + |CheckMovies(groups).actions|
            == FileCount(groups[..FirstUnresolved(groups)])
    decreases |groups|
  {
    if |groups| == 0 || Outcome(groups[0]).Failure? {
      assert groups[..FirstUnresolved(groups)] == [];
    } else {
      var tail := groups[1..];
      var k := FirstUnresolved(groups);
      var res := Outcome(groups[0]).value;
      var rest := CheckMovies(tail);
      CheckMoviesAccountsForEveryFile(tail);
      ResolvedSize(groups[0].files);
      assert FileCount(groups[..k]) == |groups[0].files| + FileCount(tail[..k - 1]) by {
        assert k == 1 + FirstUnresolved(tail);
        assert groups[..k][0] == groups[0] && groups[..k][1..] == tail[..k - 1];
      }
      assert |CheckMovies(groups).toProcess| == 1 + |rest.toProcess|;
      assert |CheckMovies(groups).actions| == |res.removed| + |rest.actions|;
    }
  }

  /** Every file of a directory resolved before the first crash is either
      its master, queued under its directory, or a sibling, removed there. */
  lemma CheckMoviesHandlesEveryFile(groups: seq<Group>, i: nat, f: string)
    requires forall k :: 0 <= k < |groups| ==> |groups[k].files| > 0
    requires i < FirstUnresolved(groups) && f in groups[i].files
    ensures || (f == Outcome(groups[i]).value.master
                && PathJoin(groups[i].root, f) in CheckMovies(groups).toProcess)
            || Run(Remove(PathJoin(groups[i].root, f))) in CheckMovies(groups).actions
  {
    var res := Outcome(groups[i]).value;
    ResolveGroupSpec(groups[i].files);
    assert f in multiset(res.removed) + multiset{res.master};
    if f == res.master {
      assert CheckMovies(groups).toProcess[i] == PathJoin(groups[i].root, f);
    } else {
      assert f in res.removed;
      CheckMoviesRemovesEverySibling(groups, i, f);
    }
  }

  /** Each removal `_check_movies` performs takes away a sibling of the
      master that `_find_highest_res` chose, in the sibling's own directory,
      before the first crash. */
  lemma {:induction false} CheckMoviesRemovesSiblings(groups: seq<Group>)
    requires forall i :: 0 <= i < |groups| ==> |groups[i].files| > 0
    ensures forall a :: a in CheckMovies(groups).actions ==>
      exists i, f :: (0 <= i < FirstUnresolved(groups) && f in Outcome(groups[i]).value.removed
                      && a == Run(Remove(PathJoin(groups[i].root, f))))
    decreases |groups|
  {
    if |groups| > 0 && Outcome(groups[0]).Success? {
      var g := groups[0];
      var res := Outcome(g).value;
      var tail := groups[1..];
      CheckMoviesRemovesSiblings(tail);
      var rest := CheckMovies(tail);
      var acts := CheckMovies(groups).actions;
      assert acts == RemoveAll(g.root, res.removed) + rest.actions;
      forall a | a in acts
        ensures exists i, f :: (0 <= i < FirstUnresolved(groups) && f in Outcome(groups[i]).value.removed
                                && a == Run(Remove(PathJoin(groups[i].root, f))))
      {
        if a in RemoveAll(g.root, res.removed) {
          var k :| 0 <= k < |res.removed| && RemoveAll(g.root, res.removed)[k] == a;
          assert groups[0] == g;
          assert res.removed[k] in res.removed;
        } else {
          assert a in rest.actions;
          var i, f :| 0 <= i < FirstUnresolved(tail) && f in Outcome(tail[i]).value.removed
                      && a == Run(Remove(PathJoin(tail[i].root, f)));
          assert tail[i] == groups[i + 1];
        }
      }
    }
  }

  /** A first directory that resolves contributes its master and its
      removals ahead of the rest. */
  lemma CheckMoviesCons(groups: seq<Group>)
    requires forall k :: 0 <= k < |groups| ==> |groups[k].files| > 0
    requires |groups| > 0 && Outcome(groups[0]).Success?
    ensures CheckMovies(groups).actions
            == RemoveAll(groups[0].root, Outcome(groups[0]).value.removed) + CheckMovies(groups[1..]).actions
    ensures FirstUnresolved(groups) == 1 + FirstUnresolved(groups[1..])
  {
  }

  /** Every sibling of every master chosen before the first crash is
      removed, in its own directory. */
  lemma CheckMoviesRemovesEverySibling(groups: seq<Group>, i: nat, f: string)
    requires forall k :: 0 <= k < |groups| ==> |groups[k].files| > 0
    requires i < FirstUnresolved(groups) && f in Outcome(groups[i]).value.removed
    ensures Run(Remove(PathJoin(groups[i].root, f))) in CheckMovies(groups).actions
  {
    CheckMoviesRemovesAll(groups);
  }

  /** `acts` removes every sibling of every master chosen before the first
      crash, in its own directory. */
  ghost predicate RemovesSiblings(groups: seq<Group>, acts: seq<Action>)
    requires forall k :: 0 <= k < |groups| ==> |groups[k].files| > 0
  {
    forall i, f :: 0 <= i < FirstUnresolved(groups) && f in Outcome(groups[i]).value.removed ==>
      Run(Remove(PathJoin(groups[i].root, f))) in acts
  }

  lemma {:induction false} CheckMoviesRemovesAll(groups: seq<Group>)
    requires forall k :: 0 <= k < |groups| ==> |groups[k].files| > 0
    ensures RemovesSiblings(groups, CheckMovies(groups).actions)
    decreases |groups|
  {
    if |groups| > 0 && Outcome(groups[0]).Success? {
      CheckMoviesRemovesAll(groups[1..]);
      CheckMoviesCons(groups);
      RemovesSiblingsStep(groups, CheckMovies(groups[1..]).actions);
    }
  }

  /** A resolved first directory's removals put in front of removals that
      serve the rest serve the whole. */
  lemma RemovesSiblingsStep(groups: seq<Group>, rest: seq<Action>)
    requires forall k :: 0 <= k < |groups| ==> |groups[k].files| > 0
    requires |groups| > 0 && Outcome(groups[0]).Success?
    requires RemovesSiblings(groups[1..], rest)
    ensures RemovesSiblings(groups, RemoveAll(groups[0].root, Outcome(groups[0]).value.removed) + rest)
  {
    var tail := groups[1..];
    var acts := RemoveAll(groups[0].root, Outcome(groups[0]).value.removed) + rest;
    FirstUnresolvedCons(groups);
    forall i, f | 0 <= i < FirstUnresolved(groups) && f in Outcome(groups[i]).value.removed
      ensures Run(Remove(PathJoin(groups[i].root, f))) in acts
    {
      if i == 0 {
        RemoveAllRemoves(groups[0].root, Outcome(groups[0]).value.removed, f);
      } else {
        DropHeadIndex(groups, i);
        assert Run(Remove(PathJoin(tail[i - 1].root, f))) in rest;
      }
    }
  }

  /** Dropping the head shifts every later index down by one. */
  lemma DropHeadIndex<T>(s: seq<T>, i: nat)
    requires 0 < i < |s|
    ensures s[1..][i - 1] == s[i]
  {
  }

  /** A resolved first directory is counted, followed by the rest's count. */
  lemma FirstUnresolvedCons(groups: seq<Group>)
    requires forall k :: 0 <= k < |groups| ==> |groups[k].files| > 0
    requires FirstUnresolved(groups) > 0
    ensures |groups| > 0 && Outcome(groups[0]).Success?
    ensures FirstUnresolved(groups) == 1 + FirstUnresolved(groups[1..])
  {
  }

  /** One directory as `os.walk` reports it: its path and its file names. */
  datatype WalkEntry = WalkEntry(root: string, names: seq<string>)

  /** The names of `names` with an allowed extension, in order. */
  function KeepAllowed(names: seq<string>, mode: Mode): (r: seq<string>)
    ensures |r| <= |names|
  {
    if |names| == 0 then []
    else
      var rest := KeepAllowed(names[1..], mode);
      if IsAllowed(names[0], mode) then [names[0]] + rest else rest
  }

  /** The kept names are exactly the allowed ones. */
  lemma {:induction false} KeepAllowedSpec(names: seq<string>, mode: Mode, x: string)
    ensures x in KeepAllowed(names, mode) <==> x in names && IsAllowed(x, mode)
    decreases |names|
  {
    if |names| > 0 {
      KeepAllowedSpec(names[1..], mode, x);
      assert x in names <==> x == names[0] || x in names[1..];
    }
  }

  /** The entry `files_to_check` gets for one walked directory: its
      allowed names, or nothing when it has none. */
  function EntryGroup(e: WalkEntry, mode: Mode): (r: seq<Group>)
    ensures |r| <= 1
    ensures forall i :: 0 <= i < |r| ==> |r[i].files| > 0 && r[i].root == e.root
  {
    var kept := KeepAllowed(e.names, mode);
    if |kept| > 0 then [Group(e.root, kept)] else []
  }

  /** `files_to_check` as the first loop of `_find_files` builds it: the
      walked directories holding an allowed name, each with its allowed
      names, in walk order. */
  function CollectGroups(walk: seq<WalkEntry>, mode: Mode): (r: seq<Group>)
    ensures |r| <= |walk|
    ensures forall i :: 0 <= i < |r| ==> |r[i].files| > 0
    decreases |walk|
  {
    if |walk| == 0 then []
    else EntryGroup(walk[0], mode) + CollectGroups(walk[1..], mode)
  }

  /** `x` is listed under `root` in `groups`. */
  ghost predicate Grouped(groups: seq<Group>, root: string, x: string) {
    exists i :: 0 <= i < |groups| && groups[i].root == root && x in groups[i].files
  }

  /** The walk reports `x` in `root` and `x` has an allowed extension. */
  ghost predicate Eligible(walk: seq<WalkEntry>, mode: Mode, root: string, x: string) {
    exists j :: 0 <= j < |walk| && walk[j].root == root && x in walk[j].names && IsAllowed(x, mode)
  }

  lemma GroupedAppend(a: seq<Group>, b: seq<Group>, root: string, x: string)
    ensures Grouped(a + b, root, x) <==> Grouped(a, root, x) || Grouped(b, root, x)
  {
    if Grouped(a + b, root, x) {
      var i :| 0 <= i < |a + b| && (a + b)[i].root == root && x in (a + b)[i].files;
      if i >= |a| { assert (a + b)[i] == b[i - |a|]; }
    }
    if Grouped(b, root, x) {
      var i :| 0 <= i < |b| && b[i].root == root && x in b[i].files;
      assert (a + b)[|a| + i] == b[i];
    }
    if Grouped(a, root, x) {
      var i :| 0 <= i < |a| && a[i].root == root && x in a[i].files;
      assert (a + b)[i] == a[i];
    }
  }

  /** One directory's entry lists `x` under `root` exactly when that is the
      directory, it holds `x`, and `x` is allowed. */
  lemma EntryGroupSpec(e: WalkEntry, mode: Mode, root: string, x: string)
    ensures Grouped(EntryGroup(e, mode), root, x) <==> e.root == root && x in e.names && IsAllowed(x, mode)
  {
    KeepAllowedSpec(e.names, mode, x);
    var r := EntryGroup(e, mode);
    if e.root == root && x in e.names && IsAllowed(x, mode) {
      assert r[0].root == root && x in r[0].files;
    }
  }

  /** A name is listed under a directory exactly when the walk found it
      there and its extension is allowed. */
  lemma {:induction false} CollectGroupsMembership(walk: seq<WalkEntry>, mode: Mode, root: string, x: string)
    ensures Grouped(CollectGroups(walk, mode), root, x) <==> Eligible(walk, mode, root, x)
    decreases |walk|
  {
    if |walk| > 0 {
      var tail := walk[1..];
      CollectGroupsMembership(tail, mode, root, x);
      GroupedAppend(EntryGroup(walk[0], mode), CollectGroups(tail, mode), root, x);
      EntryGroupSpec(walk[0], mode, root, x);
      if Eligible(walk, mode, root, x) {
        var j :| 0 <= j < |walk| && walk[j].root == root && x in walk[j].names && IsAllowed(x, mode);
        if j > 0 {
          assert tail[j - 1] == walk[j];
        }
      }
      if Eligible(tail, mode, root, x) {
        var j :| 0 <= j < |tail| && tail[j].root == root && x in tail[j].names && IsAllowed(x, mode);
        assert walk[j + 1] == tail[j];
      }
    } else {
      assert !Grouped([], root, x);
    }
  }

  /** One directory's names joined to its path, in order. */
  function GroupPaths(g: Group): (r: seq<string>)
    ensures |r| == |g.files|
    ensures forall f :: f in g.files ==> PathJoin(g.root, f) in r
    ensures forall p :: p in r ==> exists f :: f in g.files && p == PathJoin(g.root, f)
  {
    var r := seq(|g.files|, k requires 0 <= k < |g.files| => PathJoin(g.root, g.files[k]));
    assert forall k :: 0 <= k < |g.files| ==> r[k] == PathJoin(g.root, g.files[k]);
    r
  }

  /** Every listed name joined to its directory, group by group. */
  function AllPaths(groups: seq<Group>): (r: seq<string>)
    ensures |r| == FileCount(groups)
    ensures forall p :: p in r ==> exists i, f :: (0 <= i < |groups| && f in groups[i].files
                                                    && p == PathJoin(groups[i].root, f))
    ensures forall i, f :: 0 <= i < |groups| && f in groups[i].files ==> PathJoin(groups[i].root, f) in r
    decreases |groups|
  {
    if |groups| == 0 then []
    else
      var here := GroupPaths(groups[0]);
      var rest := AllPaths(groups[1..]);
      assert forall i :: 1 <= i < |groups| ==> groups[i] == groups[1..][i - 1];
      here + rest
  }

  /** `_find_files` after the walk: the movies mode resolves duplicates,
      the other modes queue every listed file. */
  function FindFiles(walk: seq<WalkEntry>, mode: Mode): (r: Checked)
    ensures mode != Movies ==> r == Checked(AllPaths(CollectGroups(walk, mode)), [], None)
    ensures mode == Movies ==> r == CheckMovies(CollectGroups(walk, mode))
    ensures mode == Movies ==> |r.toProcess| <= |CollectGroups(walk, mode)|
    ensures mode == Movies && r.crash.None? ==> |r.toProcess| == |CollectGroups(walk, mode)|
  {
    var groups := CollectGroups(walk, mode);
    if mode == Movies then CheckMovies(groups)
    else Checked(AllPaths(groups), [], None)
  }

  /** Outside the movies mode every file the walk found with an allowed
      extension is queued, joined to its directory. */
  lemma FindFilesQueuesEligible(walk: seq<WalkEntry>, mode: Mode, root: string, x: string)
    requires mode != Movies
    ensures Eligible(walk, mode, root, x) ==> PathJoin(root, x) in FindFiles(walk, mode).toProcess
  {
    CollectGroupsMembership(walk, mode, root, x);
  }

  /** Outside the movies mode nothing else is queued. */
  lemma FindFilesQueuesOnlyEligible(walk: seq<WalkEntry>, mode: Mode, p: string)
    requires mode != Movies && p in FindFiles(walk, mode).toProcess
    ensures exists root, x :: Eligible(walk, mode, root, x) && p == PathJoin(root, x)
  {
    var groups := CollectGroups(walk, mode);
    var i, f :| 0 <= i < |groups| && f in groups[i].files && p == PathJoin(groups[i].root, f);
    CollectGroupsMembership(walk, mode, groups[i].root, f);
    assert Grouped(groups, groups[i].root, f);
  }
}
