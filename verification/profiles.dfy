/** Saved schedule profiles (app/profiles.py): the file-name sanitiser, the
    profile directory as a map from file name to the profile it holds, the
    sorted list of saved names, and the built-in presets. */
module Profiles {
  import opened Wrappers
  import opened Store
  import opened Schedules
  import StringOrder

  const MaxNameLength := 60
  const JsonSuffix := ".json"

  // ---------------------------------------------------------------------
  // Characters

  /** `str.isspace` on ASCII. */
  predicate IsSpace(c: char) {
    c == ' ' || c == '\t' || c == '\n' || c == '\r' || c == '\U{000B}' || c == '\U{000C}'
    || ('\U{001C}' <= c <= '\U{001F}')
  }

  /** `str.isalnum` on ASCII. */
  predicate IsAlnum(c: char) {
    ('a' <= c <= 'z') || ('A' <= c <= 'Z') || ('0' <= c <= '9')
  }

  /** A character a sanitised name may hold. */
  predicate IsStemChar(c: char) {
    IsAlnum(c) || c == '-' || c == '_'
  }

  /** A character the sanitiser's filter keeps. */
  predicate IsKept(c: char) {
    IsStemChar(c) || c == ' '
  }

  predicate HasStemChar(s: string) {
    exists i :: 0 <= i < |s| && IsStemChar(s[i])
  }

  /** What the sanitiser can produce: at most 60 characters, each a letter,
      a digit, '-' or '_'. */
  predicate IsStem(t: string) {
    |t| <= MaxNameLength && forall i :: 0 <= i < |t| ==> IsStemChar(t[i])
  }

  // ---------------------------------------------------------------------
  // The sanitiser

  /** How many whitespace characters `s` starts with. */
  function LeadingSpaces(s: string): (n: nat)
    ensures n <= |s|
    ensures forall i :: 0 <= i < n ==> IsSpace(s[i])
    ensures n < |s| ==> !IsSpace(s[n])
    decreases |s|
  {
    if |s| > 0 && IsSpace(s[0]) then 1 + LeadingSpaces(s[1..]) else 0
  }

  /** How many whitespace characters `s` ends with. */
  function TrailingSpaces(s: string): (n: nat)
    ensures n <= |s|
    ensures forall i :: |s| - n <= i < |s| ==> IsSpace(s[i])
    ensures n < |s| ==> !IsSpace(s[|s| - n - 1])
    decreases |s|
  {
    if |s| > 0 && IsSpace(s[|s| - 1]) then 1 + TrailingSpaces(s[..|s| - 1]) else 0
  }

  /** `lstrip()`. */
  function TrimLeft(s: string): string {
    s[LeadingSpaces(s)..]
  }

  /** `rstrip()`. */
  function TrimRight(s: string): string {
    s[..|s| - TrailingSpaces(s)]
  }

  function Strip(s: string): string {
    TrimRight(TrimLeft(s))
  }

  /** The characters of `s` the filter keeps, in order. */
  function KeepAllowed(s: string): (r: string)
    ensures forall i :: 0 <= i < |r| ==> IsKept(r[i])
    decreases |s|
  {
    if |s| == 0 then ""
    else if IsKept(s[|s| - 1]) then KeepAllowed(s[..|s| - 1]) + [s[|s| - 1]]
    else KeepAllowed(s[..|s| - 1])
  }

  /** `str.replace` of one character by another. */
  function ReplaceChar(s: string, from: char, to: char): (r: string)
    ensures |r| == |s|
    ensures forall i :: 0 <= i < |s| && s[i] != from ==> r[i] == s[i]
    ensures from != to ==> forall i :: 0 <= i < |r| ==> r[i] != from
  {
    seq(|s|, i requires 0 <= i < |s| => if s[i] == from then to else s[i])
  }

  function SpacesToUnderscores(s: string): string {
    ReplaceChar(s, ' ', '_')
  }

  /** `_safe_name`. */
  function SafeName(name: string): (r: string)
    ensures IsStem(r)
  {
    var s := SpacesToUnderscores(Strip(KeepAllowed(Strip(name))));
    if |s| > MaxNameLength then s[..MaxNameLength] else s
  }

  // ---------------------------------------------------------------------
  // What the sanitiser does

  lemma {:induction false} KeepAllowedFixes(s: string)
    requires forall i :: 0 <= i < |s| ==> IsKept(s[i])
    ensures KeepAllowed(s) == s
    decreases |s|
  {
    if |s| > 0 {
      var init, c := s[..|s| - 1], s[|s| - 1];
      KeepAllowedFixes(init);
      assert KeepAllowed(s) == init + [c];
      assert init + [c] == s;
    }
  }

  lemma StripFixes(s: string)
    requires |s| > 0 ==> !IsSpace(s[0]) && !IsSpace(s[|s| - 1])
    ensures Strip(s) == s
  {
    assert TrimLeft(s) == s;
  }

  /** On text that needs no filtering or stripping, the sanitiser only turns
      spaces into '_' (and truncates). */
  lemma SafeNameOfClean(d: string)
    requires forall i :: 0 <= i < |d| ==> IsKept(d[i])
    requires |d| > 0 ==> d[0] != ' ' && d[|d| - 1] != ' '
    requires |d| <= MaxNameLength
    ensures SafeName(d) == SpacesToUnderscores(d)
  {
    StripFixes(d);
    KeepAllowedFixes(d);
  }

  /** A string that is already a stem passes through unchanged. */
  lemma SafeNameFixesStems(t: string)
    requires IsStem(t)
    ensures SafeName(t) == t
  {
    SafeNameOfClean(t);
    assert SpacesToUnderscores(t) == t;
  }

  lemma SafeNameIdempotent(name: string)
    ensures SafeName(SafeName(name)) == SafeName(name)
  {
    SafeNameFixesStems(SafeName(name));
  }

  lemma TrimLeftKeepsStemChars(s: string)
    ensures HasStemChar(TrimLeft(s)) <==> HasStemChar(s)
  {
    var a := LeadingSpaces(s);
    var l := TrimLeft(s);
    if HasStemChar(s) {
      var i :| 0 <= i < |s| && IsStemChar(s[i]);
      assert !IsSpace(s[i]);
      assert l[i - a] == s[i];
    }
    if HasStemChar(l) {
      var i :| 0 <= i < |l| && IsStemChar(l[i]);
      assert l[i] == s[a + i];
    }
  }

  lemma TrimRightKeepsStemChars(s: string)
    ensures HasStemChar(TrimRight(s)) <==> HasStemChar(s)
  {
    var r := TrimRight(s);
    if HasStemChar(s) {
      var i :| 0 <= i < |s| && IsStemChar(s[i]);
      assert !IsSpace(s[i]);
      assert r[i] == s[i];
    }
    if HasStemChar(r) {
      var i :| 0 <= i < |r| && IsStemChar(r[i]);
      assert r[i] == s[i];
    }
  }

  lemma StripKeepsStemChars(s: string)
    ensures HasStemChar(Strip(s)) <==> HasStemChar(s)
  {
    TrimLeftKeepsStemChars(s);
    TrimRightKeepsStemChars(TrimLeft(s));
  }

  /** The filter keeps every occurrence of a kept character and drops every
      other character. */
  lemma {:induction false} KeepAllowedCounts(s: string, c: char)
    ensures multiset(KeepAllowed(s))[c] == if IsKept(c) then multiset(s)[c] else 0
    decreases |s|
  {
    if |s| > 0 {
      var init, last := s[..|s| - 1], s[|s| - 1];
      KeepAllowedCounts(init, c);
      assert multiset(s) == multiset(init) + multiset{last} by {
        assert s == init + [last];
      }
    }
  }

  /** On one character the filter keeps it exactly when it is allowed. */
  lemma KeepAllowedOne(c: char)
    ensures KeepAllowed([c]) == if IsKept(c) then [c] else ""
  {
    assert [c][..0] == "";
  }

  /** The filter distributes over concatenation, so the kept characters stay
      in their order. */
  lemma {:induction false} KeepAllowedAppend(a: string, b: string)
    ensures KeepAllowed(a + b) == KeepAllowed(a) + KeepAllowed(b)
    decreases |b|
  {
    if |b| == 0 {
      assert a + b == a;
    } else {
      var init, last := b[..|b| - 1], b[|b| - 1];
      var ab := a + b;
      assert ab[..|ab| - 1] == a + init && ab[|ab| - 1] == last;
      KeepAllowedAppend(a, init);
      if IsKept(last) {
        assert KeepAllowed(ab) == KeepAllowed(a) + KeepAllowed(init) + [last];
      }
    }
  }

  lemma KeepAllowedKeepsStemChars(s: string)
    ensures HasStemChar(KeepAllowed(s)) <==> HasStemChar(s)
  {
    var k := KeepAllowed(s);
    if HasStemChar(s) {
      var i :| 0 <= i < |s| && IsStemChar(s[i]);
      KeepAllowedCounts(s, s[i]);
      assert s[i] in multiset(s);
      assert s[i] in multiset(k);
    }
    if HasStemChar(k) {
      var i :| 0 <= i < |k| && IsStemChar(k[i]);
      KeepAllowedCounts(s, k[i]);
      assert k[i] in multiset(k);
      assert k[i] in multiset(s);
    }
  }

  /** Stripping leaves nothing exactly when there is nothing but whitespace. */
  lemma StripEmpty(s: string)
    ensures Strip(s) == "" <==> forall i :: 0 <= i < |s| ==> IsSpace(s[i])
  {
  }

  /** Text of kept characters is all whitespace exactly when it holds no
      letter, digit, '-' or '_'. */
  lemma KeptAllSpaces(k: string)
    requires forall i :: 0 <= i < |k| ==> IsKept(k[i])
    ensures (forall i :: 0 <= i < |k| ==> IsSpace(k[i])) <==> !HasStemChar(k)
  {
    if HasStemChar(k) {
      var i :| 0 <= i < |k| && IsStemChar(k[i]);
      assert !IsSpace(k[i]);
    }
  }

  /** The sanitised name is empty exactly when the name holds no letter,
      digit, '-' or '_' (so "save" refuses it and "load" finds nothing). */
  lemma SafeNameEmpty(name: string)
    ensures SafeName(name) == "" <==> !HasStemChar(name)
  {
    var k := KeepAllowed(Strip(name));
    var t := Strip(k);
    var u := SpacesToUnderscores(t);
    assert SafeName(name) == (if |u| > MaxNameLength then u[..MaxNameLength] else u);
    assert SafeName(name) == "" <==> t == "";
    StripKeepsStemChars(name);
    KeepAllowedKeepsStemChars(Strip(name));
    StripEmpty(k);
    KeptAllSpaces(k);
  }

  /** Stripping twice is stripping once. */
  lemma StripIdempotent(s: string)
    ensures Strip(Strip(s)) == Strip(s)
  {
    var l := TrimLeft(s);
    var t := TrimRight(l);
    if |t| > 0 {
      assert t[0] == l[0];
    }
    StripFixes(t);
  }

  /** Surrounding whitespace makes no difference to the sanitised name, so
      the handler's own `strip()` before saving or loading changes nothing. */
  lemma SafeNameIgnoresSurroundingSpace(name: string)
    ensures SafeName(Strip(name)) == SafeName(name)
  {
    StripIdempotent(name);
  }

  // ---------------------------------------------------------------------
  // The directory

  /** The profile directory: file name to the profile the file holds. */
  type ProfileDir = map<string, Profile>

  function FileName(stem: string): string {
    stem + JsonSuffix
  }

  lemma StemFileName(t: string)
    requires IsStem(t)
    ensures var f := FileName(t);
            && |f| == |t| + 5
            && (forall i :: 0 <= i < |f| ==> f[i] != '/')
            && (forall i :: 0 <= i < |f| && f[i] == '.' ==> i == |f| - 5)
  {
    var f := FileName(t);
    assert forall i :: 0 <= i < |t| ==> f[i] == t[i];
    assert f[|t|..] == ".json";
  }

  /** The file a name is saved under cannot leave the directory: it has no
      '/' and its only '.' is the one of the suffix. */
  lemma FileNameStaysInDirectory(name: string)
    ensures var f := FileName(SafeName(name));
            && |f| == |SafeName(name)| + 5
            && (forall i :: 0 <= i < |f| ==> f[i] != '/')
            && (forall i :: 0 <= i < |f| && f[i] == '.' ==> i == |f| - 5)
  {
    StemFileName(SafeName(name));
  }

  /** Different stems are saved in different files. */
  lemma FileNameInjective(a: string, b: string)
    ensures FileName(a) == FileName(b) ==> a == b
  {
    if FileName(a) == FileName(b) {
      assert |a| == |b|;
      assert a == FileName(a)[..|a|];
      assert b == FileName(b)[..|b|];
    }
  }

  /** The outcome of `save_profile`: whether it wrote, and the directory after. */
  datatype Saved = Saved(ok: bool, dir: ProfileDir)

  /** `save_profile`: refuse a name that sanitises to nothing, otherwise
      write (or overwrite) the file of the sanitised name. */
  function SaveProfile(dir: ProfileDir, name: string, p: Profile): (r: Saved)
    ensures r.ok <==> HasStemChar(name)
    ensures !r.ok ==> r.dir == dir
    ensures r.ok ==> r.dir.Keys == dir.Keys + {FileName(SafeName(name))}
    ensures r.ok ==> r.dir[FileName(SafeName(name))] == p
    ensures forall f :: f in dir && f != FileName(SafeName(name)) ==> r.dir[f] == dir[f]
  {
    SafeNameEmpty(name);
    var safe := SafeName(name);
    if safe == "" then Saved(false, dir)
    else Saved(true, dir[FileName(safe) := p])
  }

  /** `load_profile`: the profile in the file of the sanitised name, if any. */
  function LoadProfile(dir: ProfileDir, name: string): (r: Option<Profile>)
    ensures r.Some? <==> HasStemChar(name) && FileName(SafeName(name)) in dir
    ensures r.Some? ==> r.value == dir[FileName(SafeName(name))]
  {
    SafeNameEmpty(name);
    var safe := SafeName(name);
    if safe == "" then None
    else if FileName(safe) !in dir then None
    else Some(dir[FileName(safe)])
  }

  /** Loading after saving gives back what was saved, under the same name and
      under every name that sanitises alike; other saved profiles stay as they were. */
  lemma SaveThenLoad(dir: ProfileDir, name: string, p: Profile, other: string)
    requires HasStemChar(name)
    ensures LoadProfile(SaveProfile(dir, name, p).dir, name) == Some(p)
    ensures SafeName(other) == SafeName(name) ==>
              LoadProfile(SaveProfile(dir, name, p).dir, other) == Some(p)
    ensures SafeName(other) != SafeName(name) ==>
              LoadProfile(SaveProfile(dir, name, p).dir, other) == LoadProfile(dir, other)
  {
    SafeNameEmpty(name);
    SafeNameEmpty(other);
    FileNameInjective(SafeName(other), SafeName(name));
  }

  /** Saving twice under one name keeps only the second profile. */
  lemma SaveOverwrites(dir: ProfileDir, name: string, p1: Profile, p2: Profile)
    ensures SaveProfile(SaveProfile(dir, name, p1).dir, name, p2) == SaveProfile(dir, name, p2)
  {
  }

  // ---------------------------------------------------------------------
  // The list of saved names

  predicate IsJsonFile(f: string) {
    |f| >= |JsonSuffix| && f[|f| - |JsonSuffix|..] == JsonSuffix
  }

  function StemOf(f: string): string
    requires IsJsonFile(f)
  {
    f[..|f| - |JsonSuffix|]
  }

  /** The name a stem is listed under: '_' shown as a space. */
  function Display(stem: string): string {
    ReplaceChar(stem, '_', ' ')
  }

  /** The listed names of the JSON files among `files`, in their order. */
  function Listed(files: seq<string>): seq<string>
    decreases |files|
  {
    if |files| == 0 then []
    else
      var f := files[|files| - 1];
      Listed(files[..|files| - 1]) + (if IsJsonFile(f) then [Display(StemOf(f))] else [])
  }

  /** A name is listed exactly when some JSON file among `files` shows as it. */
  lemma {:induction false} ListedMembers(files: seq<string>, x: string)
    ensures x in Listed(files) <==> exists f :: f in files && IsJsonFile(f) && x == Display(StemOf(f))
    decreases |files|
  {
    if |files| > 0 {
      var init := files[..|files| - 1];
      var last := files[|files| - 1];
      assert files == init + [last];
      ListedMembers(init, x);
      if exists f :: f in files && IsJsonFile(f) && x == Display(StemOf(f)) {
        var f :| f in files && IsJsonFile(f) && x == Display(StemOf(f));
        if f != last {
          assert f in init;
        }
      }
    }
  }

  /** `os.listdir`: the directory's file names, each once, in some order. */
  predicate IsListing(listing: seq<string>, dir: ProfileDir) {
    && (forall i, j :: 0 <= i < j < |listing| ==> listing[i] != listing[j])
    && (forall f :: f in listing ==> f in dir)
    && (forall f :: f in dir ==> f in listing)
  }

  /** `list_profiles`: the names of the saved profiles, sorted. The order the
      directory hands out its files in is a parameter. */
  function ListProfiles(dir: ProfileDir, listing: seq<string>): (r: seq<string>)
    requires IsListing(listing, dir)
    ensures StringOrder.Sorted(r)
    ensures multiset(r) == multiset(Listed(listing))
    ensures forall x :: x in r <==> exists f :: f in dir && IsJsonFile(f) && x == Display(StemOf(f))
  {
    var r := StringOrder.Sort(Listed(listing));
    forall x
      ensures x in r <==> exists f :: f in dir && IsJsonFile(f) && x == Display(StemOf(f))
    {
      assert x in r <==> x in multiset(Listed(listing));
      ListedMembers(listing, x);
    }
    r
  }

  lemma {:induction false} ListedAppend(a: seq<string>, b: seq<string>)
    ensures Listed(a + b) == Listed(a) + Listed(b)
    decreases |b|
  {
    if |b| == 0 {
      assert a + b == a;
    } else {
      var init := b[..|b| - 1];
      assert a + b == (a + init) + [b[|b| - 1]];
      assert (a + b)[..|a + b| - 1] == a + init;
      assert (a + b)[|a + b| - 1] == b[|b| - 1];
      ListedAppend(a, init);
    }
  }

  /** Cut a list around one occurrence of `x`. */
  lemma SplitAround(b: seq<string>, x: string) returns (pre: seq<string>, post: seq<string>)
    requires x in b
    ensures b == pre + [x] + post
  {
    var j :| 0 <= j < |b| && b[j] == x;
    pre, post := b[..j], b[j + 1..];
    assert b == pre + [x] + post;
  }

  lemma ListedSplit(pre: seq<string>, x: string, post: seq<string>)
    ensures multiset(Listed(pre + [x] + post)) == multiset(Listed(pre + post)) + multiset(Listed([x]))
  {
    ListedAppend(pre + [x], post);
    ListedAppend(pre, [x]);
    ListedAppend(pre, post);
  }

  /** Listing depends only on which files there are, not on their order. */
  lemma {:induction false} ListedPermutation(a: seq<string>, b: seq<string>)
    requires multiset(a) == multiset(b)
    ensures multiset(Listed(a)) == multiset(Listed(b))
    decreases |a|
  {
    if |a| == 0 {
      assert |b| == |multiset(b)| == 0;
    } else {
      var x, tail := a[0], a[1..];
      assert multiset(tail) == multiset(a) - multiset{x} && x in multiset(a) by {
        assert a == [x] + tail;
      }
      var pre, post := SplitAround(b, x);
      assert multiset(pre + post) == multiset(b) - multiset{x} by {
        assert multiset(b) == multiset(pre + post) + multiset{x};
      }
      ListedPermutation(tail, pre + post);
      assert Listed(a) == Listed([x]) + Listed(tail) by {
        ListedAppend([x], tail);
        assert a == [x] + tail;
      }
      ListedSplit(pre, x, post);
      CountsCombine(Listed(a), Listed(b), Listed([x]), Listed(tail), Listed(pre + post));
    }
  }

  lemma CountsCombine(la: seq<string>, lb: seq<string>, lx: seq<string>, lt: seq<string>, lr: seq<string>)
    requires la == lx + lt
    requires multiset(lb) == multiset(lr) + multiset(lx)
    requires multiset(lt) == multiset(lr)
    ensures multiset(la) == multiset(lb)
  {
  }

  lemma {:induction false} DistinctCounts(s: seq<string>)
    requires forall i, j :: 0 <= i < j < |s| ==> s[i] != s[j]
    ensures forall x :: multiset(s)[x] == if x in s then 1 else 0
    decreases |s|
  {
    if |s| > 0 {
      var init := s[..|s| - 1];
      assert s == init + [s[|s| - 1]];
      DistinctCounts(init);
      assert s[|s| - 1] !in init;
    }
  }

  /** Whatever order the directory hands its files out in, the list is the same. */
  lemma ListingOrderIrrelevant(dir: ProfileDir, l1: seq<string>, l2: seq<string>)
    requires IsListing(l1, dir) && IsListing(l2, dir)
    ensures ListProfiles(dir, l1) == ListProfiles(dir, l2)
  {
    DistinctCounts(l1);
    DistinctCounts(l2);
    assert multiset(l1) == multiset(l2);
    ListedPermutation(l1, l2);
    StringOrder.SortedUnique(ListProfiles(dir, l1), ListProfiles(dir, l2));
  }

  // ---------------------------------------------------------------------
  // From the list back to the file

  /** A stem that the listing shows in a form that sanitises back to it:
      it does not start or end with '_'. */
  predicate RoundTrips(stem: string) {
    IsStem(stem) && |stem| > 0 && stem[0] != '_' && stem[|stem| - 1] != '_'
  }

  lemma DisplayRoundTrip(stem: string)
    requires RoundTrips(stem)
    ensures SafeName(Display(stem)) == stem
  {
    var d := Display(stem);
    assert forall i :: 0 <= i < |d| ==> IsKept(d[i]);
    SafeNameOfClean(d);
    assert SpacesToUnderscores(d) == stem;
  }

  /** The listed name of a file that round-trips loads that file. */
  lemma DisplayedNameLoads(dir: ProfileDir, f: string)
    requires f in dir && IsJsonFile(f) && RoundTrips(StemOf(f))
    ensures LoadProfile(dir, Display(StemOf(f))) == Some(dir[f])
  {
    var stem := StemOf(f);
    var name := Display(stem);
    DisplayRoundTrip(stem);
    assert f == stem + JsonSuffix;
    assert IsStemChar(name[0]);
    assert HasStemChar(name);
  }

  /** Loading a listed name finds the file it was listed from, provided the
      files' stems do not start or end with '_'. */
  lemma ListedNameLoads(dir: ProfileDir, listing: seq<string>, name: string)
    requires IsListing(listing, dir)
    requires name in ListProfiles(dir, listing)
    requires forall f :: f in dir && IsJsonFile(f) ==> RoundTrips(StemOf(f))
    ensures exists f :: f in dir && IsJsonFile(f) && name == Display(StemOf(f)) && LoadProfile(dir, name) == Some(dir[f])
  {
    var f :| f in dir && IsJsonFile(f) && name == Display(StemOf(f));
    DisplayedNameLoads(dir, f);
  }

  lemma StripOneSpace(d: string)
    requires |d| > 0 && !IsSpace(d[0]) && !IsSpace(d[|d| - 1])
    ensures Strip(" " + d) == d
  {
    assert (" " + d)[1..] == d;
    StripFixes(d);
  }

  lemma DisplayUnderscore(t: string)
    ensures Display("_" + t) == " " + Display(t)
  {
  }

  lemma LeadingSpaceRoundTrip(t: string)
    requires RoundTrips(t)
    ensures SafeName(" " + Display(t)) == t
  {
    var d := Display(t);
    assert d[0] == t[0] && d[|d| - 1] == t[|t| - 1];
    StripOneSpace(d);
    SafeNameIgnoresSurroundingSpace(" " + d);
    DisplayRoundTrip(t);
  }

  /** A stem that starts with '_' is listed with a leading space, which the
      sanitiser strips: loading the listed name looks for another file. */
  lemma LeadingUnderscoreDoesNotRoundTrip(t: string)
    requires RoundTrips(t) && |t| < MaxNameLength
    ensures SafeName("_" + t) == "_" + t
    ensures Display("_" + t) == " " + Display(t)
    ensures SafeName(Display("_" + t)) == t != "_" + t
  {
    assert IsStem("_" + t);
    SafeNameFixesStems("_" + t);
    DisplayUnderscore(t);
    LeadingSpaceRoundTrip(t);
  }

  // ---------------------------------------------------------------------
  // Presets

  function Entry3(start: int, end: int, daily: int): Entry {
    EntryOf(ScheduleRow(start, end, daily))
  }

  function Week(e0: Entry, e1: Entry, e2: Entry, e3: Entry, e4: Entry, e5: Entry, e6: Entry): map<WeekKey, Entry> {
    map[Named("0") := e0, Named("1") := e1, Named("2") := e2, Named("3") := e3,
        Named("4") := e4, Named("5") := e5, Named("6") := e6]
  }

  const SchoolPreset := "Schule (Standard)"
  const HolidayPreset := "Ferien"
  const LockedPreset := "Komplett gesperrt"

  /** `PRESETS`. */
  const Presets: map<string, Profile> := map[
    SchoolPreset := Profile(Week(Entry3(900, 1110, 120), Entry3(900, 1110, 120), Entry3(900, 1110, 120),
                                 Entry3(900, 1110, 120), Entry3(900, 1200, 180), Entry3(900, 1320, 240),
                                 Entry3(900, 1200, 180))),
    HolidayPreset := Profile(Week(Entry3(600, 1320, 240), Entry3(600, 1320, 240), Entry3(600, 1320, 240),
                                  Entry3(600, 1320, 240), Entry3(600, 1320, 240), Entry3(600, 1380, 300),
                                  Entry3(600, 1320, 240))),
    LockedPreset := Profile(Week(Entry3(0, 0, 0), Entry3(0, 0, 0), Entry3(0, 0, 0), Entry3(0, 0, 0),
                                 Entry3(0, 0, 0), Entry3(0, 0, 0), Entry3(0, 0, 0)))
  ]

  /** A sensible weekday entry: all three fields given, the window within the
      day, and no more minutes than the window holds. */
  predicate SaneEntry(e: Entry) {
    && "start_min" in e && "end_min" in e && "daily_minutes" in e
    && 0 <= e["start_min"] <= e["end_min"] <= 24 * 60
    && 0 <= e["daily_minutes"] <= e["end_min"] - e["start_min"]
  }

  /** A week that names each weekday "0".."6" with a sensible entry. */
  predicate SaneWeek(week: map<WeekKey, Entry>) {
    forall wd :: 0 <= wd < DaysPerWeek ==>
      Named(Decimal.NatToString(wd)) in week && SaneEntry(week[Named(Decimal.NatToString(wd))])
  }

  lemma WeekSane(e0: Entry, e1: Entry, e2: Entry, e3: Entry, e4: Entry, e5: Entry, e6: Entry)
    requires SaneEntry(e0) && SaneEntry(e1) && SaneEntry(e2) && SaneEntry(e3)
    requires SaneEntry(e4) && SaneEntry(e5) && SaneEntry(e6)
    ensures SaneWeek(Week(e0, e1, e2, e3, e4, e5, e6))
  {
    forall wd | IsWeekday(wd)
      ensures Named(Decimal.NatToString(wd)) in Week(e0, e1, e2, e3, e4, e5, e6)
    {
      assert Decimal.NatToString(wd) == [Decimal.DigitChar(wd)];
    }
  }

  /** Every preset names each weekday "0".."6" with a sensible entry, so
      applying it uses none of the defaults. */
  lemma PresetsWellFormed()
    ensures forall name :: name in Presets ==> SaneWeek(Presets[name].week)
  {
    var school, holiday, locked := Entry3(900, 1110, 120), Entry3(600, 1320, 240), Entry3(0, 0, 0);
    WeekSane(school, school, school, school, Entry3(900, 1200, 180), Entry3(900, 1320, 240), Entry3(900, 1200, 180));
    WeekSane(holiday, holiday, holiday, holiday, holiday, Entry3(600, 1380, 300), holiday);
    WeekSane(locked, locked, locked, locked, locked, locked, locked);
  }
}
