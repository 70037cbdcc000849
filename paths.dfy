/** How `update_library` decides that a library section's root folder holds
    an episode file: both paths are normalised (lower-cased, separator runs
    collapsed, a short leading drive or root prefix removed) and the section
    matches when its normalised root occurs anywhere in the normalised file
    location. */
module Paths {
  import opened Text

  /** The separators of the character class `[/\\]`. */
  predicate IsSep(c: char) {
    c == '/' || c == '\\'
  }

  /** The character a separator run is replaced with. */
  function Canon(c: char): char {
    if IsSep(c) then '/' else c
  }

  /** Every separator is `/` and no two separators are adjacent. */
  predicate Collapsed(s: string) {
    && (forall i :: 0 <= i < |s| ==> s[i] != '\\')
    && (forall i :: 0 <= i < |s| - 1 ==> !(s[i] == '/' && s[i + 1] == '/'))
  }

  /** `re.sub(r'[/\\]+', '/', s)`: each maximal run of separators becomes a
      single `/`. A separator followed by another separator is dropped, the
      last one of a run is written as `/`. */
  function Collapse(s: string): string {
    if |s| == 0 then []
    else if |s| >= 2 && IsSep(s[0]) && IsSep(s[1]) then Collapse(s[1..])
    else [Canon(s[0])] + Collapse(s[1..])
  }

  /** The result is collapsed, starts like `s` (up to the kind of
      separator), is no longer, and holds only characters of `s` and `/`. */
  lemma {:induction false} CollapseSpec(s: string)
    ensures |Collapse(s)| <= |s|
    ensures |s| > 0 ==> |Collapse(s)| > 0 && Collapse(s)[0] == Canon(s[0])
    ensures forall i :: 0 <= i < |Collapse(s)| ==> Collapse(s)[i] == '/' || Collapse(s)[i] in s
    ensures Collapsed(Collapse(s))
    decreases |s|
  {
    if |s| > 0 {
      CollapseSpec(s[1..]);
      var t := Collapse(s[1..]);
      if !(|s| >= 2 && IsSep(s[0]) && IsSep(s[1])) {
        var r := [Canon(s[0])] + t;
        assert forall i :: 1 <= i < |r| ==> r[i] == t[i - 1];
        assert forall i :: 0 <= i < |t| ==> t[i] == '/' || t[i] in s;
      } else {
        assert forall i :: 0 <= i < |t| ==> t[i] == '/' || t[i] in s;
      }
    }
  }

  /** Collapsing, read from the right: appending a separator right after a
      separator changes nothing, appending anything else appends it (a
      separator as `/`). With `Collapse([]) == []` this determines
      `Collapse` completely, i.e. every run becomes exactly one `/`. */
  lemma {:induction false} CollapseSnoc(s: string, c: char)
    ensures Collapse(s + [c])
            == if |s| > 0 && IsSep(s[|s| - 1]) && IsSep(c) then Collapse(s)
               else Collapse(s) + [Canon(c)]
    decreases |s|
  {
    if |s| > 0 {
      assert (s + [c])[1..] == s[1..] + [c];
      CollapseSnoc(s[1..], c);
    } else {
      assert s + [c] == [c];
    }
  }

  /** A string that is already collapsed is left alone; in particular
      collapsing is idempotent. */
  lemma {:induction false} CollapseFixesCollapsed(s: string)
    requires Collapsed(s)
    ensures Collapse(s) == s
    decreases |s|
  {
    if |s| > 0 {
      CollapseFixesCollapsed(s[1..]);
      assert [s[0]] + s[1..] == s;
    }
  }

  /** The characters of a path that are not separators, in order. */
  function Names(s: string): string {
    if s == [] then [] else (if IsSep(s[0]) then [] else [s[0]]) + Names(s[1..])
  }

  /** Collapsing neither adds, drops nor reorders a non-separator
      character. */
  lemma {:induction false} CollapseKeepsNames(s: string)
    ensures Names(Collapse(s)) == Names(s)
    decreases |s|
  {
    if |s| > 0 {
      CollapseKeepsNames(s[1..]);
      if !(|s| >= 2 && IsSep(s[0]) && IsSep(s[1])) {
        var r := Collapse(s[1..]);
        assert ([Canon(s[0])] + r)[1..] == r;
      }
    }
  }

  /** A doubled separator inside a path collapses like a single one. */
  lemma {:induction false} CollapseDoubledSep(a: string, x: char, y: char, b: string)
    requires IsSep(x) && IsSep(y)
    ensures Collapse(a + [x, y] + b) == Collapse(a + [x] + b)
    decreases |b|
  {
    if b == [] {
      assert a + [x, y] + b == (a + [x]) + [y];
      assert a + [x] + b == a + [x];
      CollapseSnoc(a + [x], y);
    } else {
      var b', c := b[..|b| - 1], b[|b| - 1];
      CollapseDoubledSep(a, x, y, b');
      assert a + [x, y] + b == (a + [x, y] + b') + [c];
      assert a + [x] + b == (a + [x] + b') + [c];
      CollapseSnoc(a + [x, y] + b', c);
      CollapseSnoc(a + [x] + b', c);
    }
  }

  /** The path with every `\` written as `/`. */
  function Slashed(s: string): (r: string)
    ensures |r| == |s| && forall i :: 0 <= i < |s| ==> r[i] == Canon(s[i])
  {
    if s == [] then [] else [Canon(s[0])] + Slashed(s[1..])
  }

  /** Which of the two separators a path uses does not matter. */
  lemma {:induction false} CollapseIgnoresSepKind(s: string)
    ensures Collapse(Slashed(s)) == Collapse(s)
    decreases |s|
  {
    if |s| > 0 {
      assert Slashed(s)[1..] == Slashed(s[1..]);
      CollapseIgnoresSepKind(s[1..]);
    }
  }

  /** The pattern `^(.{,2})[/\\]` matches a prefix of `k` characters
      followed by a separator; `.` matches anything but a newline. */
  predicate PrefixMatch(s: string, k: int) {
    && 0 <= k <= 2 && k < |s| && IsSep(s[k])
    && (k >= 1 ==> s[0] != '\n') && (k >= 2 ==> s[1] != '\n')
  }

  /** `re.sub(r'^(.{,2})[/\\]', '', s)`: the match is anchored at the start
      and greedy, so the longest of the prefixes of 2, 1 and 0 characters
      that is followed by a separator is removed, together with that
      separator; at most one match is removed. */
  function StripPrefix(s: string): string {
    if |s| >= 3 && s[0] != '\n' && s[1] != '\n' && IsSep(s[2]) then s[3..]
    else if |s| >= 2 && s[0] != '\n' && IsSep(s[1]) then s[2..]
    else if |s| >= 1 && IsSep(s[0]) then s[1..]
    else s
  }

  /** `StripPrefix` keeps a suffix of `s`: all of it when the pattern does
      not match, else what follows the longest match; in particular a
      string with no separator among its first three characters is left
      alone. */
  lemma StripPrefixSpec(s: string)
    ensures |StripPrefix(s)| <= |s| && StripPrefix(s) == s[|s| - |StripPrefix(s)|..]
    ensures (forall k :: !PrefixMatch(s, k)) ==> StripPrefix(s) == s
    ensures (exists k :: PrefixMatch(s, k)) ==>
              exists m :: PrefixMatch(s, m) && StripPrefix(s) == s[m + 1..]
                          && forall k :: PrefixMatch(s, k) ==> k <= m
    ensures (forall i :: 0 <= i < |s| && i < 3 ==> !IsSep(s[i])) ==> StripPrefix(s) == s
  {
    if |s| >= 3 && s[0] != '\n' && s[1] != '\n' && IsSep(s[2]) {
      assert PrefixMatch(s, 2);
    } else if |s| >= 2 && s[0] != '\n' && IsSep(s[1]) {
      assert PrefixMatch(s, 1);
    } else if |s| >= 1 && IsSep(s[0]) {
      assert PrefixMatch(s, 0);
    }
  }

  /** The normal form of a section root or file location. */
  function Normalize(path: string): string {
    StripPrefix(Collapse(Lower(path)))
  }

  /** A normal form is lower-case and collapsed, and no longer than the
      path. */
  lemma NormalizeSpec(path: string)
    ensures Collapsed(Normalize(path))
    ensures forall i :: 0 <= i < |Normalize(path)| ==> !IsUpper(Normalize(path)[i])
    ensures |Normalize(path)| <= |path|
  {
    var c := Collapse(Lower(path));
    CollapseSpec(Lower(path));
    StripPrefixSpec(c);
    var r := StripPrefix(c);
    assert forall i :: 0 <= i < |r| ==> r[i] == c[|c| - |r| + i];
  }

  /** Paths that differ only in letter case or in the kind of separator
      have the same normal form. */
  lemma NormalizeIgnoresCaseAndSepKind(p: string, q: string)
    requires Slashed(Lower(p)) == Slashed(Lower(q))
    ensures Normalize(p) == Normalize(q)
  {
    CollapseIgnoresSepKind(Lower(p));
    CollapseIgnoresSepKind(Lower(q));
  }

  /** `needle` occurs in `hay` starting at index `i`. */
  predicate OccursAt(hay: string, needle: string, i: int) {
    0 <= i <= |hay| - |needle| && hay[i..i + |needle|] == needle
  }

  /** Python's `needle in hay` for strings: true for the empty needle. */
  function Contains(hay: string, needle: string): bool
    decreases |hay|
  {
    if needle <= hay then true
    else if |hay| == 0 then false
    else Contains(hay[1..], needle)
  }

  /** `Contains` is a substring test: it holds exactly when `needle`
      occurs somewhere in `hay`. */
  lemma {:induction false} ContainsIsSubstring(hay: string, needle: string)
    ensures Contains(hay, needle) <==> exists i :: OccursAt(hay, needle, i)
    decreases |hay|
  {
    ShiftOccurrence(hay, needle);
    if needle <= hay {
      assert OccursAt(hay, needle, 0);
    } else if |hay| > 0 {
      ContainsIsSubstring(hay[1..], needle);
    }
  }

  /** An occurrence is either at index 0, where it is a prefix, or an
      occurrence in `hay[1..]` shifted one to the right. */
  lemma ShiftOccurrence(hay: string, needle: string)
    ensures (exists i :: OccursAt(hay, needle, i))
            <==> needle <= hay || (|hay| > 0 && exists j :: OccursAt(hay[1..], needle, j))
  {
    if needle <= hay {
      assert OccursAt(hay, needle, 0);
    }
    if i :| OccursAt(hay, needle, i) {
      if i > 0 {
        assert hay[1..][i - 1..i - 1 + |needle|] == hay[i..i + |needle|];
        assert OccursAt(hay[1..], needle, i - 1);
      }
    }
    if |hay| > 0 {
      if j :| OccursAt(hay[1..], needle, j) {
        assert hay[1..][j..j + |needle|] == hay[j + 1..j + 1 + |needle|];
        assert OccursAt(hay, needle, j + 1);
      }
    }
  }

  /** The path test inside `update_library`'s location loop: does the
      section root `sectionPath` claim the file at `fileLocation`? */
  predicate SectionMatches(sectionPath: string, fileLocation: string) {
    Contains(Normalize(fileLocation), Normalize(sectionPath))
  }

  /** The test is a substring test on normal forms: a section root claims
      a file exactly when its normal form occurs somewhere in the file's. */
  lemma SectionMatchesIsSubstring(sectionPath: string, fileLocation: string)
    ensures SectionMatches(sectionPath, fileLocation)
            <==> exists i :: OccursAt(Normalize(fileLocation), Normalize(sectionPath), i)
  {
    ContainsIsSubstring(Normalize(fileLocation), Normalize(sectionPath));
  }

  /** The normal form of a path whose lower-cased form `lowered`
      collapses to `collapsed`. */
  lemma NormalizeInSteps(path: string, lowered: string, collapsed: string)
    requires Lower(path) == lowered && Collapse(lowered) == collapsed
    ensures Normalize(path) == StripPrefix(collapsed)
  {
  }

  /** A path without upper-case letters and without separator runs or
      backslashes is its own lower-cased and collapsed form. */
  lemma NormalizePlain(path: string)
    requires forall i :: 0 <= i < |path| ==> !IsUpper(path[i])
    requires Collapsed(path)
    ensures Normalize(path) == StripPrefix(path)
  {
    assert Lower(path) == path;
    CollapseFixesCollapsed(path);
  }

  /** A Windows section root: the drive prefix goes, case and separator
      kind do not matter. */
  lemma NormalizeWindowsRoot()
    ensures Normalize("C:\\TV") == "tv"
  {
    LowerWindowsRoot();
    CollapseWindowsRoot();
    NormalizeInSteps("C:\\TV", "c:\\tv", "c:/tv");
    StripWindowsRoot();
  }

  lemma LowerWindowsRoot()
    ensures Lower("C:\\TV") == "c:\\tv"
  {
  }

  lemma CollapseWindowsRoot()
    ensures Collapse("c:\\tv") == "c:/tv"
  {
    SlashedWindowsRoot();
    CollapseIgnoresSepKind("c:\\tv");
    CollapseFixesCollapsed("c:/tv");
  }

  lemma SlashedWindowsRoot()
    ensures Slashed("c:\\tv") == "c:/tv"
  {
  }

  lemma StripWindowsRoot()
    ensures StripPrefix("c:/tv") == "tv"
  {
  }

  lemma NormalizeWindowsFile()
    ensures Normalize("c:/tv/x") == "tv/x"
  {
    NormalizePlain("c:/tv/x");
    assert StripPrefix("c:/tv/x") == "tv/x";
  }

  /** The section root `C:\TV` claims the file `c:/tv/x`. */
  lemma WindowsRootMatches()
    ensures SectionMatches("C:\\TV", "c:/tv/x")
  {
    NormalizeWindowsRoot();
    NormalizeWindowsFile();
    assert "tv" <= "tv/x";
  }

  /** A root of the form `/x/...` whose first folder name has at most two
      characters loses that folder too, not only the leading separator. */
  lemma ShortFirstFolderIsStripped()
    ensures Normalize("/a/b") == "b"
  {
    NormalizePlain("/a/b");
    assert StripPrefix("/a/b") == "b";
  }

  lemma NormalizeSiblingRoot()
    ensures Normalize("/tv") == "tv"
  {
    NormalizePlain("/tv");
    assert StripPrefix("/tv") == "tv";
  }

  lemma NormalizeSiblingFile()
    ensures Normalize("/tv2/x") == "tv2/x"
  {
    NormalizePlain("/tv2/x");
    assert StripPrefix("/tv2/x") == "tv2/x";
  }

  /** Matching is a substring test, not a folder-prefix test: the root
      `/tv` also claims a file in the sibling folder `/tv2`. */
  lemma SiblingFolderMatches()
    ensures SectionMatches("/tv", "/tv2/x")
  {
    NormalizeSiblingRoot();
    NormalizeSiblingFile();
    assert "tv" <= "tv2/x";
  }
}
