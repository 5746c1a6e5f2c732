/** The parts of Go's `path/filepath` and `strings` packages that the locator
    relies on: `filepath.Ext`, `filepath.Base` and `filepath.Join` (without
    the path cleaning `Join` performs), `strings.ToLower` restricted to ASCII
    and `strings.Split` with a one-character separator. Paths use `/` as their
    only separator, as `path/filepath` does on Unix. */
module Paths {

  const Separator: char := '/'

  /** `suffix` ends `s`. */
  predicate IsSuffix(suffix: string, s: string) {
    |suffix| <= |s| && s[|s| - |suffix|..] == suffix
  }

  /** A non-empty extension in the sense of `filepath.Ext`: a dot followed by
      characters that are neither dots nor separators. */
  predicate IsExtension(e: string) {
    |e| >= 1 && e[0] == '.' &&
    forall i | 1 <= i < |e| :: e[i] != '.' && e[i] != Separator
  }

  // ---------------------------------------------------------------- ToLower

  function LowerChar(c: char): char {
    if 'A' <= c <= 'Z' then (c as int + 32) as char else c
  }

  /** `strings.ToLower`, on ASCII letters only. */
  function Lower(s: string): (r: string)
    ensures |r| == |s|
    ensures forall i | 0 <= i < |s| :: r[i] == LowerChar(s[i])
  {
    if s == "" then "" else [LowerChar(s[0])] + Lower(s[1..])
  }

  lemma LowerIdempotent(s: string)
    ensures Lower(Lower(s)) == Lower(s)
  {
  }

  lemma LowerConcat(a: string, b: string)
    ensures Lower(a + b) == Lower(a) + Lower(b)
  {
  }

  // ------------------------------------------------------------------- Ext

  /** `filepath.Ext`: the suffix of `path` that starts at the last dot of its
      final element, or "" when that element has no dot. */
  function Ext(path: string): (r: string)
    ensures IsSuffix(r, path)
    ensures r != "" ==> IsExtension(r)
    ensures r == "" ==>
      forall i | 0 <= i < |path| && path[i] == '.' :: Separator in path[i + 1..]
    decreases |path|
  {
    if path == [] || path[|path| - 1] == Separator then ""
    else if path[|path| - 1] == '.' then "."
    else
      var e := Ext(path[..|path| - 1]);
      if e == "" then "" else e + [path[|path| - 1]]
  }

  /** Appending an extension to a name makes that extension the name's `Ext`. */
  lemma {:induction false} ExtOfAppended(s: string, e: string)
    requires IsExtension(e)
    ensures Ext(s + e) == e
    decreases |e|
  {
    var p := s + e;
    if |e| == 1 {
      assert p[|p| - 1] == '.';
    } else {
      var e' := e[..|e| - 1];
      assert IsExtension(e');
      assert p[..|p| - 1] == s + e';
      ExtOfAppended(s, e');
    }
  }

  /** The extension of a path is the extension of its final element. */
  lemma {:induction false} ExtAfterSeparator(d: string, n: string)
    requires Separator !in n
    ensures Ext(d + [Separator] + n) == Ext(n)
    decreases |n|
  {
    var p := d + [Separator] + n;
    if n == [] {
      assert p[|p| - 1] == Separator;
    } else {
      assert p[|p| - 1] == n[|n| - 1];
      assert p[..|p| - 1] == d + [Separator] + n[..|n| - 1];
      ExtAfterSeparator(d, n[..|n| - 1]);
    }
  }

  /** Lower-casing a path does not move its extension. */
  lemma {:induction false} ExtLower(s: string)
    ensures Ext(Lower(s)) == Lower(Ext(s))
    decreases |s|
  {
    if s != [] {
      var init := s[..|s| - 1];
      var c := s[|s| - 1];
      var lc := LowerChar(c);
      assert s == init + [c];
      LowerConcat(init, [c]);
      var l := Lower(init) + [lc];
      assert Lower(s) == l;
      assert l[..|l| - 1] == Lower(init);
      assert l[|l| - 1] == lc;
      if c == Separator {
        assert lc == Separator;
      } else if c == '.' {
        assert lc == '.';
        assert Lower(".") == ".";
      } else {
        assert lc != Separator && lc != '.';
        ExtLower(init);
        var e := Ext(init);
        if e != "" {
          LowerConcat(e, [c]);
        }
      }
    }
  }

  // ------------------------------------------------------------------ Base

  /** `path` without its trailing separators. */
  function TrimSeparators(s: string): (r: string)
    ensures |r| <= |s| && r == s[..|r|]
    ensures r != "" ==> r[|r| - 1] != Separator
    ensures forall i | |r| <= i < |s| :: s[i] == Separator
  {
    if s != "" && s[|s| - 1] == Separator then TrimSeparators(s[..|s| - 1]) else s
  }

  /** The part of `s` after its last separator. */
  function LastElement(s: string): (r: string)
    ensures IsSuffix(r, s)
    ensures Separator !in r
    ensures |r| < |s| ==> s[|s| - |r| - 1] == Separator
  {
    if s == "" || s[|s| - 1] == Separator then ""
    else LastElement(s[..|s| - 1]) + [s[|s| - 1]]
  }

  /** `filepath.Base`: the last element of `path` after trailing separators
      are removed; "." for the empty path and "/" for a path of separators. */
  function Base(path: string): (r: string)
    ensures path == "" ==> r == "."
    ensures path != "" && TrimSeparators(path) == "" ==> r == [Separator]
    ensures var t := TrimSeparators(path);
            t != "" ==> r != "" && Separator !in r && IsSuffix(r, t) &&
                        (|r| == |t| || t[|t| - |r| - 1] == Separator)
  {
    if path == "" then "."
    else
      var t := TrimSeparators(path);
      if t == "" then [Separator] else LastElement(t)
  }

  // ------------------------------------------------------------------ Join

  /** `filepath.Join` of two elements, without the `Clean` step. */
  function Join(dir: string, name: string): string {
    if dir == "" then name
    else if name == "" then dir
    else dir + [Separator] + name
  }

  /** After a separator (or at the start), the last element is everything
      that follows. */
  lemma {:induction false} LastElementOfSeparatorFree(d: string, n: string)
    requires Separator !in n
    requires d == "" || d[|d| - 1] == Separator
    ensures LastElement(d + n) == n
    decreases |n|
  {
    if n != "" {
      var p := d + n;
      assert p[|p| - 1] == n[|n| - 1];
      assert p[..|p| - 1] == d + n[..|n| - 1];
      LastElementOfSeparatorFree(d, n[..|n| - 1]);
    } else {
      assert d + n == d;
    }
  }

  /** The base name of a joined path is the name joined on. */
  lemma BaseOfJoin(dir: string, name: string)
    requires name != "" && Separator !in name
    ensures Base(Join(dir, name)) == name
  {
    var p := Join(dir, name);
    var prefix := if dir == "" then "" else dir + [Separator];
    assert p == prefix + name;
    assert TrimSeparators(p) == p;
    LastElementOfSeparatorFree(prefix, name);
  }

  /** The extension of a joined path is the extension of the name joined on. */
  lemma ExtOfJoin(dir: string, name: string)
    requires name != "" && Separator !in name
    ensures Ext(Join(dir, name)) == Ext(name)
  {
    if dir != "" {
      ExtAfterSeparator(dir, name);
    }
  }

  lemma JoinThenAppend(dir: string, name: string, e: string)
    requires name != ""
    ensures Join(dir, name) + e == Join(dir, name + e)
  {
  }

  // ----------------------------------------------------------------- Split

  /** `strings.Split(s, string(sep))`: the pieces of `s` between occurrences
      of `sep`. The empty string splits into one empty piece. */
  function Split(s: string, sep: char): (parts: seq<string>)
    ensures |parts| >= 1
    ensures forall i | 0 <= i < |parts| :: sep !in parts[i]
    decreases |s|
  {
    if s == "" then [""]
    else
      var rest := Split(s[1..], sep);
      if s[0] == sep then [""] + rest
      else [[s[0]] + rest[0]] + rest[1..]
  }

  /** `strings.Join(parts, string(sep))`, the inverse of `Split`. */
  function JoinList(parts: seq<string>, sep: char): string {
    if parts == [] then ""
    else if |parts| == 1 then parts[0]
    else parts[0] + [sep] + JoinList(parts[1..], sep)
  }

  /** Joining the pieces of a split gives back the original string. */
  lemma {:induction false} JoinSplit(s: string, sep: char)
    ensures JoinList(Split(s, sep), sep) == s
    decreases |s|
  {
    if s != "" {
      var rest := Split(s[1..], sep);
      JoinSplit(s[1..], sep);
      var parts := Split(s, sep);
      if s[0] == sep {
        assert parts == [""] + rest;
        assert parts[1..] == rest;
      } else {
        assert parts == [[s[0]] + rest[0]] + rest[1..];
        assert parts[1..] == rest[1..];
        if |rest| > 1 {
          assert JoinList(rest, sep) == rest[0] + [sep] + JoinList(rest[1..], sep);
        }
      }
    }
  }

  /** Splitting a join of separator-free pieces gives back the pieces. */
  lemma {:induction false} SplitJoin(parts: seq<string>, sep: char)
    requires |parts| >= 1
    requires forall i | 0 <= i < |parts| :: sep !in parts[i]
    ensures Split(JoinList(parts, sep), sep) == parts
    decreases |parts|, |parts[0]|
  {
    var s := JoinList(parts, sep);
    if parts[0] == "" {
      if |parts| > 1 {
        assert s == [sep] + JoinList(parts[1..], sep);
        assert s[1..] == JoinList(parts[1..], sep);
        SplitJoin(parts[1..], sep);
        assert parts == [""] + parts[1..];
      }
    } else {
      var c := parts[0][0];
      var parts' := [parts[0][1..]] + parts[1..];
      assert parts'[1..] == parts[1..];
      assert c != sep;
      assert s == [c] + JoinList(parts', sep) by {
        if |parts| > 1 {
          assert JoinList(parts', sep) == parts[0][1..] + [sep] + JoinList(parts[1..], sep);
          assert parts[0] == [c] + parts[0][1..];
        } else {
          assert parts[0] == [c] + parts[0][1..];
        }
      }
      assert s[1..] == JoinList(parts', sep);
      assert forall i | 0 <= i < |parts'| :: sep !in parts'[i] by {
        forall i | 0 <= i < |parts'| ensures sep !in parts'[i] {
          if i == 0 {
            assert forall x | x in parts[0][1..] :: x in parts[0];
          } else {
            assert parts'[i] == parts[i];
          }
        }
      }
      SplitJoin(parts', sep);
      assert parts[0] == [c] + parts'[0];
      assert parts == [[c] + parts'[0]] + parts'[1..];
    }
  }
}
