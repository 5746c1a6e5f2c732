/** The match rules: the set of recognised extensions (main.go:58-67), the
    paths the flat phase probes for a command (main.go:73-85) and the test
    the walk phase applies to a file (main.go:103-113). */
module Match {
  import opened Paths

  /** The built-in extensions (main.go:58-63). */
  const DefaultExtensions: set<string> := {".com", ".exe", ".bat", ".cmd"}

  /** `pathExt`: the built-in extensions and the lower-cased pieces of the
      `PATHEXT` value split at the path-list separator (main.go:58-67). */
  function ExtensionSet(pathExt: string, listSep: char): (exts: set<string>)
    ensures DefaultExtensions <= exts
    ensures forall i | 0 <= i < |Split(pathExt, listSep)| :: Lower(Split(pathExt, listSep)[i]) in exts
    ensures forall x | x in exts ::
              x in DefaultExtensions ||
              exists i | 0 <= i < |Split(pathExt, listSep)| :: x == Lower(Split(pathExt, listSep)[i])
  {
    DefaultExtensions + (set e | e in Split(pathExt, listSep) :: Lower(e))
  }

  /** An empty `PATHEXT` splits into one empty piece, so the empty extension
      is recognised. */
  lemma EmptyPathExtRecognisesBareNames(listSep: char)
    ensures "" in ExtensionSet("", listSep)
  {
    assert Split("", listSep) == [""];
    assert Lower("") == "";
  }

  /** Every recognised extension is in lower case. */
  lemma ExtensionsAreLowerCase(pathExt: string, listSep: char)
    ensures forall x | x in ExtensionSet(pathExt, listSep) :: Lower(x) == x
  {
    forall x | x in ExtensionSet(pathExt, listSep)
      ensures Lower(x) == x
    {
      if x in DefaultExtensions {
        assert Lower(x) == x;
      } else {
        var e :| e in Split(pathExt, listSep) && x == Lower(e);
        LowerIdempotent(e);
      }
    }
  }

  /** The paths the flat phase probes for `cmd` in directory `dir`: the
      joined path with each recognised extension appended when the command
      has no extension, and the joined path alone otherwise. */
  function Probes(dir: string, cmd: string, exts: set<string>): set<string> {
    if Ext(cmd) == "" then (set e | e in exts :: Join(dir, cmd) + e) else {Join(dir, cmd)}
  }

  /** The walk visitor's test of a file `p` against a command: the file's
      lower-cased extension is recognised and its lower-cased base name is
      the lower-cased command, with the file's extension appended when the
      command has none. */
  predicate WalkMatch(exts: set<string>, cmd: string, p: string) {
    Lower(Ext(p)) in exts &&
    Lower(Base(p)) == Lower(cmd + (if Ext(cmd) == "" then Ext(p) else ""))
  }

  /** For a file `name` listed in directory `dir`, the test speaks about the
      name alone. */
  lemma WalkMatchOfEntry(exts: set<string>, cmd: string, dir: string, name: string)
    requires name != "" && Separator !in name
    ensures WalkMatch(exts, cmd, Join(dir, name)) <==>
            Lower(Ext(name)) in exts &&
            Lower(name) == Lower(cmd + (if Ext(cmd) == "" then Ext(name) else ""))
  {
    BaseOfJoin(dir, name);
    ExtOfJoin(dir, name);
  }

  /** A command with an extension matches only a file of exactly that name,
      ignoring case: a name with a further extension never matches. */
  lemma ExplicitExtensionNotExtended(exts: set<string>, cmd: string, dir: string, e: string)
    requires Ext(cmd) != "" && Separator !in cmd
    requires IsExtension(e)
    ensures !WalkMatch(exts, cmd, Join(dir, cmd + e))
  {
    assert Separator !in cmd + e by {
      assert forall i | 0 <= i < |cmd + e| :: (cmd + e)[i] != Separator by {
        forall i | 0 <= i < |cmd + e| ensures (cmd + e)[i] != Separator {
          if i < |cmd| { assert (cmd + e)[i] == cmd[i]; }
          else if i > |cmd| { assert (cmd + e)[i] == e[i - |cmd|]; }
        }
      }
    }
    BaseOfJoin(dir, cmd + e);
    assert |Lower(cmd + e)| != |Lower(cmd + "")|;
  }

  /** A name whose extension is not recognised never matches, whatever its
      base name. */
  lemma UnrecognisedExtensionExcluded(exts: set<string>, cmd: string, p: string)
    requires Lower(Ext(p)) !in exts
    ensures !WalkMatch(exts, cmd, p)
  {
  }

  /** The two rules agree: a flat-phase probe of a well-formed extension is
      a file the walk phase would accept for the same command. */
  lemma ProbeIsWalkMatch(exts: set<string>, cmd: string, dir: string, e: string)
    requires Ext(cmd) == "" && cmd != "" && Separator !in cmd
    requires e in exts && Lower(e) == e
    requires e == "" || IsExtension(e)
    ensures Join(dir, cmd) + e in Probes(dir, cmd, exts)
    ensures WalkMatch(exts, cmd, Join(dir, cmd) + e)
  {
    var name := cmd + e;
    JoinThenAppend(dir, cmd, e);
    assert Separator !in name by {
      forall i | 0 <= i < |name| ensures name[i] != Separator {
        if i < |cmd| { assert name[i] == cmd[i]; }
        else { assert name[i] == e[i - |cmd|]; }
      }
    }
    BaseOfJoin(dir, name);
    ExtOfJoin(dir, name);
    if e == "" {
      assert name == cmd;
    } else {
      ExtOfAppended(cmd, e);
    }
  }

  /** A flat-phase probe of a command without an extension, made with a
      recognised extension of two dot-pieces such as `.tar.gz`, never passes
      the walk test: the name is compared with the command followed by its
      last piece only. */
  lemma MultiDotProbeNeverWalkMatches(exts: set<string>, cmd: string, dir: string, a: string, b: string)
    requires cmd != "" && Separator !in cmd && Ext(cmd) == ""
    requires IsExtension(a) && IsExtension(b)
    ensures !WalkMatch(exts, cmd, Join(dir, cmd + a + b))
  {
    var name := cmd + a + b;
    assert Separator !in name by {
      forall i | 0 <= i < |name| ensures name[i] != Separator {
        if i < |cmd| { assert name[i] == cmd[i]; }
        else if i < |cmd| + |a| { assert name[i] == a[i - |cmd|]; }
        else { assert name[i] == b[i - |cmd| - |a|]; }
      }
    }
    BaseOfJoin(dir, name);
    ExtOfJoin(dir, name);
    ExtOfAppended(cmd + a, b);
    assert |Lower(name)| != |Lower(cmd + b)|;
  }

  /** A command holding a separator never passes the walk test for a file
      listed in a directory, although the flat phase probes it as a path. */
  lemma SeparatorCommandNeverWalkMatches(exts: set<string>, cmd: string, dir: string, name: string)
    requires Separator in cmd
    requires name != "" && Separator !in name
    ensures !WalkMatch(exts, cmd, Join(dir, name))
  {
    BaseOfJoin(dir, name);
    var want := cmd + (if Ext(cmd) == "" then Ext(Join(dir, name)) else "");
    var i :| 0 <= i < |cmd| && cmd[i] == Separator;
    assert want[i] == Separator;
    assert Lower(want)[i] == Separator;
    if |name| == |want| {
      assert name[i] != Separator;
      assert Lower(name)[i] != Lower(want)[i];
    }
    assert Lower(Base(Join(dir, name))) != Lower(want);
  }

  /** Matching ignores the case of both the command and the file name. */
  lemma WalkMatchIgnoresCase(exts: set<string>, cmd: string, dir: string, name: string)
    requires name != "" && Separator !in name
    ensures WalkMatch(exts, cmd, Join(dir, name)) <==>
            WalkMatch(exts, Lower(cmd), Join(dir, Lower(name)))
  {
    var lname := Lower(name);
    assert Separator !in lname by {
      forall i | 0 <= i < |lname| ensures lname[i] != Separator {
        assert name[i] != Separator;
      }
    }
    WalkMatchOfEntry(exts, cmd, dir, name);
    WalkMatchOfEntry(exts, Lower(cmd), dir, lname);
    ExtLower(name);
    ExtLower(cmd);
    LowerIdempotent(name);
    LowerIdempotent(Ext(name));
    LowerIdempotent(cmd);
    var tail := if Ext(cmd) == "" then Ext(name) else "";
    LowerConcat(cmd, tail);
    LowerConcat(Lower(cmd), Lower(tail));
    LowerIdempotent(tail);
    assert (if Ext(Lower(cmd)) == "" then Ext(lname) else "") == Lower(tail);
  }

  /** A command with an extension is found by the walk only if that
      extension is recognised, even for a file of exactly that name, while
      the flat phase probes the name whatever its extension. */
  lemma ExactNameNeedsRecognisedExtension(exts: set<string>, cmd: string, dir: string)
    requires cmd != "" && Separator !in cmd && Ext(cmd) != ""
    ensures Probes(dir, cmd, exts) == {Join(dir, cmd)}
    ensures WalkMatch(exts, cmd, Join(dir, cmd)) <==> Lower(Ext(cmd)) in exts
  {
    WalkMatchOfEntry(exts, cmd, dir, cmd);
    assert cmd + "" == cmd;
  }

  /** With an empty `PATHEXT` the flat phase probes a command without an
      extension under its bare name. */
  lemma BareNameProbed(listSep: char, cmd: string, dir: string)
    requires Ext(cmd) == ""
    ensures Join(dir, cmd) in Probes(dir, cmd, ExtensionSet("", listSep))
  {
    EmptyPathExtRecognisesBareNames(listSep);
    assert Join(dir, cmd) + "" == Join(dir, cmd);
  }
}
