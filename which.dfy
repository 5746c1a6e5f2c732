/** The locator itself (main.go:69-130): the flat phase probes every
    directory of the search path for every command, and the walk phase, run
    when `-a` is given or when fewer commands are recorded than were given
    (a repeated command always causes this), walks every recursive search
    directory with a visitor that matches each file against every command. */
module Which {
  import opened Paths
  import opened FileSystem
  import opened Results
  import opened Walk
  import opened Match

  datatype Option<T> = None | Some(value: T)

  /** One invocation: the commands in the order they were given (a command
      may be given more than once), the recognised extensions and whether
      `-a` was given. */
  datatype Query = Query(commands: seq<string>, exts: set<string>, showAll: bool)

  /** `errFound` (main.go:13). */
  const Found: Signal := Err("found")

  function Get(m: Entries, k: string): set<string> {
    if k in m then m[k] else {}
  }

  /** Every command recorded is one of the commands given. */
  ghost predicate KeysIn(m: Entries, cmds: seq<string>) {
    forall k | k in m :: k in cmds
  }

  // ------------------------------------------------------------ gating

  /** The visitor's stopping test (main.go:118, 123): without `-a`, as many
      commands are recorded as were given. */
  predicate Satisfied(q: Query, m: Entries) {
    !q.showAll && |q.commands| == |m|
  }

  /** The test that starts the walk phase (main.go:90). */
  predicate WalkPhaseEntered(q: Query, m: Entries) {
    q.showAll || |m| != |q.commands|
  }

  /** The distinct commands. */
  function Distinct(s: seq<string>): set<string> {
    set x | x in s
  }

  predicate NoDuplicates(s: seq<string>) {
    forall i, j | 0 <= i < j < |s| :: s[i] != s[j]
  }

  /** A list has at most as many distinct elements as it has elements, and
      exactly as many when none repeats. */
  lemma {:induction false} DistinctSize(s: seq<string>)
    ensures |Distinct(s)| <= |s|
    ensures |Distinct(s)| == |s| <==> NoDuplicates(s)
    decreases |s|
  {
    if s != [] {
      var t := s[1..];
      DistinctSize(t);
      assert Distinct(s) == Distinct(t) + {s[0]} by {
        assert forall x :: x in s <==> x == s[0] || x in t;
      }
      if s[0] in t {
        assert Distinct(s) == Distinct(t);
        var j :| 0 <= j < |t| && t[j] == s[0];
        assert s[0] == s[j + 1];
      } else {
        assert |Distinct(s)| == |Distinct(t)| + 1;
        if NoDuplicates(t) {
          forall i, j | 0 <= i < j < |s| ensures s[i] != s[j] {
            assert s[j] == t[j - 1];
            if i > 0 { assert s[i] == t[i - 1]; }
          }
        } else {
          var i, j :| 0 <= i < j < |t| && t[i] == t[j];
          assert s[i + 1] == s[j + 1];
        }
      }
    }
  }

  lemma {:induction false} SubsetSize(a: set<string>, b: set<string>)
    requires a <= b
    ensures |a| <= |b|
    decreases |a|
  {
    if a != {} {
      var y :| y in a;
      SubsetSize(a - {y}, b - {y});
    }
  }

  lemma SubsetOfSameSize(a: set<string>, b: set<string>)
    requires a <= b && |b| <= |a|
    ensures a == b
  {
    if a != b {
      var x :| x in b && x !in a;
      SubsetSize(a, b - {x});
    }
  }

  /** The count test stands for "every command found": when only given
      commands are recorded, it holds exactly when `-a` is absent, no
      command was given twice and every command has been found. */
  lemma SatisfiedMeansAllFound(q: Query, m: Entries)
    requires KeysIn(m, q.commands)
    ensures Satisfied(q, m) <==>
            !q.showAll && NoDuplicates(q.commands) && forall c | c in q.commands :: c in m
  {
    DistinctSize(q.commands);
    assert m.Keys <= Distinct(q.commands);
    assert |m.Keys| == |m|;
    if Satisfied(q, m) {
      SubsetOfSameSize(m.Keys, Distinct(q.commands));
    }
    if !q.showAll && NoDuplicates(q.commands) && forall c | c in q.commands :: c in m {
      assert m.Keys == Distinct(q.commands);
    }
  }

  /** A command given twice keeps the count test from ever passing: the
      walk phase always runs and the visitor never stops the walk. */
  lemma DuplicatesNeverSatisfied(q: Query, m: Entries)
    requires KeysIn(m, q.commands) && !NoDuplicates(q.commands)
    ensures !Satisfied(q, m) && WalkPhaseEntered(q, m)
  {
    SatisfiedMeansAllFound(q, m);
  }

  // -------------------------------------------------------- walk visitor

  /** One command tried against file `p` (main.go:102-117): a command not
      yet recorded, or any command with `-a`, gains `p` when `p` matches. */
  function TryCommand(q: Query, m: Entries, cmd: string, p: string): Entries {
    if (cmd !in m || q.showAll) && WalkMatch(q.exts, cmd, p) then AddTo(m, cmd, p) else m
  }

  /** The loop over the commands (main.go:101-125), stopping with
      `errFound` as soon as the count test passes. */
  function ScanCommands(q: Query, m: Entries, p: string, cmds: seq<string>): (Entries, Signal)
    decreases |cmds|
  {
    if cmds == [] then (m, if Satisfied(q, m) then Found else Nil)
    else
      var m1 := TryCommand(q, m, cmds[0], p);
      if Satisfied(q, m1) then (m1, Found) else ScanCommands(q, m1, p, cmds[1..])
  }

  /** The walk visitor (main.go:92-128): a failed stat skips, a directory
      is entered, and a file is matched against the commands. */
  function MatchStep(q: Query, m: Entries, p: string, info: Info): (Entries, Signal) {
    match info
    case Failed => (m, SkipDir)
    case Directory => (m, Nil)
    case Regular => ScanCommands(q, m, p, q.commands)
  }

  function MatchVisitor(q: Query): Visitor<Entries> {
    (m: Entries, p: string, info: Info) => MatchStep(q, m, p, info)
  }

  /** What the entries may have gained over `m0` during the walk phase:
      nothing is lost, every new path matches its command, and without `-a`
      a command recorded before is left alone while a new one gains a
      single path. */
  ghost predicate Extends(q: Query, m0: Entries, m: Entries) {
    && (forall k, v | Recorded(m0, k, v) :: Recorded(m, k, v))
    && (forall k, v | Recorded(m, k, v) && !Recorded(m0, k, v) :: k in q.commands && WalkMatch(q.exts, k, v))
    && (!q.showAll ==> forall k | k in m0 :: k in m && m[k] == m0[k])
    && (!q.showAll ==> forall k | k in m && k !in m0 :: |m[k]| == 1)
  }

  lemma ExtendsTransitive(q: Query, a: Entries, b: Entries, c: Entries)
    requires Extends(q, a, b) && Extends(q, b, c)
    ensures Extends(q, a, c)
  {
  }

  /** Nothing recorded is lost, so a command recorded stays recorded. */
  lemma ExtendsKeepsKeys(q: Query, a: Entries, b: Entries)
    requires WellFormed(a) && Extends(q, a, b)
    ensures forall k | k in a :: k in b
  {
    forall k | k in a ensures k in b {
      var v :| v in a[k];
      assert Recorded(a, k, v);
    }
  }

  /** With `-a` the visitor never asks the walk to stop. */
  lemma {:induction false} ScanShowAll(q: Query, m: Entries, p: string, cmds: seq<string>)
    requires q.showAll
    ensures ScanCommands(q, m, p, cmds).1 == Nil
    decreases |cmds|
  {
    if cmds != [] {
      ScanShowAll(q, TryCommand(q, m, cmds[0], p), p, cmds[1..]);
    }
  }

  /** One command tried against file `p`. */
  lemma TryCommandFacts(q: Query, m: Entries, cmd: string, p: string)
    requires WellFormed(m) && KeysIn(m, q.commands) && cmd in q.commands
    ensures var m1 := TryCommand(q, m, cmd, p);
            && WellFormed(m1) && KeysIn(m1, q.commands) && Extends(q, m, m1)
            && (forall k, v | Recorded(m1, k, v) && !Recorded(m, k, v) :: v == p)
            && (WalkMatch(q.exts, cmd, p) ==> cmd in m1 && (q.showAll ==> p in m1[cmd]))
  {
    var m1 := TryCommand(q, m, cmd, p);
    if m1 != m {
      AddToWellFormed(m, cmd, p);
      assert m1 == AddTo(m, cmd, p);
      assert Recorded(m1, cmd, p);
    }
  }

  /** The loop over the commands for file `p`: it records only `p`, only
      for matching commands among those given, stops exactly when the count
      test passes, and leaves every matching command recorded (with `p`
      itself under `-a`). */
  lemma {:induction false} ScanFacts(q: Query, m: Entries, p: string, cmds: seq<string>)
    requires WellFormed(m) && KeysIn(m, q.commands)
    requires forall c | c in cmds :: c in q.commands
    ensures var (m', sig) := ScanCommands(q, m, p, cmds);
            && WellFormed(m') && KeysIn(m', q.commands) && Extends(q, m, m')
            && (forall k, v | Recorded(m', k, v) && !Recorded(m, k, v) :: v == p)
            && (sig == Nil || sig == Found) && (sig == Found <==> Satisfied(q, m'))
            && (forall c | c in cmds && WalkMatch(q.exts, c, p) :: c in m' && (q.showAll ==> p in m'[c]))
    decreases |cmds|
  {
    if cmds != [] {
      var cmd := cmds[0];
      var m1 := TryCommand(q, m, cmd, p);
      TryCommandFacts(q, m, cmd, p);
      if Satisfied(q, m1) {
        SatisfiedMeansAllFound(q, m1);
      } else {
        assert forall c | c in cmds[1..] :: c in cmds;
        ScanFacts(q, m1, p, cmds[1..]);
        var m' := ScanCommands(q, m1, p, cmds[1..]).0;
        ExtendsTransitive(q, m, m1, m');
        forall c | c in cmds && WalkMatch(q.exts, c, p)
          ensures c in m' && (q.showAll ==> p in m'[c])
        {
          if c != cmd {
            assert c in cmds[1..];
          } else {
            assert Recorded(m1, c, p) || (!q.showAll && c in m1);
          }
        }
      }
    }
  }

  /** One call of the visitor. */
  lemma MatchStepFacts(q: Query, m: Entries, p: string, info: Info)
    requires WellFormed(m) && KeysIn(m, q.commands)
    ensures var (m', sig) := MatchStep(q, m, p, info);
            && WellFormed(m') && KeysIn(m', q.commands) && Extends(q, m, m')
            && (info == Failed ==> m' == m && sig == SkipDir)
            && (info == Directory ==> m' == m && sig == Nil)
            && (info == Regular ==> (sig == Nil || sig == Found) && (sig == Found <==> Satisfied(q, m')))
            && (info == Regular ==>
                  forall c | c in q.commands && WalkMatch(q.exts, c, p) :: c in m' && (q.showAll ==> p in m'[c]))
            && (forall k, v | Recorded(m', k, v) && !Recorded(m, k, v) :: v == p && info == Regular)
  {
    if info == Regular {
      ScanFacts(q, m, p, q.commands);
    }
  }

  /** The visitor never skips a directory it is given (main.go:97-99). */
  lemma MatchVisitorEntersDirectories(q: Query)
    ensures EntersDirectories(MatchVisitor(q))
  {
  }

  /** With `-a` the visitor never skips a directory nor stops the walk. */
  lemma ShowAllNeverStops(q: Query)
    requires q.showAll
    ensures NeverStops(MatchVisitor(q))
  {
    forall s: Entries, p: string
      ensures MatchVisitor(q)(s, p, Directory).1 == Nil && !MatchVisitor(q)(s, p, Regular).1.Err?
    {
      ScanShowAll(q, s, p, q.commands);
    }
  }

  /** The invariant the visitor keeps over a walk started from `m0` with
      visits `t` made so far. */
  ghost predicate WalkInv(q: Query, m0: Entries, m: Entries, t: seq<Visit>) {
    && WellFormed(m) && KeysIn(m, q.commands) && Extends(q, m0, m)
    && (forall j | 0 <= j < |t| && t[j].info == Regular ::
          forall c | c in q.commands && WalkMatch(q.exts, c, t[j].path) ::
            c in m && (q.showAll ==> Recorded(m, c, t[j].path)))
    && (|t| > 0 && t[|t| - 1].sig.Err? ==> t[|t| - 1].sig == Found && Satisfied(q, m))
    && (forall k, v | Recorded(m, k, v) && !Recorded(m0, k, v) ::
          exists j | 0 <= j < |t| :: t[j].path == v && t[j].info == Regular)
  }

  /** One call of the visitor keeps the walk-phase invariant. */
  lemma WalkInvStep(q: Query, m0: Entries, s: Entries, t: seq<Visit>, p: string, i: Info)
    requires WalkInv(q, m0, s, t)
    ensures var out := MatchStep(q, s, p, i);
            WalkInv(q, m0, out.0, t + [Visit(p, i, out.1)])
  {
    var out := MatchStep(q, s, p, i);
    MatchStepFacts(q, s, p, i);
    ExtendsTransitive(q, m0, s, out.0);
    ExtendsKeepsKeys(q, s, out.0);
    var t' := t + [Visit(p, i, out.1)];
    forall j | 0 <= j < |t'| && t'[j].info == Regular
      ensures forall c | c in q.commands && WalkMatch(q.exts, c, t'[j].path) ::
                c in out.0 && (q.showAll ==> Recorded(out.0, c, t'[j].path))
    {
      if j < |t| {
        assert t'[j] == t[j];
      }
    }
    forall k, v | Recorded(out.0, k, v) && !Recorded(m0, k, v)
      ensures exists j | 0 <= j < |t'| :: t'[j].path == v && t'[j].info == Regular
    {
      if Recorded(s, k, v) {
        var j :| 0 <= j < |t| && t[j].path == v && t[j].info == Regular;
        assert t'[j] == t[j];
      } else {
        assert t'[|t|].path == v && t'[|t|].info == Regular;
      }
    }
  }

  lemma WalkInvPreserved(q: Query, m0: Entries)
    ensures Preserves(MatchVisitor(q), (m: Entries, t: seq<Visit>) => WalkInv(q, m0, m, t))
  {
    var visit := MatchVisitor(q);
    var inv := (m: Entries, t: seq<Visit>) => WalkInv(q, m0, m, t);
    forall s: Entries, t: seq<Visit>, p: string, i: Info | inv(s, t)
      ensures inv(visit(s, p, i).0, t + [Visit(p, i, visit(s, p, i).1)])
    {
      WalkInvStep(q, m0, s, t, p, i);
    }
  }

  /** One walk of the walk phase: the entries only gain matching paths of
      given commands; the walk stops early only with `errFound` once the
      count test passes, and so never under `-a`; a walk not stopped early
      visits every reachable path; and every command matching a visited
      file is recorded, with that file under `-a`. */
  lemma WalkFacts(q: Query, fs: FS, m: Entries, root: string)
    requires WellFormed(m) && KeysIn(m, q.commands)
    ensures var r := WalkRun(MatchVisitor(q), m, root, fs);
            && WellFormed(r.state) && KeysIn(r.state, q.commands) && Extends(q, m, r.state)
            && (r.result.Err? ==> r.result == Found && Satisfied(q, r.state))
            && (q.showAll ==> !r.result.Err?)
            && (!r.result.Err? ==> Covered(r.visits) == WalkReach(fs, root))
            && (forall j | 0 <= j < |r.visits| && r.visits[j].info == Regular ::
                  forall c | c in q.commands && WalkMatch(q.exts, c, r.visits[j].path) ::
                    c in r.state && (q.showAll ==> r.visits[j].path in r.state[c]))
  {
    var visit := MatchVisitor(q);
    var inv := (s: Entries, t: seq<Visit>) => WalkInv(q, m, s, t);
    WalkInvPreserved(q, m);
    assert inv(m, []);
    WalkPreserves(visit, inv, m, root, fs);
    MatchVisitorEntersDirectories(q);
    WalkCovers(visit, m, root, fs);
    if RootIsDir(fs, root) {
      WalkHalts(visit, m, root, fs);
    } else {
      RootNotDirectory(visit, m, root, fs);
    }
  }

  /** A walk adds only what it found: every pair it adds is a file the
      walk reached from `root` and visited, and that file passes the match
      test for the command it is recorded for. */
  lemma WalkSound(q: Query, fs: FS, m: Entries, root: string)
    requires WellFormed(m) && KeysIn(m, q.commands)
    ensures var m' := WalkRun(MatchVisitor(q), m, root, fs).state;
            forall k, v | Recorded(m', k, v) && !Recorded(m, k, v) ::
              WalkMatch(q.exts, k, v) && (v, Regular) in WalkReach(fs, root)
  {
    var visit := MatchVisitor(q);
    var inv := (s: Entries, t: seq<Visit>) => WalkInv(q, m, s, t);
    WalkInvPreserved(q, m);
    assert inv(m, []);
    WalkPreserves(visit, inv, m, root, fs);
    var r := WalkRun(visit, m, root, fs);
    VisitsCovered(r.visits);
    WalkWithin(visit, m, root, fs);
    forall k, v | Recorded(r.state, k, v) && !Recorded(m, k, v)
      ensures WalkMatch(q.exts, k, v) && (v, Regular) in WalkReach(fs, root)
    {
      var j :| 0 <= j < |r.visits| && r.visits[j].path == v && r.visits[j].info == Regular;
      assert (v, Regular) in Covered(r.visits);
    }
  }

  /** Every given command matching a file reachable from `root` is
      recorded in `m`, with that file under `-a`. */
  ghost predicate FindsUnder(q: Query, fs: FS, root: string, m: Entries) {
    forall p, c | (p, Regular) in WalkReach(fs, root) && c in q.commands && WalkMatch(q.exts, c, p) ::
      c in m && (q.showAll ==> p in m[c])
  }

  lemma FindsUnderKept(q: Query, fs: FS, root: string, a: Entries, b: Entries)
    requires WellFormed(a) && Extends(q, a, b) && FindsUnder(q, fs, root, a)
    ensures FindsUnder(q, fs, root, b)
  {
    ExtendsKeepsKeys(q, a, b);
    forall p, c | (p, Regular) in WalkReach(fs, root) && c in q.commands && WalkMatch(q.exts, c, p)
      ensures c in b && (q.showAll ==> p in b[c])
    {
      if q.showAll {
        assert Recorded(a, c, p);
      }
    }
  }

  /** A walk finds what it reaches: every given command that matches a file
      reachable from the root ends up recorded, with that file under `-a`. */
  lemma WalkFinds(q: Query, fs: FS, m: Entries, root: string)
    requires WellFormed(m) && KeysIn(m, q.commands)
    ensures FindsUnder(q, fs, root, WalkRun(MatchVisitor(q), m, root, fs).state)
  {
    WalkFacts(q, fs, m, root);
    var r := WalkRun(MatchVisitor(q), m, root, fs);
    if r.result.Err? {
      SatisfiedMeansAllFound(q, r.state);
    } else {
      forall p, c | (p, Regular) in WalkReach(fs, root) && c in q.commands && WalkMatch(q.exts, c, p)
        ensures c in r.state && (q.showAll ==> p in r.state[c])
      {
        assert (p, Regular) in Covered(r.visits);
        CoveredByVisits(r.visits);
        var j :| 0 <= j < |r.visits| && (p, Regular) == (r.visits[j].path, r.visits[j].info);
      }
    }
  }

  /** The walk phase: every search directory walked in turn from the state
      the previous walk left, whatever the previous walk returned
      (main.go:91-129). */
  function WalkAll(q: Query, fs: FS, m: Entries, dirs: seq<string>): Entries
    decreases |dirs|
  {
    if dirs == [] then m
    else WalkAll(q, fs, WalkRun(MatchVisitor(q), m, dirs[0], fs).state, dirs[1..])
  }

  lemma {:induction false} WalkAllFacts(q: Query, fs: FS, m: Entries, dirs: seq<string>)
    requires WellFormed(m) && KeysIn(m, q.commands)
    ensures var m' := WalkAll(q, fs, m, dirs);
            WellFormed(m') && KeysIn(m', q.commands) && Extends(q, m, m')
    decreases |dirs|
  {
    if dirs != [] {
      WalkFacts(q, fs, m, dirs[0]);
      var m1 := WalkRun(MatchVisitor(q), m, dirs[0], fs).state;
      WalkAllFacts(q, fs, m1, dirs[1..]);
      ExtendsTransitive(q, m, m1, WalkAll(q, fs, m1, dirs[1..]));
    }
  }

  /** The walk phase finds what any of its walks reaches: every given
      command matching a file reachable from one of `dirs` ends up
      recorded, with that file under `-a`. */
  lemma {:induction false} WalkAllFinds(q: Query, fs: FS, m: Entries, dirs: seq<string>)
    requires WellFormed(m) && KeysIn(m, q.commands)
    ensures forall d | d in dirs :: FindsUnder(q, fs, d, WalkAll(q, fs, m, dirs))
    decreases |dirs|
  {
    if dirs != [] {
      var m1 := WalkRun(MatchVisitor(q), m, dirs[0], fs).state;
      assert WellFormed(m1) && KeysIn(m1, q.commands) by {
        WalkFacts(q, fs, m, dirs[0]);
      }
      WalkFinds(q, fs, m, dirs[0]);
      WalkAllFacts(q, fs, m1, dirs[1..]);
      WalkAllFinds(q, fs, m1, dirs[1..]);
      var m' := WalkAll(q, fs, m1, dirs[1..]);
      FindsUnderKept(q, fs, dirs[0], m1, m');
      forall d | d in dirs
        ensures FindsUnder(q, fs, d, m')
      {
        if d != dirs[0] {
          assert d in dirs[1..];
        }
      }
    }
  }

  /** `v` is a file reachable from one of `dirs`. */
  ghost predicate ReachableFile(fs: FS, dirs: seq<string>, v: string) {
    exists d | d in dirs :: (v, Regular) in WalkReach(fs, d)
  }

  /** The walk phase adds only files it reached from one of `dirs` and that
      pass the match test for their command. */
  lemma {:induction false} WalkAllSound(q: Query, fs: FS, m: Entries, dirs: seq<string>)
    requires WellFormed(m) && KeysIn(m, q.commands)
    ensures var m' := WalkAll(q, fs, m, dirs);
            forall k, v | Recorded(m', k, v) && !Recorded(m, k, v) ::
              WalkMatch(q.exts, k, v) && ReachableFile(fs, dirs, v)
    decreases |dirs|
  {
    if dirs != [] {
      var m1 := WalkRun(MatchVisitor(q), m, dirs[0], fs).state;
      assert WellFormed(m1) && KeysIn(m1, q.commands) by {
        WalkFacts(q, fs, m, dirs[0]);
      }
      WalkSound(q, fs, m, dirs[0]);
      WalkAllSound(q, fs, m1, dirs[1..]);
      var m' := WalkAll(q, fs, m1, dirs[1..]);
      forall k, v | Recorded(m', k, v) && !Recorded(m, k, v)
        ensures WalkMatch(q.exts, k, v) && ReachableFile(fs, dirs, v)
      {
        if Recorded(m1, k, v) {
          assert dirs[0] in dirs;
        } else {
          var d :| d in dirs[1..] && (v, Regular) in WalkReach(fs, d);
          assert d in dirs;
        }
      }
    }
  }

  /** Once the count test passes, later walks change nothing. */
  lemma SatisfiedIsFinal(q: Query, fs: FS, m: Entries, dirs: seq<string>)
    requires WellFormed(m) && KeysIn(m, q.commands) && Satisfied(q, m)
    ensures WalkAll(q, fs, m, dirs) == m
  {
    WalkAllFacts(q, fs, m, dirs);
    SatisfiedMeansAllFound(q, m);
    var m' := WalkAll(q, fs, m, dirs);
    assert forall k | k in m' :: k in m;
  }

  // ---------------------------------------------------------- flat phase

  /** The probes for `cmd` in `dir` that are files (main.go:76-85). */
  function Hits(dir: string, cmd: string, exts: set<string>, files: set<string>): set<string> {
    Probes(dir, cmd, exts) * files
  }

  /** The first directory of `dirs` with a hit for `cmd`. */
  function FirstHit(dirs: seq<string>, cmd: string, exts: set<string>, files: set<string>): (j: Option<nat>)
    ensures j.Some? ==> j.value < |dirs|
  {
    if dirs == [] then None
    else match FirstHit(dirs[..|dirs| - 1], cmd, exts, files)
      case Some(j) => Some(j)
      case None => if Hits(dirs[|dirs| - 1], cmd, exts, files) != {} then Some(|dirs| - 1) else None
  }

  /** The hits for `cmd` in all of `dirs`. */
  function AllHits(dirs: seq<string>, cmd: string, exts: set<string>, files: set<string>): set<string> {
    if dirs == [] then {} else AllHits(dirs[..|dirs| - 1], cmd, exts, files) + Hits(dirs[|dirs| - 1], cmd, exts, files)
  }

  lemma {:induction false} FirstHitIsFirst(dirs: seq<string>, cmd: string, exts: set<string>, files: set<string>)
    ensures FirstHit(dirs, cmd, exts, files).None? <==>
            forall j | 0 <= j < |dirs| :: Hits(dirs[j], cmd, exts, files) == {}
    ensures FirstHit(dirs, cmd, exts, files).Some? ==>
            var j := FirstHit(dirs, cmd, exts, files).value;
            Hits(dirs[j], cmd, exts, files) != {} &&
            forall i | 0 <= i < j :: Hits(dirs[i], cmd, exts, files) == {}
    decreases |dirs|
  {
    if dirs != [] {
      var init := dirs[..|dirs| - 1];
      FirstHitIsFirst(init, cmd, exts, files);
      assert forall j | 0 <= j < |init| :: init[j] == dirs[j];
    }
  }

  lemma {:induction false} AllHitsMeaning(dirs: seq<string>, cmd: string, exts: set<string>, files: set<string>)
    ensures forall v :: v in AllHits(dirs, cmd, exts, files) <==>
                        exists j | 0 <= j < |dirs| :: v in Hits(dirs[j], cmd, exts, files)
    decreases |dirs|
  {
    if dirs != [] {
      var init := dirs[..|dirs| - 1];
      AllHitsMeaning(init, cmd, exts, files);
      forall v | v in AllHits(dirs, cmd, exts, files)
        ensures exists j | 0 <= j < |dirs| :: v in Hits(dirs[j], cmd, exts, files)
      {
        if v in AllHits(init, cmd, exts, files) {
          var j :| 0 <= j < |init| && v in Hits(init[j], cmd, exts, files);
          assert init[j] == dirs[j];
        }
      }
      forall v | exists j | 0 <= j < |dirs| :: v in Hits(dirs[j], cmd, exts, files)
        ensures v in AllHits(dirs, cmd, exts, files)
      {
        var j :| 0 <= j < |dirs| && v in Hits(dirs[j], cmd, exts, files);
        if j < |init| {
          assert init[j] == dirs[j];
        }
      }
    }
  }

  /** The commands other than `cmd` are as in `m0`. */
  ghost predicate OthersUnchanged(cmd: string, m0: Entries, m: Entries) {
    forall k | k != cmd :: (k in m <==> k in m0) && (k in m ==> m[k] == m0[k])
  }

  /** What probing directory `dir` for `cmd` does (main.go:73-86), given
      the hits `hits` there: with `-a` every hit is added; otherwise a
      command already recorded is left alone and one not yet recorded gains
      exactly one hit when there is any. Other commands are untouched. */
  ghost predicate ProbeOutcome(showAll: bool, cmd: string, hits: set<string>, m0: Entries, m: Entries) {
    && OthersUnchanged(cmd, m0, m)
    && (if showAll then (cmd in m <==> cmd in m0 || hits != {}) && (cmd in m ==> m[cmd] == Get(m0, cmd) + hits)
        else if cmd in m0 then cmd in m && m[cmd] == m0[cmd]
        else if hits == {} then cmd !in m
        else cmd in m && |m[cmd]| == 1 && m[cmd] <= hits)
  }

  /** The probes `f + e` for the extensions `done` that are files. */
  ghost function Candidates(f: string, done: set<string>, files: set<string>): set<string> {
    (set e | e in done :: f + e) * files
  }

  lemma CandidatesStep(f: string, done: set<string>, e: string, files: set<string>)
    ensures Candidates(f, done + {e}, files) == Candidates(f, done, files) + ({f + e} * files)
  {
  }

  /** Probing nothing changes nothing. */
  lemma ProbeOutcomeNone(showAll: bool, cmd: string, m0: Entries)
    ensures ProbeOutcome(showAll, cmd, {}, m0, m0)
  {
  }

  /** A probe that is a file, added for a command not yet recorded or with
      `-a` (main.go:79, 83). */
  lemma ProbeOutcomeAdd(showAll: bool, cmd: string, hits: set<string>, m0: Entries, m1: Entries, name: string)
    requires ProbeOutcome(showAll, cmd, hits, m0, m1)
    requires cmd !in m1 || showAll
    ensures ProbeOutcome(showAll, cmd, hits + {name}, m0, m1[cmd := Get(m1, cmd) + {name}])
  {
    var m2 := m1[cmd := Get(m1, cmd) + {name}];
    assert OthersUnchanged(cmd, m0, m2) by {
      forall k | k != cmd
        ensures (k in m2 <==> k in m0) && (k in m2 ==> m2[k] == m0[k])
      {
        assert k in m2 <==> k in m1;
      }
    }
    if !showAll {
      assert cmd !in m0 && hits == {} && Get(m1, cmd) == {};
      assert m2[cmd] == {name} && hits + {name} == {name};
    }
  }

  /** One more probe `name`: added when it is a file and the command is not
      yet recorded or `-a` was given, and nothing happens otherwise
      (main.go:79, 83). */
  lemma ProbeOutcomeStep(showAll: bool, cmd: string, hits: set<string>, m0: Entries, m1: Entries,
                         name: string, files: set<string>, m2: Entries)
    requires ProbeOutcome(showAll, cmd, hits, m0, m1)
    requires m2 == if (cmd !in m1 || showAll) && name in files then AddTo(m1, cmd, name) else m1
    ensures ProbeOutcome(showAll, cmd, hits + ({name} * files), m0, m2)
  {
    if name !in files {
      assert hits + ({name} * files) == hits;
    } else if cmd !in m1 || showAll {
      assert hits + ({name} * files) == hits + {name};
      assert m2 == m1[cmd := Get(m1, cmd) + {name}];
      ProbeOutcomeAdd(showAll, cmd, hits, m0, m1, name);
    }
  }

  /** The loop over the recognised extensions for a command without one
      (main.go:77-82), in an arbitrary order, as Go's map iteration is. */
  method ProbeExtensions(r: ResultMap, f: string, cmd: string, q: Query, fs: FS)
    requires r.Valid()
    modifies r
    ensures r.Valid()
    ensures ProbeOutcome(q.showAll, cmd, Candidates(f, q.exts, fs.files), old(r.entries), r.entries)
  {
    ghost var m0 := r.entries;
    var left := q.exts;
    assert q.exts - left == {};
    ProbeOutcomeNone(q.showAll, cmd, m0);
    while left != {}
      invariant left <= q.exts && r.Valid()
      invariant ProbeOutcome(q.showAll, cmd, Candidates(f, q.exts - left, fs.files), m0, r.entries)
      decreases left
    {
      var e :| e in left;
      ghost var done := q.exts - left;
      ghost var m1 := r.entries;
      left := left - {e};
      var name := f + e;
      if (!r.HasKey(cmd) || q.showAll) && IsFile(fs, name) {
        var _ := r.Add(cmd, name);
      }
      CandidatesStep(f, done, e, fs.files);
      assert q.exts - left == done + {e};
      ProbeOutcomeStep(q.showAll, cmd, Candidates(f, done, fs.files), m0, m1, name, fs.files, r.entries);
    }
    assert q.exts - left == q.exts;
  }

  /** The probing of one directory for one command (main.go:73-86). */
  method ProbeCommand(r: ResultMap, dir: string, cmd: string, q: Query, fs: FS)
    requires r.Valid()
    modifies r
    ensures r.Valid()
    ensures ProbeOutcome(q.showAll, cmd, Hits(dir, cmd, q.exts, fs.files), old(r.entries), r.entries)
  {
    var f := Join(dir, cmd);
    ghost var m0 := r.entries;
    ProbeOutcomeNone(q.showAll, cmd, m0);
    if !r.HasKey(cmd) || q.showAll {
      if Ext(cmd) == "" {
        ProbeExtensions(r, f, cmd, q, fs);
        assert Candidates(f, q.exts, fs.files) == Hits(dir, cmd, q.exts, fs.files);
      } else {
        if (!r.HasKey(cmd) || q.showAll) && IsFile(fs, f) {
          var _ := r.Add(cmd, f);
        }
        ProbeOutcomeStep(q.showAll, cmd, {}, m0, m0, f, fs.files, r.entries);
        assert {} + ({f} * fs.files) == Hits(dir, cmd, q.exts, fs.files);
      }
    }
  }

  /** Where the flat phase over `dirs` leaves command `k`, starting from
      the entries `m0`. */
  ghost predicate FlatKey(q: Query, files: set<string>, dirs: seq<string>, m0: Entries, m: Entries, k: string) {
    if k !in q.commands then (k in m <==> k in m0) && (k in m ==> m[k] == m0[k])
    else if q.showAll then
      (k in m <==> k in m0 || AllHits(dirs, k, q.exts, files) != {}) &&
      (k in m ==> m[k] == Get(m0, k) + AllHits(dirs, k, q.exts, files))
    else if k in m0 then k in m && m[k] == m0[k]
    else match FirstHit(dirs, k, q.exts, files)
      case None => k !in m
      case Some(j) => k in m && |m[k]| == 1 && m[k] <= Hits(dirs[j], k, q.exts, files)
  }

  ghost predicate FlatOutcome(q: Query, files: set<string>, dirs: seq<string>, m0: Entries, m: Entries) {
    forall k :: FlatKey(q, files, dirs, m0, m, k)
  }

  /** The state of key `k` in the middle of the flat phase: directory `i`
      has been probed for the first `c` commands. */
  ghost predicate FlatMid(q: Query, files: set<string>, dirs: seq<string>, i: nat, c: nat,
                          m0: Entries, m: Entries, k: string)
    requires i < |dirs| && c <= |q.commands|
  {
    FlatKey(q, files, if k in q.commands[..c] then dirs[..i + 1] else dirs[..i], m0, m, k)
  }

  /** Probing one more directory for a command extends its outcome. */
  lemma FlatKeyExtend(q: Query, files: set<string>, dirs: seq<string>, dir: string, cmd: string,
                      m0: Entries, m1: Entries, m2: Entries)
    requires cmd in q.commands
    requires FlatKey(q, files, dirs, m0, m1, cmd)
    requires ProbeOutcome(q.showAll, cmd, Hits(dir, cmd, q.exts, files), m1, m2)
    ensures FlatKey(q, files, dirs + [dir], m0, m2, cmd)
  {
    var ds := dirs + [dir];
    assert ds[..|ds| - 1] == dirs;
  }

  /** Probing the same directory again for the same command, as a command
      given twice does, changes nothing. */
  lemma FlatKeyRepeat(q: Query, files: set<string>, dirs: seq<string>, dir: string, cmd: string,
                      m0: Entries, m1: Entries, m2: Entries)
    requires cmd in q.commands
    requires FlatKey(q, files, dirs + [dir], m0, m1, cmd)
    requires ProbeOutcome(q.showAll, cmd, Hits(dir, cmd, q.exts, files), m1, m2)
    ensures FlatKey(q, files, dirs + [dir], m0, m2, cmd)
  {
    var ds := dirs + [dir];
    assert ds[..|ds| - 1] == dirs;
    assert ds[|ds| - 1] == dir;
  }

  /** The flat phase (main.go:71-88): every directory of the search path,
      in order, probed for every command. */
  method FlatPhase(r: ResultMap, dirs: seq<string>, q: Query, fs: FS)
    requires r.Valid()
    modifies r
    ensures r.Valid()
    ensures FlatOutcome(q, fs.files, dirs, old(r.entries), r.entries)
  {
    ghost var m0 := r.entries;
    var i := 0;
    while i < |dirs|
      invariant 0 <= i <= |dirs| && r.Valid()
      invariant FlatOutcome(q, fs.files, dirs[..i], m0, r.entries)
    {
      var c := 0;
      assert q.commands[..0] == [];
      while c < |q.commands|
        invariant 0 <= c <= |q.commands| && r.Valid()
        invariant forall k :: FlatMid(q, fs.files, dirs, i, c, m0, r.entries, k)
      {
        var cmd := q.commands[c];
        ghost var m1 := r.entries;
        ProbeCommand(r, dirs[i], cmd, q, fs);
        assert dirs[..i + 1] == dirs[..i] + [dirs[i]];
        assert q.commands[..c + 1] == q.commands[..c] + [cmd];
        ghost var m2 := r.entries;
        ghost var c' := c + 1;
        forall k
          ensures FlatMid(q, fs.files, dirs, i, c', m0, m2, k)
        {
          assert FlatMid(q, fs.files, dirs, i, c, m0, m1, k);
          if k == cmd {
            if cmd in q.commands[..c] {
              FlatKeyRepeat(q, fs.files, dirs[..i], dirs[i], cmd, m0, m1, m2);
            } else {
              FlatKeyExtend(q, fs.files, dirs[..i], dirs[i], cmd, m0, m1, m2);
            }
          }
        }
        c := c + 1;
      }
      assert q.commands[..c] == q.commands;
      ghost var m3 := r.entries;
      ghost var done := dirs[..i + 1];
      forall k
        ensures FlatKey(q, fs.files, done, m0, m3, k)
      {
        assert FlatMid(q, fs.files, dirs, i, c, m0, m3, k);
      }
      i := i + 1;
    }
    assert dirs[..i] == dirs;
  }

  /** What the flat phase finds from empty entries: only given commands,
      only hits; with `-a` every hit, and without it one hit for each
      command that has any. */
  lemma FlatFacts(q: Query, files: set<string>, dirs: seq<string>, m: Entries)
    requires FlatOutcome(q, files, dirs, map[], m)
    ensures KeysIn(m, q.commands)
    ensures forall k, v | Recorded(m, k, v) :: v in AllHits(dirs, k, q.exts, files)
    ensures forall c | c in q.commands :: c in m <==> AllHits(dirs, c, q.exts, files) != {}
    ensures q.showAll ==> forall c | c in m :: m[c] == AllHits(dirs, c, q.exts, files)
    ensures !q.showAll ==> forall c | c in m :: |m[c]| == 1
  {
    forall k | k in m
      ensures k in q.commands
    {
      assert FlatKey(q, files, dirs, map[], m, k);
    }
    forall k | k in q.commands
      ensures (k in m <==> AllHits(dirs, k, q.exts, files) != {})
      ensures k in m ==> m[k] <= AllHits(dirs, k, q.exts, files)
      ensures !q.showAll && k in m ==> |m[k]| == 1
      ensures q.showAll && k in m ==> m[k] == AllHits(dirs, k, q.exts, files)
    {
      assert FlatKey(q, files, dirs, map[], m, k);
      assert Get(map[], k) == {};
      if !q.showAll {
        FirstHitIsFirst(dirs, k, q.exts, files);
        AllHitsMeaning(dirs, k, q.exts, files);
        match FirstHit(dirs, k, q.exts, files)
        case None =>
          assert forall v :: v !in AllHits(dirs, k, q.exts, files);
        case Some(j) =>
          var v :| v in Hits(dirs[j], k, q.exts, files);
          assert v in AllHits(dirs, k, q.exts, files);
      }
    }
  }

  /** Without `-a`, when no command is given twice and the flat phase finds
      every command, the walk phase does not run. */
  lemma FlatSufficient(q: Query, files: set<string>, dirs: seq<string>, m: Entries)
    requires FlatOutcome(q, files, dirs, map[], m)
    requires !q.showAll && NoDuplicates(q.commands)
    requires forall c | c in q.commands :: AllHits(dirs, c, q.exts, files) != {}
    ensures !WalkPhaseEntered(q, m)
  {
    FlatFacts(q, files, dirs, m);
    SatisfiedMeansAllFound(q, m);
  }

  /** A single command without an extension, with the empty extension
      recognised and one directory holding just the bare file: the flat phase
      records exactly that file and the walk phase does not run. */
  lemma BareFileScenario(q: Query, dir: string, cmd: string, m: Entries)
    requires q.commands == [cmd] && !q.showAll && "" in q.exts
    requires cmd != "" && Ext(cmd) == ""
    requires FlatOutcome(q, {Join(dir, cmd)}, [dir], map[], m)
    ensures m == map[cmd := {Join(dir, cmd)}]
    ensures !WalkPhaseEntered(q, m)
  {
    var f := Join(dir, cmd);
    assert f + "" == f;
    assert forall e | e in q.exts && f + e == f :: e == "" by {
      forall e | e in q.exts && f + e == f ensures e == "" {
        assert |f + e| == |f| + |e|;
      }
    }
    assert Hits(dir, cmd, q.exts, {f}) == {f};
    assert [dir][..0] == [];
    assert FirstHit([dir], cmd, q.exts, {f}) == Some(0);
    assert FlatKey(q, {f}, [dir], map[], m, cmd);
    assert cmd in m && |m[cmd]| == 1 && m[cmd] <= {f};
    assert m[cmd] == {f} by {
      var v :| v in m[cmd];
    }
    forall k | k in m ensures k == cmd {
      assert FlatKey(q, {f}, [dir], map[], m, k);
    }
    assert m.Keys == {cmd};
  }

  // ------------------------------------------------------------- locate

  /** The search records nothing it did not find: after the flat phase
      over `dirs` and, when the count test asks for it, the walk phase over
      `searchDirs`, every recorded path is a flat-phase hit for its command,
      or a file reached by the walk of a search directory that passes the
      match test for its command. */
  lemma SearchSound(q: Query, fs: FS, dirs: seq<string>, searchDirs: seq<string>, flat: Entries)
    requires FlatOutcome(q, fs.files, dirs, map[], flat)
    ensures var m := if WalkPhaseEntered(q, flat) then WalkAll(q, fs, flat, searchDirs) else flat;
            forall k, v | Recorded(m, k, v) ::
              v in AllHits(dirs, k, q.exts, fs.files) ||
              (WalkMatch(q.exts, k, v) && ReachableFile(fs, searchDirs, v))
  {
    FlatFacts(q, fs.files, dirs, flat);
    if WalkPhaseEntered(q, flat) {
      WalkAllSound(q, fs, flat, searchDirs);
    }
  }

  /** The search misses nothing: after the flat phase over `dirs` and, when
      the count test asks for it, the walk phase over `searchDirs`, every
      given command with a flat-phase hit, or matching a file reachable from
      a search directory, is recorded; under `-a` with every such hit and
      file. */
  lemma SearchFinds(q: Query, fs: FS, dirs: seq<string>, searchDirs: seq<string>, flat: Entries)
    requires FlatOutcome(q, fs.files, dirs, map[], flat)
    ensures var m := if WalkPhaseEntered(q, flat) then WalkAll(q, fs, flat, searchDirs) else flat;
            && (forall c, v | c in q.commands && v in AllHits(dirs, c, q.exts, fs.files) ::
                  c in m && (q.showAll ==> v in m[c]))
            && (forall d | d in searchDirs :: FindsUnder(q, fs, d, m))
  {
    FlatFacts(q, fs.files, dirs, flat);
    var m := if WalkPhaseEntered(q, flat) then WalkAll(q, fs, flat, searchDirs) else flat;
    if WalkPhaseEntered(q, flat) {
      WalkAllFacts(q, fs, flat, searchDirs);
      WalkAllFinds(q, fs, flat, searchDirs);
    } else {
      SatisfiedMeansAllFound(q, flat);
      forall d | d in searchDirs ensures FindsUnder(q, fs, d, m) {
      }
    }
    ExtendsKeepsKeys(q, flat, m);
    forall c, v | c in q.commands && v in AllHits(dirs, c, q.exts, fs.files)
      ensures c in m && (q.showAll ==> v in m[c])
    {
      if q.showAll {
        assert Recorded(flat, c, v);
      }
    }
  }

  /** The search (main.go:69-130): the flat phase over `dirs` (the current
      directory followed by the pieces of `PATH`), then, when the count test
      of main.go:90 asks for it, the walk phase over `searchDirs`. Every
      recorded path is a flat-phase hit or a file the walk's match accepts,
      and without `-a` each recorded command has exactly one path. */
  method Locate(dirs: seq<string>, searchDirs: seq<string>, q: Query, fs: FS)
    returns (r: ResultMap, ghost flat: Entries)
    ensures fresh(r) && r.Valid()
    ensures FlatOutcome(q, fs.files, dirs, map[], flat)
    ensures r.entries == if WalkPhaseEntered(q, flat) then WalkAll(q, fs, flat, searchDirs) else flat
    ensures Extends(q, flat, r.entries)
    ensures KeysIn(r.entries, q.commands)
    ensures forall k, v | Recorded(r.entries, k, v) ::
              v in AllHits(dirs, k, q.exts, fs.files) ||
              (WalkMatch(q.exts, k, v) && ReachableFile(fs, searchDirs, v))
    ensures !q.showAll ==> forall k | k in r.entries :: |r.entries[k]| == 1
    ensures forall c, v | c in q.commands && v in AllHits(dirs, c, q.exts, fs.files) ::
              c in r.entries && (q.showAll ==> v in r.entries[c])
    ensures forall d | d in searchDirs :: FindsUnder(q, fs, d, r.entries)
  {
    r := new ResultMap();
    FlatPhase(r, dirs, q, fs);
    flat := r.entries;
    FlatFacts(q, fs.files, dirs, flat);
    if q.showAll || |r.entries| != |q.commands| {
      var i := 0;
      while i < |searchDirs|
        invariant 0 <= i <= |searchDirs|
        invariant r.Valid() && KeysIn(r.entries, q.commands)
        invariant WalkAll(q, fs, r.entries, searchDirs[i..]) == WalkAll(q, fs, flat, searchDirs)
      {
        var err: Signal, m: Entries;
        ghost var trace: seq<Visit>;
        err, m, trace := Walk.Walk(searchDirs[i], fs, MatchVisitor(q), r.entries);
        WalkFacts(q, fs, r.entries, searchDirs[i]);
        assert searchDirs[i..][1..] == searchDirs[i + 1..];
        r.Replace(m);
        i := i + 1;
      }
      WalkAllFacts(q, fs, flat, searchDirs);
    }
    SearchSound(q, fs, dirs, searchDirs, flat);
    SearchFinds(q, fs, dirs, searchDirs, flat);
  }
}
