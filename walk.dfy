/** The explicit-stack directory walk `walk` (main.go:191-228).

    The visitor (`filepath.WalkFunc`) is a state-passing function: it gets
    the visitor's state, a path and what a stat call said about it, and
    returns the new state and a signal. `Walk` is the loop of the source over
    a stack of pending directories. `WalkRun` is an independent, recursive
    reference definition of the same traversal, and `Walk` is proved equal to
    it; the properties of the traversal are lemmas about `WalkRun`. */
module Walk {
  import opened Paths
  import opened FileSystem

  /** What a visitor and `walk` return: `nil`, `filepath.SkipDir`, or any
      other error. */
  datatype Signal = Nil | SkipDir | Err(msg: string)

  /** A pending directory on the walk's stack (`*FileInfo`, main.go:174-177). */
  datatype Frame = Frame(path: string, node: Node)

  /** One call of the visitor: its arguments and what it returned. */
  datatype Visit = Visit(path: string, info: Info, sig: Signal)

  /** The outcome of a walk or of a part of one: the visitor's final state,
      the calls of the visitor in the order they were made, and the signal
      the walk returns. */
  datatype Run<S> = Run(state: S, visits: seq<Visit>, result: Signal)

  type Visitor<!S> = (S, string, Info) -> (S, Signal)

  // ------------------------------------------------------------ stack frames

  function FramesSize(frames: seq<Frame>): nat {
    if frames == [] then 0
    else FramesSize(frames[..|frames| - 1]) + Size(frames[|frames| - 1].node)
  }

  /** The frames pushed for the subdirectories among `es`, in listing order
      (main.go:219-220). */
  function ChildFrames(dir: string, es: seq<Entry>): seq<Frame> {
    if es == [] then []
    else
      var e := es[|es| - 1];
      ChildFrames(dir, es[..|es| - 1]) +
      (if e.node.Dir? then [Frame(Join(dir, e.name), e.node)] else [])
  }

  lemma {:induction false} FramesSizeConcat(a: seq<Frame>, b: seq<Frame>)
    ensures FramesSize(a + b) == FramesSize(a) + FramesSize(b)
    decreases |b|
  {
    if b != [] {
      assert (a + b)[..|a + b| - 1] == a + b[..|b| - 1];
      FramesSizeConcat(a, b[..|b| - 1]);
    } else {
      assert a + b == a;
    }
  }

  lemma {:induction false} ChildFramesSize(dir: string, es: seq<Entry>)
    ensures FramesSize(ChildFrames(dir, es)) <= EntriesSize(es)
    decreases |es|
  {
    if es != [] {
      var e := es[|es| - 1];
      var tail := if e.node.Dir? then [Frame(Join(dir, e.name), e.node)] else [];
      ChildFramesSize(dir, es[..|es| - 1]);
      FramesSizeConcat(ChildFrames(dir, es[..|es| - 1]), tail);
      if e.node.Dir? {
        assert FramesSize(tail) == Size(e.node) by {
          assert tail[..0] == [];
        }
      }
    }
  }

  /** The frames a directory pushes are a strictly smaller tree than it. */
  lemma PushedSmaller(f: Frame)
    ensures FramesSize(ChildFrames(f.path, Listing(f.node))) < Size(f.node)
  {
    ChildFramesSize(f.path, Listing(f.node));
    ListingSmaller(f.node);
  }

  // ----------------------------------------------------- reference traversal

  /** `r` with the visits `prefix` made before it. */
  function After<S>(prefix: seq<Visit>, r: Run<S>): Run<S> {
    Run(r.state, prefix + r.visits, r.result)
  }

  /** The visits of the non-directory entries of a listing, in listing order
      (main.go:216-224): a `SkipDir` from the visitor is ignored, any other
      error ends the walk. */
  function FilesRun<S>(visit: Visitor<S>, s: S, dir: string, es: seq<Entry>): Run<S>
    decreases |es|
  {
    if es == [] then Run(s, [], Nil)
    else if es[0].node.Dir? then FilesRun(visit, s, dir, es[1..])
    else
      var sub := Join(dir, es[0].name);
      var out := visit(s, sub, Regular);
      var v := Visit(sub, Regular, out.1);
      if out.1.Err? then Run(out.0, [v], out.1)
      else After([v], FilesRun(visit, out.0, dir, es[1..]))
  }

  /** A popped directory (main.go:205-224): the visitor is called on it; an
      error ends the walk, `SkipDir` skips its contents; otherwise its files
      are visited and then its subdirectories are walked, the last listed
      first. */
  function DirRun<S>(visit: Visitor<S>, s: S, f: Frame): Run<S>
    decreases Size(f.node), 0
  {
    var out := visit(s, f.path, Directory);
    var v := Visit(f.path, Directory, out.1);
    if out.1.Err? then Run(out.0, [v], out.1)
    else if out.1.SkipDir? then Run(out.0, [v], Nil)
    else
      var kids := Listing(f.node);
      PushedSmaller(f);
      After([v], Then(visit, FilesRun(visit, out.0, f.path, kids), ChildFrames(f.path, kids)))
  }

  /** `r` followed, unless it ended the walk, by the walk of `frames`. */
  function Then<S>(visit: Visitor<S>, r: Run<S>, frames: seq<Frame>): Run<S>
    decreases FramesSize(frames), 2
  {
    if r.result.Err? then r else After(r.visits, FramesRun(visit, r.state, frames))
  }

  /** The walk of a sequence of pending directories, the last one first. */
  function FramesRun<S>(visit: Visitor<S>, s: S, frames: seq<Frame>): Run<S>
    decreases FramesSize(frames), 1
  {
    if frames == [] then Run(s, [], Nil)
    else
      var top := frames[|frames| - 1];
      Then(visit, DirRun(visit, s, top), frames[..|frames| - 1])
  }

  /** The root is a directory found by `os.Lstat`. */
  predicate RootIsDir(fs: FS, root: string) {
    root in fs.trees && fs.trees[root].Dir?
  }

  /** `walk(root, visit)`: a missing root or one that is not a directory is
      handed to the visitor once, and its answer is returned (main.go:197-200);
      otherwise the directory tree below it is walked. */
  function WalkRun<S>(visit: Visitor<S>, s: S, root: string, fs: FS): Run<S> {
    if RootIsDir(fs, root) then FramesRun(visit, s, [Frame(root, fs.trees[root])])
    else
      var info := Lstat(fs, root);
      var out := visit(s, root, info);
      Run(out.0, [Visit(root, info, out.1)], out.1)
  }

  // ----------------------------------------------------- algebra of runs

  lemma ThenAfter<S>(visit: Visitor<S>, prefix: seq<Visit>, r: Run<S>, frames: seq<Frame>)
    ensures Then(visit, After(prefix, r), frames) == After(prefix, Then(visit, r, frames))
  {
    if !r.result.Err? {
      var f := FramesRun(visit, r.state, frames);
      assert prefix + r.visits + f.visits == prefix + (r.visits + f.visits);
    }
  }

  lemma AfterAfter<S>(p: seq<Visit>, q: seq<Visit>, r: Run<S>)
    ensures After(p, After(q, r)) == After(p + q, r)
  {
    assert p + (q + r.visits) == p + q + r.visits;
  }

  /** Walking `a + b` walks `b` (the top of the stack) first, then `a`. */
  lemma {:induction false} FramesConcat<S>(visit: Visitor<S>, s: S, a: seq<Frame>, b: seq<Frame>)
    ensures FramesRun(visit, s, a + b) == Then(visit, FramesRun(visit, s, b), a)
    decreases |b|, 1
  {
    if b == [] {
      assert a + b == a;
      assert After([], FramesRun(visit, s, a)) == FramesRun(visit, s, a);
    } else {
      var top := b[|b| - 1];
      var b' := b[..|b| - 1];
      assert (a + b)[..|a + b| - 1] == a + b';
      assert (a + b)[|a + b| - 1] == top;
      var d := DirRun(visit, s, top);
      assert FramesRun(visit, s, a + b) == Then(visit, d, a + b');
      assert FramesRun(visit, s, b) == Then(visit, d, b');
      ThenConcat(visit, d, a, b');
    }
  }

  lemma {:induction false} ThenConcat<S>(visit: Visitor<S>, r: Run<S>, a: seq<Frame>, b: seq<Frame>)
    ensures Then(visit, Then(visit, r, b), a) == Then(visit, r, a + b)
    decreases |b|, 2
  {
    if !r.result.Err? {
      FramesConcat(visit, r.state, a, b);
      ThenAfter(visit, r.visits, FramesRun(visit, r.state, b), a);
    }
  }

  // --------------------------------------------------- the imperative walk

  /** `walk(path, walkFn)` (main.go:191-228), with a slice of frames as the
      stack. Returns what the walk returns, the visitor's final state and,
      as a ghost, the calls made to the visitor. */
  method Walk<S>(root: string, fs: FS, visit: Visitor<S>, s0: S)
    returns (err: Signal, s: S, ghost trace: seq<Visit>)
    ensures err == WalkRun(visit, s0, root, fs).result
    ensures s == WalkRun(visit, s0, root, fs).state
    ensures trace == WalkRun(visit, s0, root, fs).visits
  {
    s := s0;
    if !RootIsDir(fs, root) {
      var info := Lstat(fs, root);
      var out := visit(s, root, info);
      s, err := out.0, out.1;
      trace := [Visit(root, info, err)];
      return;
    }
    var stack := [Frame(root, fs.trees[root])];
    ghost var total := WalkRun(visit, s0, root, fs);
    trace := [];
    assert total == After(trace, FramesRun(visit, s, stack));
    while stack != []
      invariant total == After(trace, FramesRun(visit, s, stack))
      decreases FramesSize(stack)
    {
      var top := stack[|stack| - 1];
      var rest := stack[..|stack| - 1];
      assert stack == rest + [top];
      ghost var before := FramesSize(stack);
      FramesSizeConcat(rest, [top]);
      assert FramesSize([top]) == Size(top.node) by { assert [top][..0] == []; }
      ghost var s1 := s;
      assert FramesRun(visit, s1, stack) == Then(visit, DirRun(visit, s1, top), rest);
      stack := rest;

      var out := visit(s, top.path, Directory);
      s := out.0;
      var v := Visit(top.path, Directory, out.1);
      ghost var trace1 := trace;
      trace := trace + [v];
      if out.1.Err? {
        err := out.1;
        return;
      }
      if out.1.SkipDir? {
        AfterAfter(trace1, [v], FramesRun(visit, s, rest));
        continue;
      }

      var kids := Listing(top.node);
      var frames := ChildFrames(top.path, kids);
      PushedSmaller(top);
      ThenAfter(visit, [v], Then(visit, FilesRun(visit, s, top.path, kids), frames), rest);
      ThenConcat(visit, FilesRun(visit, s, top.path, kids), rest, frames);
      AfterAfter(trace1, [v], Then(visit, FilesRun(visit, s, top.path, kids), rest + frames));
      assert kids[0..] == kids;
      assert kids[..0] == [];
      assert stack == rest + ChildFrames(top.path, kids[..0]);

      var i := 0;
      while i < |kids|
        invariant 0 <= i <= |kids|
        invariant stack == rest + ChildFrames(top.path, kids[..i])
        invariant total == After(trace, Then(visit, FilesRun(visit, s, top.path, kids[i..]), rest + frames))
      {
        var e := kids[i];
        var sub := Join(top.path, e.name);
        assert kids[..i + 1][..i] == kids[..i];
        assert kids[..i + 1][i] == e;
        assert kids[i..][0] == e && kids[i..][1..] == kids[i + 1..];
        if e.node.Dir? {
          stack := stack + [Frame(sub, e.node)];
        } else {
          var o := visit(s, sub, Regular);
          ghost var w := Visit(sub, Regular, o.1);
          ghost var trace2 := trace;
          s := o.0;
          trace := trace + [w];
          if o.1.Err? {
            err := o.1;
            return;
          }
          ThenAfter(visit, [w], FilesRun(visit, s, top.path, kids[i + 1..]), rest + frames);
          AfterAfter(trace2, [w], Then(visit, FilesRun(visit, s, top.path, kids[i + 1..]), rest + frames));
        }
        i := i + 1;
      }
      assert kids[..i] == kids;
      assert kids[i..] == [];
      assert After([], FramesRun(visit, s, stack)) == FramesRun(visit, s, stack);
      FramesSizeConcat(rest, frames);
    }
    err := Nil;
  }

  // ------------------------------------------------ properties of the walk

  /** A missing root, or one that is not a directory, is handed to the
      visitor exactly once, and the visitor's answer is what the walk
      returns (main.go:197-200). */
  lemma RootNotDirectory<S>(visit: Visitor<S>, s: S, root: string, fs: FS)
    requires !RootIsDir(fs, root)
    ensures var r := WalkRun(visit, s, root, fs);
            var out := visit(s, root, Lstat(fs, root));
            r.visits == [Visit(root, Lstat(fs, root), out.1)] &&
            r.result == out.1 && r.state == out.0
  {
  }

  /** No visit follows one that returned an error; the walk then returns
      that error, and otherwise returns `nil`. */
  ghost predicate Halted<S>(r: Run<S>) {
    && (r.result == Nil || r.result.Err?)
    && (forall j | 0 <= j < |r.visits| && r.visits[j].sig.Err? :: j == |r.visits| - 1)
    && (r.result.Err? <==> |r.visits| > 0 && r.visits[|r.visits| - 1].sig.Err?)
    && (r.result.Err? ==> r.visits[|r.visits| - 1].sig == r.result)
  }

  lemma HaltedAfter<S>(prefix: seq<Visit>, r: Run<S>)
    requires forall j | 0 <= j < |prefix| :: !prefix[j].sig.Err?
    requires Halted(r)
    ensures Halted(After(prefix, r))
  {
    var a := After(prefix, r);
    forall j | 0 <= j < |a.visits| && a.visits[j].sig.Err?
      ensures j == |a.visits| - 1
    {
      assert j >= |prefix|;
      assert a.visits[j] == r.visits[j - |prefix|];
    }
    if r.result.Err? {
      assert a.visits[|a.visits| - 1] == r.visits[|r.visits| - 1];
    } else if |a.visits| > 0 {
      if |r.visits| > 0 {
        assert a.visits[|a.visits| - 1] == r.visits[|r.visits| - 1];
      } else {
        assert a.visits[|a.visits| - 1] == prefix[|prefix| - 1];
      }
    }
  }

  lemma {:induction false} FilesHalted<S>(visit: Visitor<S>, s: S, dir: string, es: seq<Entry>)
    ensures Halted(FilesRun(visit, s, dir, es))
    decreases |es|
  {
    if es != [] {
      FilesHalted(visit, s, dir, es[1..]);
      if !es[0].node.Dir? {
        var out := visit(s, Join(dir, es[0].name), Regular);
        FilesHalted(visit, out.0, dir, es[1..]);
        if !out.1.Err? {
          HaltedAfter([Visit(Join(dir, es[0].name), Regular, out.1)], FilesRun(visit, out.0, dir, es[1..]));
        }
      }
    }
  }

  lemma {:induction false} ThenHalted<S>(visit: Visitor<S>, r: Run<S>, frames: seq<Frame>)
    requires Halted(r)
    ensures Halted(Then(visit, r, frames))
    decreases FramesSize(frames), 2
  {
    if !r.result.Err? {
      FramesHalted(visit, r.state, frames);
      HaltedAfter(r.visits, FramesRun(visit, r.state, frames));
    }
  }

  lemma {:induction false} FramesHalted<S>(visit: Visitor<S>, s: S, frames: seq<Frame>)
    ensures Halted(FramesRun(visit, s, frames))
    decreases FramesSize(frames), 1
  {
    if frames != [] {
      var top := frames[|frames| - 1];
      var init := frames[..|frames| - 1];
      assert frames == init + [top];
      FramesSizeConcat(init, [top]);
      assert FramesSize([top]) == Size(top.node) by { assert [top][..0] == []; }
      var out := visit(s, top.path, Directory);
      if !out.1.Err? && !out.1.SkipDir? {
        var kids := Listing(top.node);
        PushedSmaller(top);
        FilesHalted(visit, out.0, top.path, kids);
        ThenHalted(visit, FilesRun(visit, out.0, top.path, kids), ChildFrames(top.path, kids));
        HaltedAfter([Visit(top.path, Directory, out.1)],
                    Then(visit, FilesRun(visit, out.0, top.path, kids), ChildFrames(top.path, kids)));
      }
      ThenHalted(visit, DirRun(visit, s, top), init);
    }
  }

  /** When the root is a directory, an error from the visitor, for a popped
      directory or for a file, stops the walk at once and is returned; when
      no visit returns an error the walk returns `nil` (main.go:207-209,
      221-222, 227). */
  lemma WalkHalts<S>(visit: Visitor<S>, s: S, root: string, fs: FS)
    requires RootIsDir(fs, root)
    ensures Halted(WalkRun(visit, s, root, fs))
  {
    FramesHalted(visit, s, [Frame(root, fs.trees[root])]);
  }

  /** A directory popped from the stack whose visit returns `SkipDir`
      contributes that one visit and nothing from below it, and the walk
      goes on with the rest of the stack; an unreadable directory likewise
      contributes only its own visit and does not fail the walk
      (main.go:205-214). */
  lemma SkippedOrUnreadable<S>(visit: Visitor<S>, s: S, rest: seq<Frame>, f: Frame)
    requires var sig := visit(s, f.path, Directory).1;
             sig.SkipDir? || (sig == Nil && f.node.Dir? && !f.node.readable)
    ensures var out := visit(s, f.path, Directory);
            FramesRun(visit, s, rest + [f]) ==
            After([Visit(f.path, Directory, out.1)], FramesRun(visit, out.0, rest))
  {
    var stack := rest + [f];
    assert stack[..|stack| - 1] == rest && stack[|stack| - 1] == f;
    var out := visit(s, f.path, Directory);
    var d := DirRun(visit, s, f);
    var v := Visit(f.path, Directory, out.1);
    if out.1 == Nil {
      assert Listing(f.node) == [];
      assert ChildFrames(f.path, []) == [];
      var none := Run(out.0, [], Nil);
      assert FilesRun(visit, out.0, f.path, []) == none;
      assert FramesRun(visit, out.0, []) == none;
      assert Then(visit, none, []) == none;
      assert [v] + [] == [v];
    }
    assert d == Run(out.0, [Visit(f.path, Directory, out.1)], Nil);
  }

  /** `SkipDir` returned for a file is ignored: the remaining entries of the
      listing are still visited (main.go:221). */
  lemma SkipDirOnFileIgnored<S>(visit: Visitor<S>, s: S, dir: string, es: seq<Entry>)
    requires es != [] && !es[0].node.Dir?
    requires visit(s, Join(dir, es[0].name), Regular).1.SkipDir?
    ensures var out := visit(s, Join(dir, es[0].name), Regular);
            FilesRun(visit, s, dir, es) ==
            After([Visit(Join(dir, es[0].name), Regular, SkipDir)], FilesRun(visit, out.0, dir, es[1..]))
  {
  }

  // ------------------------------------------------------- full traversal

  /** What the walk passes to the visitor for a node it found in a listing
      or on its stack. */
  function Kind(n: Node): Info {
    if n.Dir? then Directory else Regular
  }

  /** The paths the calls `vs` were made on, each with the stat result it
      was passed. */
  ghost function Covered(vs: seq<Visit>): multiset<(string, Info)>
    decreases |vs|
  {
    if vs == [] then multiset{} else multiset{(vs[0].path, vs[0].info)} + Covered(vs[1..])
  }

  /** Every call made is covered. */
  lemma {:induction false} VisitsCovered(vs: seq<Visit>)
    ensures forall j | 0 <= j < |vs| :: (vs[j].path, vs[j].info) in Covered(vs)
    decreases |vs|
  {
    if vs != [] {
      VisitsCovered(vs[1..]);
      forall j | 1 <= j < |vs| ensures (vs[j].path, vs[j].info) in Covered(vs) {
        assert vs[j] == vs[1..][j - 1];
      }
    }
  }

  /** Only the calls made cover anything. */
  lemma {:induction false} CoveredByVisits(vs: seq<Visit>)
    ensures forall x | x in Covered(vs) :: exists j | 0 <= j < |vs| :: x == (vs[j].path, vs[j].info)
    decreases |vs|
  {
    if vs != [] {
      CoveredByVisits(vs[1..]);
      forall x | x in Covered(vs)
        ensures exists j | 0 <= j < |vs| :: x == (vs[j].path, vs[j].info)
      {
        if x != (vs[0].path, vs[0].info) {
          assert x in Covered(vs[1..]);
          var j :| 0 <= j < |vs[1..]| && x == (vs[1..][j].path, vs[1..][j].info);
          assert vs[1..][j] == vs[j + 1];
        }
      }
    }
  }

  /** Every path at or below `path`, where node `n` is found, that a walk
      has to visit when it never stops early: the node itself and,
      through a readable directory, everything reachable from its entries. */
  ghost function Reachable(path: string, n: Node): multiset<(string, Info)>
    decreases Size(n), 0
  {
    ListingSmaller(n);
    multiset{(path, Kind(n))} + EntriesReachable(path, Listing(n))
  }

  ghost function EntriesReachable(dir: string, es: seq<Entry>): multiset<(string, Info)>
    decreases EntriesSize(es), 1
  {
    if es == [] then multiset{}
    else EntriesReachable(dir, es[..|es| - 1]) + Reachable(Join(dir, es[|es| - 1].name), es[|es| - 1].node)
  }

  /** What a walk from `root` has to visit: everything reachable from a
      directory root, or else the root alone with its stat result. */
  ghost function WalkReach(fs: FS, root: string): multiset<(string, Info)> {
    if RootIsDir(fs, root) then Reachable(root, fs.trees[root])
    else multiset{(root, Lstat(fs, root))}
  }

  /** What a pending directory contributes once popped. */
  ghost function FrameReachable(f: Frame): multiset<(string, Info)> {
    multiset{(f.path, Directory)} + EntriesReachable(f.path, Listing(f.node))
  }

  ghost function FramesReachable(frames: seq<Frame>): multiset<(string, Info)> {
    if frames == [] then multiset{}
    else FramesReachable(frames[..|frames| - 1]) + FrameReachable(frames[|frames| - 1])
  }

  /** The non-directory entries of a listing, visited with the listing. */
  ghost function FilesReachable(dir: string, es: seq<Entry>): multiset<(string, Info)>
    decreases |es|
  {
    if es == [] then multiset{}
    else
      (if es[0].node.Dir? then multiset{} else multiset{(Join(dir, es[0].name), Regular)}) +
      FilesReachable(dir, es[1..])
  }

  lemma {:induction false} CoveredConcat(a: seq<Visit>, b: seq<Visit>)
    ensures Covered(a + b) == Covered(a) + Covered(b)
    decreases |a|
  {
    if a == [] {
      assert a + b == b;
    } else {
      assert (a + b)[1..] == a[1..] + b;
      CoveredConcat(a[1..], b);
    }
  }

  lemma {:induction false} FilesReachableSnoc(dir: string, es: seq<Entry>, e: Entry)
    ensures FilesReachable(dir, es + [e]) ==
            FilesReachable(dir, es) + (if e.node.Dir? then multiset{} else multiset{(Join(dir, e.name), Regular)})
    decreases |es|
  {
    if es == [] {
      assert [e][1..] == [];
    } else {
      assert (es + [e])[1..] == es[1..] + [e];
      FilesReachableSnoc(dir, es[1..], e);
    }
  }

  lemma FilesReachableLast(dir: string, es: seq<Entry>)
    requires es != []
    ensures var e := es[|es| - 1];
            FilesReachable(dir, es) == FilesReachable(dir, es[..|es| - 1]) +
              (if e.node.Dir? then multiset{} else multiset{(Join(dir, e.name), Regular)})
  {
    assert es == es[..|es| - 1] + [es[|es| - 1]];
    FilesReachableSnoc(dir, es[..|es| - 1], es[|es| - 1]);
  }

  lemma {:induction false} FramesReachableConcat(a: seq<Frame>, b: seq<Frame>)
    ensures FramesReachable(a + b) == FramesReachable(a) + FramesReachable(b)
    decreases |b|
  {
    if b != [] {
      var init := b[..|b| - 1];
      var f := b[|b| - 1];
      assert (a + b)[..|a + b| - 1] == a + init;
      assert (a + b)[|a + b| - 1] == f;
      FramesReachableConcat(a, init);
      assert FramesReachable(a + b) == FramesReachable(a + init) + FrameReachable(f);
      assert FramesReachable(b) == FramesReachable(init) + FrameReachable(f);
    } else {
      assert a + b == a;
    }
  }

  /** What an entry contributes: a file its own visit, a directory what it
      contributes once popped. */
  lemma ReachableEntry(sub: string, n: Node)
    ensures Reachable(sub, n) ==
            if n.Dir? then FrameReachable(Frame(sub, n)) else multiset{(sub, Regular)}
  {
    if !n.Dir? {
      assert Listing(n) == [];
    }
  }

  lemma ChildFramesReachableLast(dir: string, es: seq<Entry>)
    requires es != []
    ensures var e := es[|es| - 1];
            FramesReachable(ChildFrames(dir, es)) == FramesReachable(ChildFrames(dir, es[..|es| - 1])) +
              (if e.node.Dir? then FrameReachable(Frame(Join(dir, e.name), e.node)) else multiset{})
  {
    var e := es[|es| - 1];
    var tail := if e.node.Dir? then [Frame(Join(dir, e.name), e.node)] else [];
    FramesReachableConcat(ChildFrames(dir, es[..|es| - 1]), tail);
    if e.node.Dir? {
      assert tail[..0] == [];
    }
  }

  /** Every entry of a listing is either a file visited with the listing or
      a subdirectory pushed to be walked later. */
  lemma {:induction false} ReachSplits(dir: string, es: seq<Entry>)
    ensures EntriesReachable(dir, es) == FilesReachable(dir, es) + FramesReachable(ChildFrames(dir, es))
    decreases |es|
  {
    if es != [] {
      var init := es[..|es| - 1];
      var e := es[|es| - 1];
      var sub := Join(dir, e.name);
      ReachSplits(dir, init);
      FilesReachableLast(dir, es);
      ChildFramesReachableLast(dir, es);
      ReachableEntry(sub, e.node);
      var files := FilesReachable(dir, init);
      var frames := FramesReachable(ChildFrames(dir, init));
      var here := Reachable(sub, e.node);
      assert EntriesReachable(dir, es) == files + frames + here;
      if e.node.Dir? {
        assert FilesReachable(dir, es) == files;
        assert FramesReachable(ChildFrames(dir, es)) == frames + here;
      } else {
        assert FilesReachable(dir, es) == files + here;
        assert FramesReachable(ChildFrames(dir, es)) == frames;
      }
    }
  }

  /** A visitor that never skips a directory. */
  ghost predicate EntersDirectories<S(!new)>(visit: Visitor<S>) {
    forall s: S, p: string :: !visit(s, p, Directory).1.SkipDir?
  }

  lemma {:induction false} FilesCover<S>(visit: Visitor<S>, s: S, dir: string, es: seq<Entry>)
    ensures var r := FilesRun(visit, s, dir, es);
            !r.result.Err? ==> r.result == Nil && Covered(r.visits) == FilesReachable(dir, es)
    decreases |es|
  {
    if es != [] {
      if es[0].node.Dir? {
        FilesCover(visit, s, dir, es[1..]);
      } else {
        var sub := Join(dir, es[0].name);
        var out := visit(s, sub, Regular);
        FilesCover(visit, out.0, dir, es[1..]);
        if !out.1.Err? {
          var v := Visit(sub, Regular, out.1);
          CoveredConcat([v], FilesRun(visit, out.0, dir, es[1..]).visits);
          assert Covered([v]) == multiset{(sub, Regular)} by { assert [v][1..] == []; }
        }
      }
    }
  }

  lemma {:induction false} DirCover<S(!new)>(visit: Visitor<S>, s: S, f: Frame)
    requires EntersDirectories(visit)
    ensures var d := DirRun(visit, s, f);
            !d.result.Err? ==> d.result == Nil && Covered(d.visits) == FrameReachable(f)
    decreases Size(f.node), 0
  {
    var out := visit(s, f.path, Directory);
    assert !out.1.SkipDir?;
    if !out.1.Err? {
      var v := Visit(f.path, Directory, out.1);
      var kids := Listing(f.node);
      var pushed := ChildFrames(f.path, kids);
      PushedSmaller(f);
      var files := FilesRun(visit, out.0, f.path, kids);
      var d := DirRun(visit, s, f);
      assert d == After([v], Then(visit, files, pushed));
      FilesCover(visit, out.0, f.path, kids);
      if !files.result.Err? {
        FramesCover(visit, files.state, pushed);
        var rest := FramesRun(visit, files.state, pushed);
        assert d.visits == [v] + (files.visits + rest.visits);
        if !rest.result.Err? {
          ReachSplits(f.path, kids);
          CoveredConcat(files.visits, rest.visits);
          CoveredConcat([v], files.visits + rest.visits);
          assert Covered([v]) == multiset{(f.path, Directory)} by { assert [v][1..] == []; }
        }
      }
    }
  }

  lemma {:induction false} FramesCover<S(!new)>(visit: Visitor<S>, s: S, frames: seq<Frame>)
    requires EntersDirectories(visit)
    ensures var r := FramesRun(visit, s, frames);
            !r.result.Err? ==> r.result == Nil && Covered(r.visits) == FramesReachable(frames)
    decreases FramesSize(frames), 1
  {
    if frames != [] {
      var top := frames[|frames| - 1];
      var init := frames[..|frames| - 1];
      assert frames == init + [top];
      FramesSizeConcat(init, [top]);
      assert FramesSize([top]) == Size(top.node) by { assert [top][..0] == []; }
      var d := DirRun(visit, s, top);
      assert FramesRun(visit, s, frames) == Then(visit, d, init);
      DirCover(visit, s, top);
      if !d.result.Err? {
        FramesCover(visit, d.state, init);
        CoveredConcat(d.visits, FramesRun(visit, d.state, init).visits);
      }
    }
  }

  /** A walk whose visitor never skips a directory, and which is not ended
      by an error, visits every path reachable from its root exactly as
      often as it is reachable, unreadable directories contributing none of
      their contents (main.go:202-225); a root that is not a directory is
      visited alone (main.go:197-200). */
  lemma WalkCovers<S(!new)>(visit: Visitor<S>, s: S, root: string, fs: FS)
    requires EntersDirectories(visit)
    ensures var r := WalkRun(visit, s, root, fs);
            !r.result.Err? ==> Covered(r.visits) == WalkReach(fs, root)
  {
    if RootIsDir(fs, root) {
      var frames := [Frame(root, fs.trees[root])];
      FramesCover(visit, s, frames);
      assert frames[..0] == [];
      assert FramesReachable(frames) == Reachable(root, fs.trees[root]);
    } else {
      var r := WalkRun(visit, s, root, fs);
      assert r.visits[1..] == [];
    }
  }

  // ------------------------------------------------- nothing else visited

  lemma {:induction false} FilesWithin<S>(visit: Visitor<S>, s: S, dir: string, es: seq<Entry>)
    ensures Covered(FilesRun(visit, s, dir, es).visits) <= FilesReachable(dir, es)
    decreases |es|
  {
    if es != [] {
      if es[0].node.Dir? {
        FilesWithin(visit, s, dir, es[1..]);
      } else {
        var sub := Join(dir, es[0].name);
        var out := visit(s, sub, Regular);
        var v := Visit(sub, Regular, out.1);
        assert Covered([v]) == multiset{(sub, Regular)} by { assert [v][1..] == []; }
        if !out.1.Err? {
          FilesWithin(visit, out.0, dir, es[1..]);
          CoveredConcat([v], FilesRun(visit, out.0, dir, es[1..]).visits);
        }
      }
    }
  }

  lemma {:induction false} DirWithin<S>(visit: Visitor<S>, s: S, f: Frame)
    ensures Covered(DirRun(visit, s, f).visits) <= FrameReachable(f)
    decreases Size(f.node), 0
  {
    var out := visit(s, f.path, Directory);
    var v := Visit(f.path, Directory, out.1);
    assert Covered([v]) == multiset{(f.path, Directory)} by { assert [v][1..] == []; }
    if !out.1.Err? && !out.1.SkipDir? {
      var kids := Listing(f.node);
      var pushed := ChildFrames(f.path, kids);
      PushedSmaller(f);
      var files := FilesRun(visit, out.0, f.path, kids);
      var d := DirRun(visit, s, f);
      assert d == After([v], Then(visit, files, pushed));
      FilesWithin(visit, out.0, f.path, kids);
      ReachSplits(f.path, kids);
      if files.result.Err? {
        CoveredConcat([v], files.visits);
      } else {
        FramesWithin(visit, files.state, pushed);
        var rest := FramesRun(visit, files.state, pushed);
        assert d.visits == [v] + (files.visits + rest.visits);
        CoveredConcat(files.visits, rest.visits);
        CoveredConcat([v], files.visits + rest.visits);
      }
    }
  }

  lemma {:induction false} FramesWithin<S>(visit: Visitor<S>, s: S, frames: seq<Frame>)
    ensures Covered(FramesRun(visit, s, frames).visits) <= FramesReachable(frames)
    decreases FramesSize(frames), 1
  {
    if frames != [] {
      var top := frames[|frames| - 1];
      var init := frames[..|frames| - 1];
      assert frames == init + [top];
      FramesSizeConcat(init, [top]);
      assert FramesSize([top]) == Size(top.node) by { assert [top][..0] == []; }
      var d := DirRun(visit, s, top);
      assert FramesRun(visit, s, frames) == Then(visit, d, init);
      DirWithin(visit, s, top);
      if !d.result.Err? {
        FramesWithin(visit, d.state, init);
        CoveredConcat(d.visits, FramesRun(visit, d.state, init).visits);
      }
    }
  }

  /** Whatever the visitor answers, the walk visits nothing that is not
      reachable from its root, and nothing more often than it is reachable:
      skipping and stopping only leave paths out. */
  lemma WalkWithin<S>(visit: Visitor<S>, s: S, root: string, fs: FS)
    ensures Covered(WalkRun(visit, s, root, fs).visits) <= WalkReach(fs, root)
  {
    if RootIsDir(fs, root) {
      var frames := [Frame(root, fs.trees[root])];
      FramesWithin(visit, s, frames);
      assert frames[..0] == [];
      assert FramesReachable(frames) == Reachable(root, fs.trees[root]);
    } else {
      var r := WalkRun(visit, s, root, fs);
      assert r.visits[1..] == [];
    }
  }

  /** A visitor that never returns an error and never skips a directory. */
  ghost predicate NeverStops<S(!new)>(visit: Visitor<S>) {
    forall s: S, p: string :: visit(s, p, Directory).1 == Nil && !visit(s, p, Regular).1.Err?
  }

  lemma {:induction false} FilesNeverStop<S(!new)>(visit: Visitor<S>, s: S, dir: string, es: seq<Entry>)
    requires NeverStops(visit)
    ensures FilesRun(visit, s, dir, es).result == Nil
    decreases |es|
  {
    if es != [] {
      if es[0].node.Dir? {
        FilesNeverStop(visit, s, dir, es[1..]);
      } else {
        var out := visit(s, Join(dir, es[0].name), Regular);
        assert !out.1.Err?;
        FilesNeverStop(visit, out.0, dir, es[1..]);
      }
    }
  }

  lemma {:induction false} FramesNeverStop<S(!new)>(visit: Visitor<S>, s: S, frames: seq<Frame>)
    requires NeverStops(visit)
    ensures FramesRun(visit, s, frames).result == Nil
    decreases FramesSize(frames)
  {
    if frames != [] {
      var top := frames[|frames| - 1];
      var init := frames[..|frames| - 1];
      assert frames == init + [top];
      FramesSizeConcat(init, [top]);
      assert FramesSize([top]) == Size(top.node) by { assert [top][..0] == []; }
      var out := visit(s, top.path, Directory);
      assert out.1 == Nil;
      var kids := Listing(top.node);
      PushedSmaller(top);
      var files := FilesRun(visit, out.0, top.path, kids);
      var pushed := ChildFrames(top.path, kids);
      FilesNeverStop(visit, out.0, top.path, kids);
      FramesNeverStop(visit, files.state, pushed);
      var d := DirRun(visit, s, top);
      assert Then(visit, files, pushed) == After(files.visits, FramesRun(visit, files.state, pushed));
      assert d == After([Visit(top.path, Directory, out.1)], Then(visit, files, pushed));
      FramesNeverStop(visit, d.state, init);
      assert FramesRun(visit, s, frames) == After(d.visits, FramesRun(visit, d.state, init));
    }
  }

  /** A visitor that never stops the walk sees every path reachable from a
      directory root, each as often as it is reachable, and the walk
      returns `nil`. */
  lemma WalkComplete<S(!new)>(visit: Visitor<S>, s: S, root: string, fs: FS)
    requires NeverStops(visit) && RootIsDir(fs, root)
    ensures WalkRun(visit, s, root, fs).result == Nil
    ensures Covered(WalkRun(visit, s, root, fs).visits) == Reachable(root, fs.trees[root])
  {
    FramesNeverStop(visit, s, [Frame(root, fs.trees[root])]);
    WalkCovers(visit, s, root, fs);
  }

  // ------------------------------------------------------------ invariants

  /** `inv` over the visitor's state and the visits made so far survives
      every call of the visitor. */
  ghost predicate Preserves<S(!new)>(visit: Visitor<S>, inv: (S, seq<Visit>) -> bool) {
    forall s: S, t: seq<Visit>, p: string, i: Info {:trigger inv(s, t), visit(s, p, i)} ::
      inv(s, t) ==> inv(visit(s, p, i).0, t + [Visit(p, i, visit(s, p, i).1)])
  }

  lemma {:induction false} FilesPreserve<S(!new)>(visit: Visitor<S>, inv: (S, seq<Visit>) -> bool,
                                            s: S, t: seq<Visit>, dir: string, es: seq<Entry>)
    requires Preserves(visit, inv) && inv(s, t)
    ensures var r := FilesRun(visit, s, dir, es); inv(r.state, t + r.visits)
    decreases |es|
  {
    if es == [] {
      assert t + [] == t;
    } else if es[0].node.Dir? {
      FilesPreserve(visit, inv, s, t, dir, es[1..]);
    } else {
      var sub := Join(dir, es[0].name);
      var out := visit(s, sub, Regular);
      var v := Visit(sub, Regular, out.1);
      assert inv(out.0, t + [v]);
      if !out.1.Err? {
        FilesPreserve(visit, inv, out.0, t + [v], dir, es[1..]);
        var r := FilesRun(visit, out.0, dir, es[1..]);
        assert t + [v] + r.visits == t + ([v] + r.visits);
      }
    }
  }

  lemma {:induction false} ThenPreserve<S(!new)>(visit: Visitor<S>, inv: (S, seq<Visit>) -> bool,
                                           t: seq<Visit>, r: Run<S>, frames: seq<Frame>)
    requires Preserves(visit, inv) && inv(r.state, t + r.visits)
    ensures var r' := Then(visit, r, frames); inv(r'.state, t + r'.visits)
    decreases FramesSize(frames), 2
  {
    if !r.result.Err? {
      FramesPreserve(visit, inv, r.state, t + r.visits, frames);
      var f := FramesRun(visit, r.state, frames);
      assert t + r.visits + f.visits == t + (r.visits + f.visits);
    }
  }

  lemma {:induction false} FramesPreserve<S(!new)>(visit: Visitor<S>, inv: (S, seq<Visit>) -> bool,
                                             s: S, t: seq<Visit>, frames: seq<Frame>)
    requires Preserves(visit, inv) && inv(s, t)
    ensures var r := FramesRun(visit, s, frames); inv(r.state, t + r.visits)
    decreases FramesSize(frames), 1
  {
    if frames == [] {
      assert t + [] == t;
    } else {
      var top := frames[|frames| - 1];
      var init := frames[..|frames| - 1];
      assert frames == init + [top];
      FramesSizeConcat(init, [top]);
      assert FramesSize([top]) == Size(top.node) by { assert [top][..0] == []; }
      var out := visit(s, top.path, Directory);
      var v := Visit(top.path, Directory, out.1);
      assert inv(out.0, t + [v]);
      if !out.1.Err? && !out.1.SkipDir? {
        var kids := Listing(top.node);
        PushedSmaller(top);
        var files := FilesRun(visit, out.0, top.path, kids);
        FilesPreserve(visit, inv, out.0, t + [v], top.path, kids);
        ThenPreserve(visit, inv, t + [v], files, ChildFrames(top.path, kids));
        var th := Then(visit, files, ChildFrames(top.path, kids));
        assert t + [v] + th.visits == t + ([v] + th.visits);
      }
      ThenPreserve(visit, inv, t, DirRun(visit, s, top), init);
    }
  }

  /** Whatever holds of the visitor's state and the visits so far, and
      survives each call of the visitor, holds at the end of the walk. */
  lemma WalkPreserves<S(!new)>(visit: Visitor<S>, inv: (S, seq<Visit>) -> bool, s: S, root: string, fs: FS)
    requires Preserves(visit, inv) && inv(s, [])
    ensures var r := WalkRun(visit, s, root, fs); inv(r.state, r.visits)
  {
    if RootIsDir(fs, root) {
      FramesPreserve(visit, inv, s, [], [Frame(root, fs.trees[root])]);
      var r := FramesRun(visit, s, [Frame(root, fs.trees[root])]);
      assert [] + r.visits == r.visits;
    } else {
      var info := Lstat(fs, root);
      assert [] + [Visit(root, info, visit(s, root, info).1)] == [Visit(root, info, visit(s, root, info).1)];
    }
  }
}
