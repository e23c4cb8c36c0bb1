/**
 * Include processing of the configuration parser: an explicit work stack of paths with
 * depths. It is proved to do what a depth-bounded recursive traversal does, for every
 * include graph, and so to halt on cyclic ones.
 */
module Includes {
  import opened Basics

  type Path = string

  // What parsing a file does: whether it succeeds, and the includes it leaves pending.
  datatype FileContent = FileContent(parses: bool, includes: seq<Path>)

  datatype FileSystem = FileSystem(canonical: Path -> Option<Path>, open: Path -> Option<FileContent>)

  datatype ConfigError = FileNotFound(path: Path) | CircularInclude(path: Path) | ParseError(file: Path)

  const MAX_INCLUDE_DEPTH: nat := 20

  // ---- The recursive traversal ------------------------------------------------

  // The files handed to the line parser, the includes still pending, the paths looked at.
  datatype Walk = Walk(parsed: seq<Path>, pending: seq<Path>, looks: nat)

  function Then(a: Walk, b: Walk): Walk {
    Walk(a.parsed + b.parsed, b.pending, a.looks + b.looks)
  }

  // What becomes of a path: no file to read, a file that fails to parse, or one that parses.
  datatype Look =
    | Missing(error: ConfigError)
    | Broken(badFile: Path, leftover: seq<Path>)
    | Good(file: Path, includes: seq<Path>)

  function LookAt(fs: FileSystem, path: Path): Look {
    match fs.canonical(path)
    case None => Missing(FileNotFound(path))
    case Some(file) =>
      match fs.open(file)
      case None => Missing(FileNotFound(file))
      case Some(content) => if content.parses then Good(file, content.includes) else Broken(file, content.includes)
  }

  /** A file, then its includes last to first, one level deeper. Includes that a failed
      file left pending are taken over by the next file that parses. */
  function Visit(fs: FileSystem, path: Path, depth: nat, pending: seq<Path>): (w: Walk)
    requires depth <= MAX_INCLUDE_DEPTH
    ensures w.looks >= 1
    decreases MAX_INCLUDE_DEPTH - depth, 0, 0
  {
    if depth >= MAX_INCLUDE_DEPTH then Walk([], pending, 1)
    else
      match LookAt(fs, path)
      case Missing(_) => Walk([], pending, 1)
      case Broken(file, leftover) => Walk([file], pending + leftover, 1)
      case Good(file, includes) =>
        Then(Walk([file], [], 1), VisitAll(fs, pending + includes, depth + 1, []))
  }

  function VisitAll(fs: FileSystem, paths: seq<Path>, depth: nat, pending: seq<Path>): Walk
    requires depth <= MAX_INCLUDE_DEPTH
    decreases MAX_INCLUDE_DEPTH - depth, 1, |paths|
  {
    if paths == [] then Walk([], pending, 0)
    else
      var n := |paths| - 1;
      var last := Visit(fs, paths[n], depth, pending);
      Then(last, VisitAll(fs, paths[..n], depth, last.pending))
  }

  // ---- The work stack ---------------------------------------------------------

  datatype Item = Item(path: Path, depth: nat)

  ghost predicate Bounded(queue: seq<Item>) {
    forall i :: 0 <= i < |queue| ==> queue[i].depth <= MAX_INCLUDE_DEPTH
  }

  // What is left to do for a stack, top first.
  ghost function VisitStack(fs: FileSystem, queue: seq<Item>, pending: seq<Path>): Walk
    requires Bounded(queue)
  {
    if queue == [] then Walk([], pending, 0)
    else
      var n := |queue| - 1;
      var top := Visit(fs, queue[n].path, queue[n].depth, pending);
      Then(top, VisitStack(fs, queue[..n], top.pending))
  }

  function Tag(paths: seq<Path>, depth: nat): (items: seq<Item>)
    ensures |items| == |paths|
    ensures forall i :: 0 <= i < |paths| ==> items[i] == Item(paths[i], depth)
  {
    seq(|paths|, i requires 0 <= i < |paths| => Item(paths[i], depth))
  }

  lemma ThenAssociates(a: Walk, b: Walk, c: Walk)
    ensures Then(Then(a, b), c) == Then(a, Then(b, c))
  {
    assert a.parsed + b.parsed + c.parsed == a.parsed + (b.parsed + c.parsed);
  }

  // Pushing the includes of a file amounts to visiting them before the rest.
  lemma {:induction false} PushIsVisitAll(
    fs: FileSystem, queue: seq<Item>, paths: seq<Path>, depth: nat, pending: seq<Path>)
    requires Bounded(queue) && depth <= MAX_INCLUDE_DEPTH
    ensures
      var w := VisitAll(fs, paths, depth, pending);
      VisitStack(fs, queue + Tag(paths, depth), pending) == Then(w, VisitStack(fs, queue, w.pending))
    decreases |paths|
  {
    var all := queue + Tag(paths, depth);
    if paths == [] {
      assert all == queue;
      var rest := VisitStack(fs, queue, pending);
      assert [] + rest.parsed == rest.parsed;
    } else {
      var n := |paths| - 1;
      assert all[..|all| - 1] == queue + Tag(paths[..n], depth);
      var last := Visit(fs, paths[n], depth, pending);
      PushIsVisitAll(fs, queue, paths[..n], depth, last.pending);
      var mid := VisitAll(fs, paths[..n], depth, last.pending);
      ThenAssociates(last, mid, VisitStack(fs, queue, mid.pending));
    }
  }

  class ConfigParser {
    var visitedFiles: set<Path>
    var pendingIncludes: seq<Path>
    // The files whose lines have been parsed, in order.
    var parsed: seq<Path>

    constructor ()
      ensures visitedFiles == {} && pendingIncludes == [] && parsed == []
    {
      visitedFiles := {};
      pendingIncludes := [];
      parsed := [];
    }

    // The line parser: includes found before an error stay pending.
    method ParseReader(file: Path, content: FileContent) returns (ok: bool)
      modifies this`pendingIncludes, this`parsed
      ensures ok == content.parses
      ensures parsed == old(parsed) + [file]
      ensures pendingIncludes == old(pendingIncludes) + content.includes
    {
      parsed := parsed + [file];
      pendingIncludes := pendingIncludes + content.includes;
      ok := content.parses;
    }

    // One turn of the loop up to the includes, which a parsed file leaves pending.
    method ReadFile(fs: FileSystem, path: Path) returns (look: Look)
      modifies this
      ensures visitedFiles == old(visitedFiles)
      ensures look ==
        var file := fs.canonical(path);
        if file.Some? && file.value in visitedFiles then Missing(CircularInclude(file.value)) else LookAt(fs, path)
      ensures
        match look
        case Missing(_) => parsed == old(parsed) && pendingIncludes == old(pendingIncludes)
        case Broken(file, more) => parsed == old(parsed) + [file] && pendingIncludes == old(pendingIncludes) + more
        case Good(file, more) => parsed == old(parsed) + [file] && pendingIncludes == old(pendingIncludes) + more
    {
      var resolved := fs.canonical(path);
      if resolved.None? { return Missing(FileNotFound(path)); }
      var file := resolved.value;
      if file in visitedFiles { return Missing(CircularInclude(file)); }
      visitedFiles := visitedFiles + {file};
      var reader := fs.open(file);
      if reader.None? {
        visitedFiles := visitedFiles - {file};
        return Missing(FileNotFound(file));
      }
      var ok := ParseReader(file, reader.value);
      visitedFiles := visitedFiles - {file};
      look := if ok then Good(file, reader.value.includes) else Broken(file, reader.value.includes);
    }

    /** The work-stack loop halts for every file system and does what the recursive
        traversal does. The visited set is empty again at every turn, so the cycle check
        never fires; only the depth bound ends a cycle. */
    method ParseFile(fs: FileSystem, path: Path) returns (r: Result<(), ConfigError>)
      requires visitedFiles == {}
      modifies this
      ensures visitedFiles == {}
      ensures
        var w := Visit(fs, path, 0, old(pendingIncludes));
        parsed == old(parsed) + w.parsed && pendingIncludes == w.pending
      ensures r == FirstFileResult(fs, path)
    {
      ghost var goal := Then(Walk(parsed, [], 0), Visit(fs, path, 0, pendingIncludes));
      var queue := [Item(path, 0)];
      var isFirst := true;
      StackOfOne(fs, path, pendingIncludes);
      while queue != []
        invariant visitedFiles == {} && Bounded(queue)
        invariant Reaches(goal, parsed, VisitStack(fs, queue, pendingIncludes))
        invariant isFirst ==> queue == [Item(path, 0)]
        invariant !isFirst ==> FirstFileResult(fs, path) == Ok(())
        decreases VisitStack(fs, queue, pendingIncludes).looks
      {
        var item, rest := queue[|queue| - 1], queue[..|queue| - 1];
        ghost var before, pending, done := queue, pendingIncludes, parsed;
        queue := rest;
        if item.depth >= MAX_INCLUDE_DEPTH {
          SkipAdvances(fs, before, pending, goal, done);
          continue;
        }
        var look := ReadFile(fs, item.path);
        if look.Missing? {
          SkipAdvances(fs, before, pending, goal, done);
          if isFirst { return Err(look.error); }
        } else if look.Broken? {
          BrokenAdvances(fs, before, pending, goal, done);
          if isFirst { return Err(ParseError(look.badFile)); }
        } else {
          GoodAdvances(fs, before, pending, goal, done);
          var includes := pendingIncludes;
          pendingIncludes := [];
          queue := queue + Tag(includes, item.depth + 1);
          isFirst := false;
        }
      }
      assert parsed + [] == parsed;
      return Ok(());
    }
  }

  // The files parsed so far and what is left to do make up the goal.
  ghost predicate Reaches(goal: Walk, parsed: seq<Path>, left: Walk) {
    goal.parsed == parsed + left.parsed && goal.pending == left.pending
  }

  // The stack after a turn still reaches the goal, with less to look at.
  ghost predicate Advances(fs: FileSystem, goal: Walk, queue: seq<Item>, pending: seq<Path>,
                           parsed: seq<Path>, next: seq<Item>, pending': seq<Path>)
    requires Bounded(queue) && Bounded(next)
  {
    var left := VisitStack(fs, next, pending');
    Reaches(goal, parsed, left) && left.looks < VisitStack(fs, queue, pending).looks
  }

  lemma SkipAdvances(fs: FileSystem, queue: seq<Item>, pending: seq<Path>, goal: Walk, parsed: seq<Path>)
    requires queue != [] && Bounded(queue)
    requires Reaches(goal, parsed, VisitStack(fs, queue, pending))
    requires queue[|queue| - 1].depth >= MAX_INCLUDE_DEPTH || LookAt(fs, queue[|queue| - 1].path).Missing?
    ensures Advances(fs, goal, queue, pending, parsed, queue[..|queue| - 1], pending)
  {
    var left := VisitStack(fs, queue[..|queue| - 1], pending);
    assert VisitStack(fs, queue, pending) == Then(Walk([], pending, 1), left);
    assert [] + left.parsed == left.parsed;
  }

  lemma {:induction false} BrokenAdvances(
    fs: FileSystem, queue: seq<Item>, pending: seq<Path>, goal: Walk, parsed: seq<Path>)
    requires queue != [] && Bounded(queue)
    requires Reaches(goal, parsed, VisitStack(fs, queue, pending))
    requires queue[|queue| - 1].depth < MAX_INCLUDE_DEPTH && LookAt(fs, queue[|queue| - 1].path).Broken?
    ensures
      var look := LookAt(fs, queue[|queue| - 1].path);
      Advances(fs, goal, queue, pending, parsed + [look.badFile], queue[..|queue| - 1], pending + look.leftover)
  {
    var look := LookAt(fs, queue[|queue| - 1].path);
    var left := VisitStack(fs, queue[..|queue| - 1], pending + look.leftover);
    assert VisitStack(fs, queue, pending) == Then(Walk([look.badFile], pending + look.leftover, 1), left);
    assert parsed + ([look.badFile] + left.parsed) == parsed + [look.badFile] + left.parsed;
  }

  lemma GoodAdvances(fs: FileSystem, queue: seq<Item>, pending: seq<Path>, goal: Walk, parsed: seq<Path>)
    requires queue != [] && Bounded(queue)
    requires Reaches(goal, parsed, VisitStack(fs, queue, pending))
    requires queue[|queue| - 1].depth < MAX_INCLUDE_DEPTH && LookAt(fs, queue[|queue| - 1].path).Good?
    ensures
      var item, rest := queue[|queue| - 1], queue[..|queue| - 1];
      var look := LookAt(fs, item.path);
      Advances(fs, goal, queue, pending, parsed + [look.file],
               rest + Tag(pending + look.includes, item.depth + 1), [])
  {
    var item, rest := queue[|queue| - 1], queue[..|queue| - 1];
    var look := LookAt(fs, item.path);
    var next := rest + Tag(pending + look.includes, item.depth + 1);
    GoodUnfolds(fs, queue, pending, item, look, next);
    AdvanceBy(goal, parsed, look.file, VisitStack(fs, queue, pending), VisitStack(fs, next, []));
  }

  lemma GoodUnfolds(
    fs: FileSystem, queue: seq<Item>, pending: seq<Path>, item: Item, look: Look, next: seq<Item>)
    requires queue != [] && Bounded(queue) && item == queue[|queue| - 1] && item.depth < MAX_INCLUDE_DEPTH
    requires look == LookAt(fs, item.path) && look.Good?
    requires next == queue[..|queue| - 1] + Tag(pending + look.includes, item.depth + 1)
    ensures VisitStack(fs, queue, pending) == Then(Walk([look.file], [], 1), VisitStack(fs, next, []))
  {
    var rest := queue[..|queue| - 1];
    var top := Visit(fs, item.path, item.depth, pending);
    StackUnfolds(fs, queue, pending);
    assert VisitStack(fs, queue, pending) == Then(top, VisitStack(fs, rest, top.pending));
    VisitGood(fs, item, rest, pending, look, next);
  }

  lemma StackUnfolds(fs: FileSystem, queue: seq<Item>, pending: seq<Path>)
    requires queue != [] && Bounded(queue)
    ensures
      var item, rest := queue[|queue| - 1], queue[..|queue| - 1];
      var top := Visit(fs, item.path, item.depth, pending);
      VisitStack(fs, queue, pending) == Then(top, VisitStack(fs, rest, top.pending))
  {
  }

  lemma AdvanceBy(goal: Walk, parsed: seq<Path>, file: Path, whole: Walk, left: Walk)
    requires Reaches(goal, parsed, whole) && whole == Then(Walk([file], [], 1), left)
    ensures Reaches(goal, parsed + [file], left) && left.looks < whole.looks
  {
    assert parsed + ([file] + left.parsed) == parsed + [file] + left.parsed;
  }

  lemma VisitGood(
    fs: FileSystem, item: Item, rest: seq<Item>, pending: seq<Path>, look: Look, next: seq<Item>)
    requires Bounded(rest) && item.depth < MAX_INCLUDE_DEPTH
    requires look == LookAt(fs, item.path) && look.Good?
    requires next == rest + Tag(pending + look.includes, item.depth + 1)
    ensures
      var top := Visit(fs, item.path, item.depth, pending);
      Then(top, VisitStack(fs, rest, top.pending)) == Then(Walk([look.file], [], 1), VisitStack(fs, next, []))
  {
    var paths := pending + look.includes;
    var inner := VisitAll(fs, paths, item.depth + 1, []);
    VisitUnfolds(fs, item, pending);
    PushIsVisitAll(fs, rest, paths, item.depth + 1, []);
    ThenAssociates(Walk([look.file], [], 1), inner, VisitStack(fs, rest, inner.pending));
  }

  lemma VisitUnfolds(fs: FileSystem, item: Item, pending: seq<Path>)
    requires item.depth < MAX_INCLUDE_DEPTH && LookAt(fs, item.path).Good?
    ensures
      var look := LookAt(fs, item.path);
      Visit(fs, item.path, item.depth, pending) ==
      Then(Walk([look.file], [], 1), VisitAll(fs, pending + look.includes, item.depth + 1, []))
  {
  }

  // Only the first file can make the whole parse fail.
  function FirstFileResult(fs: FileSystem, path: Path): Result<(), ConfigError> {
    match LookAt(fs, path)
    case Missing(error) => Err(error)
    case Broken(file, _) => Err(ParseError(file))
    case Good(_, _) => Ok(())
  }

  // What becomes of a path, from the file system alone.
  lemma LookExactly(fs: FileSystem, path: Path)
    ensures LookAt(fs, path).Missing? <==> fs.canonical(path).None? || fs.open(fs.canonical(path).value).None?
    ensures !LookAt(fs, path).Missing? ==>
      var file := fs.canonical(path).value;
      var content := fs.open(file).value;
      LookAt(fs, path) == if content.parses then Good(file, content.includes) else Broken(file, content.includes)
  {
  }

  /** The parse succeeds exactly when the first path resolves to a file that opens and
      parses; otherwise the error names the path, or the file it resolves to. */
  lemma FirstFileDecides(fs: FileSystem, path: Path)
    ensures FirstFileResult(fs, path).Ok? <==>
      && fs.canonical(path).Some?
      && fs.open(fs.canonical(path).value).Some?
      && fs.open(fs.canonical(path).value).value.parses
    ensures fs.canonical(path).None? ==> FirstFileResult(fs, path) == Err(FileNotFound(path))
    ensures fs.canonical(path).Some? ==>
      var file := fs.canonical(path).value;
      && (fs.open(file).None? ==> FirstFileResult(fs, path) == Err(FileNotFound(file)))
      && (fs.open(file).Some? && !fs.open(file).value.parses ==> FirstFileResult(fs, path) == Err(ParseError(file)))
  {
  }

  lemma StackOfOne(fs: FileSystem, path: Path, pending: seq<Path>)
    ensures
      var w, s := Visit(fs, path, 0, pending), VisitStack(fs, [Item(path, 0)], pending);
      s.parsed == w.parsed && s.pending == w.pending
  {
    var w := Visit(fs, path, 0, pending);
    assert [Item(path, 0)][..0] == [];
    assert w.parsed + [] == w.parsed;
  }

  // ---- The plain preorder -----------------------------------------------------

  /** File first, then its own includes last to first, cut at the depth limit. A file that
      fails to parse contributes itself and no includes. */
  function Preorder(fs: FileSystem, path: Path, depth: nat): (w: Walk)
    requires depth <= MAX_INCLUDE_DEPTH
    ensures w.looks >= 1 && w.pending == []
    decreases MAX_INCLUDE_DEPTH - depth, 0, 0
  {
    if depth >= MAX_INCLUDE_DEPTH then Walk([], [], 1)
    else
      match LookAt(fs, path)
      case Missing(_) => Walk([], [], 1)
      case Broken(file, _) => Walk([file], [], 1)
      case Good(file, includes) => Then(Walk([file], [], 1), PreorderAll(fs, includes, depth + 1))
  }

  function PreorderAll(fs: FileSystem, paths: seq<Path>, depth: nat): (w: Walk)
    requires depth <= MAX_INCLUDE_DEPTH
    ensures w.looks >= |paths| && w.pending == []
    decreases MAX_INCLUDE_DEPTH - depth, 1, |paths|
  {
    if paths == [] then Walk([], [], 0)
    else
      var n := |paths| - 1;
      Then(Preorder(fs, paths[n], depth), PreorderAll(fs, paths[..n], depth))
  }

  // Of the files reached from a path, those that fail to parse leave no include pending.
  ghost predicate LeavesNothing(fs: FileSystem, path: Path, depth: nat)
    requires depth <= MAX_INCLUDE_DEPTH
    decreases MAX_INCLUDE_DEPTH - depth, 0
  {
    depth < MAX_INCLUDE_DEPTH ==>
      match LookAt(fs, path)
      case Missing(_) => true
      case Broken(_, leftover) => leftover == []
      case Good(_, includes) => AllLeaveNothing(fs, includes, depth + 1)
  }

  ghost predicate AllLeaveNothing(fs: FileSystem, paths: seq<Path>, depth: nat)
    requires depth <= MAX_INCLUDE_DEPTH
    decreases MAX_INCLUDE_DEPTH - depth, 1
  {
    forall i :: 0 <= i < |paths| ==> LeavesNothing(fs, paths[i], depth)
  }

  // Then the traversal is the preorder.
  lemma {:induction false} NothingLeftIsPreorder(fs: FileSystem, path: Path, depth: nat)
    requires depth <= MAX_INCLUDE_DEPTH && LeavesNothing(fs, path, depth)
    ensures Visit(fs, path, depth, []) == Preorder(fs, path, depth)
    decreases MAX_INCLUDE_DEPTH - depth, 0, 0
  {
    var look := LookAt(fs, path);
    if depth < MAX_INCLUDE_DEPTH && look.Good? {
      assert [] + look.includes == look.includes;
      NothingLeftIsPreorderAll(fs, look.includes, depth + 1);
    }
  }

  lemma {:induction false} NothingLeftIsPreorderAll(fs: FileSystem, paths: seq<Path>, depth: nat)
    requires depth <= MAX_INCLUDE_DEPTH && AllLeaveNothing(fs, paths, depth)
    ensures VisitAll(fs, paths, depth, []) == PreorderAll(fs, paths, depth)
    decreases MAX_INCLUDE_DEPTH - depth, 1, |paths|
  {
    if paths != [] {
      var n := |paths| - 1;
      NothingLeftIsPreorder(fs, paths[n], depth);
      assert forall i :: 0 <= i < n ==> paths[..n][i] == paths[i];
      NothingLeftIsPreorderAll(fs, paths[..n], depth);
    }
  }

  // Otherwise there is more to look at, now or later: what was pending before, and then some.
  function Turns(w: Walk): nat {
    w.looks + |w.pending|
  }

  lemma {:induction false} VisitTakesMoreTurns(fs: FileSystem, path: Path, depth: nat, pending: seq<Path>)
    requires depth <= MAX_INCLUDE_DEPTH
    ensures Turns(Visit(fs, path, depth, pending)) >= Turns(Preorder(fs, path, depth)) + |pending|
    ensures !LeavesNothing(fs, path, depth) ==>
      Turns(Visit(fs, path, depth, pending)) > Turns(Preorder(fs, path, depth)) + |pending|
    decreases MAX_INCLUDE_DEPTH - depth, 0, 0
  {
    var look := LookAt(fs, path);
    if depth < MAX_INCLUDE_DEPTH && look.Good? {
      var all := pending + look.includes;
      VisitAllTakesMoreTurns(fs, all, depth + 1, []);
      PreorderOfAppend(fs, pending, look.includes, depth + 1);
      if AllLeaveNothing(fs, all, depth + 1) { LastLeaveNothing(fs, pending, look.includes, depth + 1); }
    }
  }

  lemma {:induction false} VisitAllTakesMoreTurns(fs: FileSystem, paths: seq<Path>, depth: nat, pending: seq<Path>)
    requires depth <= MAX_INCLUDE_DEPTH
    ensures Turns(VisitAll(fs, paths, depth, pending)) >= Turns(PreorderAll(fs, paths, depth)) + |pending|
    ensures !AllLeaveNothing(fs, paths, depth) ==>
      Turns(VisitAll(fs, paths, depth, pending)) > Turns(PreorderAll(fs, paths, depth)) + |pending|
    decreases MAX_INCLUDE_DEPTH - depth, 1, |paths|
  {
    if paths != [] {
      var n := |paths| - 1;
      VisitTakesMoreTurns(fs, paths[n], depth, pending);
      VisitAllTakesMoreTurns(fs, paths[..n], depth, Visit(fs, paths[n], depth, pending).pending);
      if AllLeaveNothing(fs, paths[..n], depth) {
        assert forall i :: 0 <= i < n ==> paths[..n][i] == paths[i];
      }
    }
  }

  lemma LastLeaveNothing(fs: FileSystem, a: seq<Path>, b: seq<Path>, depth: nat)
    requires depth <= MAX_INCLUDE_DEPTH && AllLeaveNothing(fs, a + b, depth)
    ensures AllLeaveNothing(fs, b, depth)
  {
    forall i | 0 <= i < |b| ensures LeavesNothing(fs, b[i], depth) { assert b[i] == (a + b)[|a| + i]; }
  }

  lemma {:induction false} PreorderOfAppend(fs: FileSystem, a: seq<Path>, b: seq<Path>, depth: nat)
    requires depth <= MAX_INCLUDE_DEPTH
    ensures PreorderAll(fs, a + b, depth).looks >= |a| + PreorderAll(fs, b, depth).looks
  {
    if b == [] {
      assert a + b == a;
    } else {
      var n := |b| - 1;
      PreorderOfAppend(fs, a, b[..n], depth);
      assert (a + b)[..|a| + n] == a + b[..n];
    }
  }

  /** The traversal is the plain preorder, with the same files parsed, the same number of
      paths looked at and nothing left pending, exactly when no file reached fails to
      parse with includes pending. */
  lemma VisitIsPreorder(fs: FileSystem, path: Path, depth: nat)
    requires depth <= MAX_INCLUDE_DEPTH
    ensures Visit(fs, path, depth, []) == Preorder(fs, path, depth) <==> LeavesNothing(fs, path, depth)
  {
    if LeavesNothing(fs, path, depth) {
      NothingLeftIsPreorder(fs, path, depth);
    } else {
      VisitTakesMoreTurns(fs, path, depth, []);
    }
  }

  // A file that includes nothing.
  lemma EmptyFile(fs: FileSystem, path: Path, depth: nat)
    requires depth < MAX_INCLUDE_DEPTH && LookAt(fs, path) == Good(path, [])
    ensures Visit(fs, path, depth, []) == Preorder(fs, path, depth) == Walk([path], [], 1)
  {
  }

  lemma ThreeEmptyFiles(fs: FileSystem, a: Path, b: Path, c: Path, depth: nat)
    requires depth < MAX_INCLUDE_DEPTH
    requires LookAt(fs, a) == Good(a, []) && LookAt(fs, b) == Good(b, []) && LookAt(fs, c) == Good(c, [])
    ensures VisitAll(fs, [a, b, c], depth, []) == Walk([c, b, a], [], 3)
    ensures PreorderAll(fs, [c], depth) == Walk([c], [], 1)
  {
    EmptyFile(fs, a, depth);
    EmptyFile(fs, b, depth);
    EmptyFile(fs, c, depth);
    assert [a, b, c][..2] == [a, b] && [a, b][..1] == [a] && [a][..0] == [] && [c][..0] == [];
    assert VisitAll(fs, [a], depth, []) == Walk([a], [], 1);
    assert VisitAll(fs, [a, b], depth, []) == Walk([b, a], [], 2);
  }

  /** Two files that fail to parse, then one that parses: their includes are parsed as if
      the last had listed them before its own, and so after its own. */
  lemma LeftoverIsParsedElsewhere(
    fs: FileSystem, depth: nat, good: Path, bad1: Path, bad2: Path, x1: Path, x2: Path, y: Path)
    requires depth + 1 < MAX_INCLUDE_DEPTH
    requires LookAt(fs, bad1) == Broken(bad1, [x1]) && LookAt(fs, bad2) == Broken(bad2, [x2])
    requires LookAt(fs, good) == Good(good, [y])
    requires LookAt(fs, x1) == Good(x1, []) && LookAt(fs, x2) == Good(x2, []) && LookAt(fs, y) == Good(y, [])
    ensures VisitAll(fs, [good, bad2, bad1], depth, []).parsed == [bad1, bad2, good, y, x2, x1]
    ensures PreorderAll(fs, [good, bad2, bad1], depth).parsed == [bad1, bad2, good, y]
  {
    ThreeEmptyFiles(fs, x1, x2, y, depth + 1);
    LeftoverVisited(fs, depth, good, bad1, bad2, x1, x2, y);
    LeftoverIgnored(fs, depth, good, bad1, bad2, y);
  }

  lemma LeftoverVisited(
    fs: FileSystem, depth: nat, good: Path, bad1: Path, bad2: Path, x1: Path, x2: Path, y: Path)
    requires depth + 1 < MAX_INCLUDE_DEPTH
    requires LookAt(fs, bad1).Broken? && LookAt(fs, bad1) == Broken(bad1, [x1])
    requires LookAt(fs, bad2) == Broken(bad2, [x2]) && LookAt(fs, good) == Good(good, [y])
    requires VisitAll(fs, [x1, x2, y], depth + 1, []) == Walk([y, x2, x1], [], 3)
    ensures VisitAll(fs, [good, bad2, bad1], depth, []).parsed == [bad1, bad2, good, y, x2, x1]
  {
    assert [good, bad2, bad1][..2] == [good, bad2] && [good, bad2][..1] == [good] && [good][..0] == [];
    assert Visit(fs, bad1, depth, []) == Walk([bad1], [x1], 1);
    assert Visit(fs, bad2, depth, [x1]) == Walk([bad2], [x1, x2], 1);
    assert [x1, x2] + [y] == [x1, x2, y];
    assert Visit(fs, good, depth, [x1, x2]) == Walk([good, y, x2, x1], [], 4);
    assert VisitAll(fs, [good], depth, [x1, x2]) == Walk([good, y, x2, x1], [], 4);
    assert VisitAll(fs, [good, bad2], depth, [x1]) == Walk([bad2, good, y, x2, x1], [], 5);
  }

  lemma LeftoverIgnored(fs: FileSystem, depth: nat, good: Path, bad1: Path, bad2: Path, y: Path)
    requires depth + 1 < MAX_INCLUDE_DEPTH
    requires LookAt(fs, bad1).Broken? && LookAt(fs, bad1).badFile == bad1
    requires LookAt(fs, bad2).Broken? && LookAt(fs, bad2).badFile == bad2
    requires LookAt(fs, good) == Good(good, [y]) && PreorderAll(fs, [y], depth + 1) == Walk([y], [], 1)
    ensures PreorderAll(fs, [good, bad2, bad1], depth).parsed == [bad1, bad2, good, y]
  {
    assert [good, bad2, bad1][..2] == [good, bad2] && [good, bad2][..1] == [good] && [good][..0] == [];
    assert Preorder(fs, good, depth) == Walk([good, y], [], 2);
    assert PreorderAll(fs, [good], depth) == Walk([good, y], [], 2);
    assert PreorderAll(fs, [good, bad2], depth) == Walk([bad2, good, y], [], 3);
  }

  // ---- Cycles -----------------------------------------------------------------

  function Repeat(path: Path, n: nat): (r: seq<Path>)
    ensures |r| == n && forall i :: 0 <= i < n ==> r[i] == path
  {
    seq(n, _ => path)
  }

  lemma OneInclude(fs: FileSystem, path: Path, depth: nat)
    requires depth <= MAX_INCLUDE_DEPTH
    ensures VisitAll(fs, [path], depth, []) == Visit(fs, path, depth, [])
  {
    var w := Visit(fs, path, depth, []);
    assert [path][..0] == [];
    assert VisitAll(fs, [path], depth, []) == Then(w, Walk([], w.pending, 0));
    assert w.parsed + [] == w.parsed;
  }

  // A file that includes itself is parsed once per level until the depth limit.
  lemma {:induction false} SelfIncludeFromDepth(fs: FileSystem, file: Path, depth: nat)
    requires fs.canonical(file) == Some(file)
    requires fs.open(file) == Some(FileContent(true, [file]))
    requires depth <= MAX_INCLUDE_DEPTH
    ensures Visit(fs, file, depth, []).parsed == Repeat(file, MAX_INCLUDE_DEPTH - depth)
    ensures Visit(fs, file, depth, []).pending == []
    decreases MAX_INCLUDE_DEPTH - depth
  {
    if depth < MAX_INCLUDE_DEPTH {
      SelfIncludeFromDepth(fs, file, depth + 1);
      OneInclude(fs, file, depth + 1);
      assert [] + [file] == [file];
      assert [file] + Repeat(file, MAX_INCLUDE_DEPTH - depth - 1) == Repeat(file, MAX_INCLUDE_DEPTH - depth);
    }
  }

  // From the top that is twenty times.
  lemma SelfIncludeIsParsedTwentyTimes(fs: FileSystem, file: Path)
    requires fs.canonical(file) == Some(file)
    requires fs.open(file) == Some(FileContent(true, [file]))
    ensures Visit(fs, file, 0, []).parsed == Repeat(file, 20)
    ensures Visit(fs, file, 0, []).pending == []
  {
    SelfIncludeFromDepth(fs, file, 0);
  }
}
