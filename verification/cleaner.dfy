/**
 * The main window's two buttons, without the UI: "Check" builds the inventory of
 * deletable paths under eight temporary-file roots, and "Clear" deletes them one by one
 * and then empties the recycle bin.
 */
module Cleaner {
  import opened Wrappers
  import opened Text
  import opened FileSystem
  import DirFinder

  /** The account part of the Windows identity `DOMAIN\user`, as `name[1]` reads it after
      `UserName.Split('\\')`: the second piece. There is none (the index is out of range)
      exactly when the identity holds no backslash; the piece itself never holds one. */
  function AccountName(userName: string): (r: Option<string>)
    ensures r.Some? <==> Separator in userName
    ensures r.Some? ==> Separator !in r.value
  {
    var name := Split(userName, Separator);
    OccurrencesPositive(userName, Separator);
    SplitPiecesFree(userName, Separator);
    if |name| > 1 then Some(name[1]) else None
  }

  /** For `DOMAIN\rest` the account is the text after the first backslash, up to the next. */
  lemma {:induction false} AccountAfterDomain(domain: string, rest: string)
    requires Separator !in domain
    ensures AccountName(domain + [Separator] + rest) == Some(Split(rest, Separator)[0])
  {
    SplitConcat(domain, rest, Separator);
    SplitWithoutSeparator(domain, Separator);
  }

  /** The eight cleanup roots, in the order they are scanned. */
  function Roots(account: string): (r: seq<Path>)
    ensures |r| == 8
  {
    var profile := "C:\\Users\\" + account + "\\AppData\\Local";
    [ "C:\\Windows\\Prefetch",
      "C:\\Windows\\SoftwareDistribution\\Download",
      "C:\\Windows\\Temp",
      profile + "\\Temp",
      profile + "\\Microsoft\\Windows\\INetCache",
      profile + "\\Microsoft\\Windows\\Explorer",
      profile + "\\CrashDumps",
      "C:\\Windows\\System32\\LogFiles" ]
  }

  /** What a scan meets: the file system, the outcome of every permission probe, and what
      the two enumerations of `DirandFile` return for each root. */
  datatype Machine = Machine(fs: Tree, access: DirFinder.Access,
                             fileListing: Path -> DirFinder.Listing,
                             dirListing: Path -> DirFinder.Listing)

  /** `DirandFile(root)` on this machine. */
  function RootItems(m: Machine, root: Path): seq<Path> {
    DirFinder.KeptOf(m.fs, m.access, m.fileListing(root))
      + DirFinder.KeptOf(m.fs, m.access, m.dirListing(root))
  }

  /** The inventory of a run of roots: their items concatenated in root order, with no
      deduplication. */
  function Inventory(m: Machine, roots: seq<Path>): seq<Path>
    decreases |roots|
  {
    if |roots| == 0 then []
    else Inventory(m, roots[..|roots| - 1]) + RootItems(m, roots[|roots| - 1])
  }

  /** A path is in the inventory exactly when some root's `DirandFile` returned it. */
  lemma {:induction false} InventoryMembers(m: Machine, roots: seq<Path>, p: Path)
    ensures p in Inventory(m, roots) <==> FoundUnder(m, roots, p)
    decreases |roots|
  {
    if |roots| > 0 {
      var init := roots[..|roots| - 1];
      var last := roots[|roots| - 1];
      InventoryMembers(m, init, p);
      assert Inventory(m, roots) == Inventory(m, init) + RootItems(m, last);
      FoundUnderSnoc(m, init, last, p);
      assert roots == init + [last];
    }
  }

  /** Some root of `roots` returned `p`. */
  ghost predicate FoundUnder(m: Machine, roots: seq<Path>, p: Path) {
    exists i :: 0 <= i < |roots| && p in RootItems(m, roots[i])
  }

  lemma {:induction false} FoundUnderSnoc(m: Machine, roots: seq<Path>, last: Path, p: Path)
    ensures FoundUnder(m, roots + [last], p) <==> FoundUnder(m, roots, p) || p in RootItems(m, last)
  {
    var all := roots + [last];
    if FoundUnder(m, roots, p) {
      var i :| 0 <= i < |roots| && p in RootItems(m, roots[i]);
      assert all[i] == roots[i];
    }
    if p in RootItems(m, last) {
      assert all[|roots|] == last;
    }
    if FoundUnder(m, all, p) {
      var i :| 0 <= i < |all| && p in RootItems(m, all[i]);
      if i < |roots| {
        assert all[i] == roots[i];
      }
    }
  }

  /** Every inventoried path passed the permission probe and was enumerated under one of
      the roots. */
  lemma {:induction false} InventorySound(m: Machine, roots: seq<Path>, p: Path)
    requires p in Inventory(m, roots)
    ensures DirFinder.Granted(m.fs, m.access, p)
    ensures exists i :: 0 <= i < |roots| && p in Enumerated(m, roots[i])
  {
    InventoryMembers(m, roots, p);
    var i :| 0 <= i < |roots| && p in RootItems(m, roots[i]);
    assert p in Enumerated(m, roots[i]) by {
      DirFinder.DirandFileExact(m.fs, m.access, m.fileListing(roots[i]), m.dirListing(roots[i]), p);
    }
  }

  /** Everything the two enumerations of a root returned. */
  function Enumerated(m: Machine, root: Path): seq<Path> {
    (match m.fileListing(root) case Listed(ps) => ps case Threw => [])
    + (match m.dirListing(root) case Listed(ps) => ps case Threw => [])
  }

  /** The outcome of one purge step. */
  datatype Outcome = FileDeleted | FileFailed | DirDeleted | DirFailed | Missing {
    predicate Deleted() { this == FileDeleted || this == DirDeleted }
    predicate Failed() { this == FileFailed || this == DirFailed }
  }

  /** A line of the log pane. */
  datatype LogLine =
    | FoundItem(path: Path)
    | DeletedFile(path: Path)
    | FailedFile(path: Path)
    | DeletedDirectory(path: Path)
    | FailedDirectory(path: Path)
    | CleanupCompleted

  /** The state of the main window: the inventory, the log pane, the progress bar
      (counted in steps of one item) and whether "Clear" is enabled. */
  datatype Window = Window(fullList: seq<Path>, log: seq<LogLine>, progress: nat, clearEnabled: bool)

  /** The result of "Check": the new window, or the window as the exception thrown by
      `name[1]` left it (an identity without a backslash). */
  datatype CheckResult = Checked(window: Window) | Crashed(window: Window)

  /** The log lines a scan writes, one per item. */
  function FoundLines(items: seq<Path>): (r: seq<LogLine>)
    ensures |r| == |items|
    ensures forall i :: 0 <= i < |items| ==> r[i] == FoundItem(items[i])
  {
    if |items| == 0 then [] else FoundLines(items[..|items| - 1]) + [FoundItem(items[|items| - 1])]
  }

  /** `Check_Click`. The inventory is rebuilt from scratch: the concatenation of the eight
      roots' `DirandFile` results, each item logged and advancing the progress bar once.
      "Clear" ends up enabled exactly when something was found. */
  method CheckClick(w: Window, m: Machine, userName: string) returns (r: CheckResult)
    ensures r.Crashed? <==> AccountName(userName).None?
    ensures r.Crashed? ==> r.window == Window([], [], 0, false)
    ensures r.Checked? ==> r.window.fullList == Inventory(m, Roots(AccountName(userName).value))
    ensures r.Checked? ==> r.window.log == FoundLines(r.window.fullList)
                           && r.window.progress == |r.window.fullList|
    ensures r.window.clearEnabled <==> r.Checked? && |r.window.fullList| > 0
  {
    var name := AccountName(userName);
    var window := Window([], [], 0, false);
    if name.None? {
      return Crashed(window);
    }
    var allItems := ScanRoots(m, Roots(name.value));
    window := ShowItems(allItems);
    return Checked(window);
  }

  /** The background task of "Check": `DirandFile` on each root, results appended in
      root order. */
  method ScanRoots(m: Machine, paths: seq<Path>) returns (allItems: seq<Path>)
    ensures allItems == Inventory(m, paths)
  {
    allItems := [];
    var k := 0;
    while k < |paths|
      invariant 0 <= k <= |paths|
      invariant allItems == Inventory(m, paths[..k])
    {
      var items := DirFinder.DirandFile(m.fs, m.access, m.fileListing(paths[k]), m.dirListing(paths[k]));
      assert paths[..k + 1][..k] == paths[..k];
      allItems := allItems + items;
      k := k + 1;
    }
    assert paths[..|paths|] == paths;
  }

  /** The display loop of "Check": each item joins the inventory and the log and
      advances the progress bar; "Clear" is then enabled if anything was found. */
  method ShowItems(allItems: seq<Path>) returns (window: Window)
    ensures window.fullList == allItems && window.log == FoundLines(allItems)
    ensures window.progress == |allItems|
    ensures window.clearEnabled <==> |allItems| > 0
  {
    window := Window([], [], 0, false);
    var i := 0;
    while i < |allItems|
      invariant 0 <= i <= |allItems|
      invariant window == Window(allItems[..i], FoundLines(allItems[..i]), i, false)
    {
      assert allItems[..i + 1][..i] == allItems[..i];
      window := window.(fullList := window.fullList + [allItems[i]],
                        log := window.log + [FoundItem(allItems[i])],
                        progress := window.progress + 1);
      i := i + 1;
    }
    assert allItems[..|allItems|] == allItems;
    if |allItems| > 0 {
      window := window.(clearEnabled := true);
    }
  }

  /** One purge step on `path`: an existing file is deleted as a file (this test comes
      first), otherwise an existing directory is deleted with everything in it, otherwise
      nothing happens. A delete that throws leaves the tree as it was. */
  function Visit(fs: Tree, path: Path, fails: bool): (r: (Outcome, Tree))
    ensures r.0 == Missing <==> path !in fs
    ensures r.0 in {FileDeleted, FileFailed} <==> IsFile(fs, path)
    ensures r.0.Deleted() <==> path in fs && !fails
    ensures r.0 == FileDeleted ==> r.1 == RemoveFile(fs, path)
    ensures r.0 == DirDeleted ==> r.1 == RemoveTree(fs, path)
    ensures !r.0.Deleted() ==> r.1 == fs
  {
    if IsFile(fs, path) then
      if fails then (FileFailed, fs) else (FileDeleted, RemoveFile(fs, path))
    else if IsDir(fs, path) then
      if fails then (DirFailed, fs) else (DirDeleted, RemoveTree(fs, path))
    else (Missing, fs)
  }

  /** The purge as a whole: the outcome of each step in order, and the final tree. */
  datatype Sweep = Sweep(outcomes: seq<Outcome>, fs: Tree)

  /** The purge loop over `list`; `failing` holds the positions whose delete throws. */
  function Purge(fs: Tree, list: seq<Path>, failing: set<nat>): (r: Sweep)
    ensures |r.outcomes| == |list|
    decreases |list|
  {
    if |list| == 0 then Sweep([], fs)
    else
      var before := Purge(fs, list[..|list| - 1], failing);
      var step := Visit(before.fs, list[|list| - 1], |list| - 1 in failing);
      Sweep(before.outcomes + [step.0], step.1)
  }

  /** Extending the list by one is one more step of the purge loop. */
  lemma {:induction false} PurgeStep(fs: Tree, list: seq<Path>, failing: set<nat>, i: nat)
    requires i < |list|
    ensures list[..i + 1] == list[..i] + [list[i]]
    ensures var before := Purge(fs, list[..i], failing);
            var step := Visit(before.fs, list[i], i in failing);
            Purge(fs, list[..i + 1], failing) == Sweep(before.outcomes + [step.0], step.1)
  {
    assert list[..i + 1][..i] == list[..i];
  }

  /** Every path is visited exactly once, in list order: step `i` classifies `list[i]`
      against the tree the earlier steps left, whatever became of them. */
  lemma {:induction false} PurgeVisitsInOrder(fs: Tree, list: seq<Path>, failing: set<nat>, i: nat)
    requires i < |list|
    ensures Purge(fs, list, failing).outcomes[i]
              == Visit(Purge(fs, list[..i], failing).fs, list[i], i in failing).0
    decreases |list|
  {
    if i < |list| - 1 {
      var init := list[..|list| - 1];
      PurgeVisitsInOrder(fs, init, failing, i);
      assert init[..i] == list[..i];
    } else {
      assert list[..|list| - 1] == list[..i];
    }
  }

  /** The purge never creates a path. */
  lemma {:induction false} PurgeOnlyRemoves(fs: Tree, list: seq<Path>, failing: set<nat>)
    ensures Purge(fs, list, failing).fs.Keys <= fs.Keys
    decreases |list|
  {
    if |list| > 0 {
      PurgeOnlyRemoves(fs, list[..|list| - 1], failing);
    }
  }

  /** A path reported deleted is absent from the final tree. */
  lemma {:induction false} DeletedStayGone(fs: Tree, list: seq<Path>, failing: set<nat>, i: nat)
    requires i < |list| && Purge(fs, list, failing).outcomes[i].Deleted()
    ensures list[i] !in Purge(fs, list, failing).fs
  {
    PurgeVisitsInOrder(fs, list, failing, i);
    var before := Purge(fs, list[..i], failing);
    assert list[..i + 1][..i] == list[..i];
    assert list[i] !in Purge(fs, list[..i + 1], failing).fs;
    PurgeSuffixRemoves(fs, list, failing, i + 1);
  }

  /** The steps after position `n` only remove paths. */
  lemma {:induction false} PurgeSuffixRemoves(fs: Tree, list: seq<Path>, failing: set<nat>, n: nat)
    requires n <= |list|
    ensures Purge(fs, list, failing).fs.Keys <= Purge(fs, list[..n], failing).fs.Keys
    decreases |list|
  {
    if |list| > n {
      var init := list[..|list| - 1];
      assert init[..n] == list[..n];
      PurgeSuffixRemoves(fs, init, failing, n);
    } else {
      assert list[..n] == list;
    }
  }

  /** How many steps deleted, failed, and found nothing. */
  datatype Tally = Tally(deleted: nat, failed: nat, missing: nat)

  /** Counts the outcomes; every attempted path is counted exactly once. */
  function Count(outcomes: seq<Outcome>): (t: Tally)
    ensures t.deleted + t.failed + t.missing == |outcomes|
    decreases |outcomes|
  {
    if |outcomes| == 0 then Tally(0, 0, 0)
    else
      var t := Count(outcomes[..|outcomes| - 1]);
      var o := outcomes[|outcomes| - 1];
      if o.Deleted() then t.(deleted := t.deleted + 1)
      else if o.Failed() then t.(failed := t.failed + 1)
      else t.(missing := t.missing + 1)
  }

  /** Each count is the number of outcomes of its kind: deletions of files and
      directories, failures of either, and missing paths. */
  lemma {:induction false} CountBuckets(outcomes: seq<Outcome>)
    ensures var t := Count(outcomes);
            && t.deleted == multiset(outcomes)[FileDeleted] + multiset(outcomes)[DirDeleted]
            && t.failed == multiset(outcomes)[FileFailed] + multiset(outcomes)[DirFailed]
            && t.missing == multiset(outcomes)[Missing]
    decreases |outcomes|
  {
    if |outcomes| > 0 {
      var n := |outcomes| - 1;
      MultisetLast(outcomes, FileDeleted);
      MultisetLast(outcomes, DirDeleted);
      MultisetLast(outcomes, FileFailed);
      MultisetLast(outcomes, DirFailed);
      MultisetLast(outcomes, Missing);
      CountBuckets(outcomes[..n]);
    }
  }

  /** A non-empty sequence holds `x` once more than its front when its last element is
      `x`, and as often otherwise. */
  lemma {:induction false} MultisetLast<T>(s: seq<T>, x: T)
    requires |s| > 0
    ensures multiset(s)[x] == multiset(s[..|s| - 1])[x] + if s[|s| - 1] == x then 1 else 0
  {
    assert s == s[..|s| - 1] + [s[|s| - 1]];
  }

  /** The log line of one step of the purge; a missing path logs nothing. */
  function LineOf(p: Path, o: Outcome): Option<LogLine> {
    match o
    case FileDeleted => Some(DeletedFile(p))
    case FileFailed => Some(FailedFile(p))
    case DirDeleted => Some(DeletedDirectory(p))
    case DirFailed => Some(FailedDirectory(p))
    case Missing => None
  }

  /** The log lines of the purge: the line of each step that found something, in the
      order of the steps. */
  function PurgeLines(list: seq<Path>, outcomes: seq<Outcome>): (r: seq<LogLine>)
    requires |list| == |outcomes|
    ensures |r| == Count(outcomes).deleted + Count(outcomes).failed
    decreases |list|
  {
    if |list| == 0 then []
    else
      var n := |list| - 1;
      assert outcomes[..n] == outcomes[..|outcomes| - 1];
      PurgeLines(list[..n], outcomes[..n]) + LineOf(list[n], outcomes[n]).ToSeq()
  }

  /** The lines of two runs of steps, one after the other, are the lines of the first
      followed by those of the second. */
  lemma {:induction false} PurgeLinesAppend(a: seq<Path>, oa: seq<Outcome>, b: seq<Path>, ob: seq<Outcome>)
    requires |a| == |oa| && |b| == |ob|
    ensures PurgeLines(a + b, oa + ob) == PurgeLines(a, oa) + PurgeLines(b, ob)
    decreases |b|
  {
    if |b| == 0 {
      assert a + b == a && oa + ob == oa;
    } else {
      var n := |b| - 1;
      var x, y := PurgeLines(a, oa), PurgeLines(b[..n], ob[..n]);
      var z := LineOf(b[n], ob[n]).ToSeq();
      PurgeLinesAppend(a, oa, b[..n], ob[..n]);
      PurgeLinesSnoc(a + b[..n], oa + ob[..n], b[n], ob[n]);
      SplitLast(a, b);
      SplitLast(oa, ob);
      PurgeLinesSnoc(b[..n], ob[..n], b[n], ob[n]);
      AppendAssoc(x, y, z);
    }
  }

  lemma AppendAssoc<T>(x: seq<T>, y: seq<T>, z: seq<T>)
    ensures x + y + z == x + (y + z)
  {
  }

  /** A non-empty sequence is its front followed by its last element, after any prefix. */
  lemma {:induction false} SplitLast<T>(a: seq<T>, b: seq<T>)
    requires |b| > 0
    ensures b[..|b| - 1] + [b[|b| - 1]] == b
    ensures a + b[..|b| - 1] + [b[|b| - 1]] == a + b
  {
    assert b[..|b| - 1] + [b[|b| - 1]] == b;
  }

  /** One more step adds its own line, if any, at the end. */
  lemma {:induction false} PurgeLinesSnoc(list: seq<Path>, outcomes: seq<Outcome>, p: Path, o: Outcome)
    requires |list| == |outcomes|
    ensures PurgeLines(list + [p], outcomes + [o]) == PurgeLines(list, outcomes) + LineOf(p, o).ToSeq()
  {
    assert (list + [p])[..|list|] == list;
    assert (outcomes + [o])[..|outcomes|] == outcomes;
  }

  /** Step `i` contributes its own line, after the lines of the steps before it and
      before the lines of the steps after it. */
  lemma {:induction false} PurgeLinesAt(list: seq<Path>, outcomes: seq<Outcome>, i: nat)
    requires |list| == |outcomes| && i < |list|
    ensures PurgeLines(list, outcomes)
              == PurgeLines(list[..i], outcomes[..i]) + LineOf(list[i], outcomes[i]).ToSeq()
                 + PurgeLines(list[i + 1..], outcomes[i + 1..])
  {
    assert list == list[..i + 1] + list[i + 1..];
    assert outcomes == outcomes[..i + 1] + outcomes[i + 1..];
    PurgeLinesAppend(list[..i + 1], outcomes[..i + 1], list[i + 1..], outcomes[i + 1..]);
    assert list[..i + 1][..i] == list[..i];
    assert outcomes[..i + 1][..i] == outcomes[..i];
  }

  /** What `Clear_Click` does outside the window: visit a path, or empty the recycle bin. */
  datatype Effect = Visited(path: Path, outcome: Outcome) | RecycleBinEmptied

  function Visits(list: seq<Path>, outcomes: seq<Outcome>): (r: seq<Effect>)
    requires |list| == |outcomes|
    ensures |r| == |list|
    ensures forall i :: 0 <= i < |list| ==> r[i] == Visited(list[i], outcomes[i])
    decreases |list|
  {
    if |list| == 0 then []
    else
      var n := |list| - 1;
      Visits(list[..n], outcomes[..n]) + [Visited(list[n], outcomes[n])]
  }

  /** `Clear_Click`. Every inventoried path is visited once, in order, a failure
      affecting only its own step; progress advances one step per path; the recycle bin
      is emptied exactly once, after the last visit; "Clear" ends disabled and the
      inventory is kept. */
  method ClearClick(w: Window, fs: Tree, failing: set<nat>)
    returns (w': Window, fs': Tree, effects: seq<Effect>)
    ensures var sweep := Purge(fs, w.fullList, failing);
            && fs' == sweep.fs
            && effects == Visits(w.fullList, sweep.outcomes) + [RecycleBinEmptied]
            && w'.log == PurgeLines(w.fullList, sweep.outcomes) + [CleanupCompleted]
    ensures w'.fullList == w.fullList && !w'.clearEnabled
    ensures w'.progress == if |w.fullList| > 0 then |w.fullList| else w.progress
  {
    var list := w.fullList;
    var log := [];
    var progress := w.progress;
    fs' := fs;
    var outcomes := [];
    var i := 0;
    while i < |list|
      invariant 0 <= i <= |list|
      invariant Purge(fs, list[..i], failing) == Sweep(outcomes, fs')
      invariant log == PurgeLines(list[..i], outcomes)
      invariant progress == if i > 0 then i else w.progress
    {
      PurgeStep(fs, list, failing, i);
      var step := Visit(fs', list[i], i in failing);
      PurgeLinesSnoc(list[..i], outcomes, list[i], step.0);
      log := log + LineOf(list[i], step.0).ToSeq();
      outcomes := outcomes + [step.0];
      fs' := step.1;
      progress := i + 1;
      i := i + 1;
    }
    assert list[..|list|] == list;
    effects := Visits(list, outcomes) + [RecycleBinEmptied];
    w' := Window(list, log + [CleanupCompleted], progress, false);
  }

  /** Attempted = deleted + failed + missing, over the whole purge, each count being
      the number of steps with an outcome of its kind. */
  lemma {:induction false} PurgeTally(fs: Tree, list: seq<Path>, failing: set<nat>)
    ensures var t := Count(Purge(fs, list, failing).outcomes);
            |list| == t.deleted + t.failed + t.missing
    ensures var o := Purge(fs, list, failing).outcomes;
            var t := Count(o);
            && t.deleted == multiset(o)[FileDeleted] + multiset(o)[DirDeleted]
            && t.failed == multiset(o)[FileFailed] + multiset(o)[DirFailed]
            && t.missing == multiset(o)[Missing]
  {
    CountBuckets(Purge(fs, list, failing).outcomes);
  }
}
