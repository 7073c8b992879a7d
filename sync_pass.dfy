/**
 * One synchronization pass of Veeam/Synchronizer.cs as functions over trees:
 * the effect of CheckForAdded and CheckForRemoved on the replica, the
 * CheckFiles loop over a file listing, and the two loops of
 * SynchronizeFolders.  A pass stops at the first file whose copy throws,
 * since the source catches nothing.
 */
module SyncPass {
  import opened Wrappers
  import opened Trees

  /** The work a pass logs, one line each. */
  datatype SyncAction = Copied(path: RelPath) | Updated(path: RelPath) | Deleted(path: RelPath)

  /** Where a run leaves the replica, the actions it took in order, and the
      file whose check threw, if one did. */
  datatype Run = Run(replica: Replica, actions: seq<SyncAction>, failedAt: Option<RelPath>)

  /** The action CheckFiles applies to each file of its listing. */
  datatype Check = ForAdded | ForRemoved

  /** Directory.CreateDirectory on p's parent throws: a file stands where one of p's ancestor directories must be. */
  predicate CreateDirectoryFails(r: Replica, p: RelPath)
  {
    exists d :: d in Ancestors(p) && d in r.files
  }

  /** The copy of a source file p that is absent from the replica throws:
      its parent cannot be created, or p itself is a directory there. */
  predicate Blocked(r: Replica, p: RelPath)
  {
    p !in r.files && (CreateDirectoryFails(r, p) || p in r.dirs)
  }

  /** CheckForAdded on the source file p. */
  function AddedStep(src: Tree, md5: Bytes -> Digest, r: Replica, p: RelPath): (run: Run)
    requires p in src
    ensures run.failedAt.None? <==> !Blocked(r, p)
    ensures run.failedAt.Some? ==> run.failedAt == Some(p) && Blocked(run.replica, p)
    // on success p is in the replica, with the source's digest, below existing directories
    ensures run.failedAt.None? ==> p in run.replica.files && md5(run.replica.files[p]) == md5(src[p])
    ensures run.failedAt.None? && p !in r.files ==> Ancestors(p) <= run.replica.dirs
    // a file copied or overwritten holds the source's bytes
    ensures run.actions != [] ==> p in run.replica.files && run.replica.files[p] == src[p]
    // no other file is touched, and directories are only ever created
    ensures forall q :: q != p ==> (q in run.replica.files <==> q in r.files)
    ensures forall q :: q != p && q in r.files ==> run.replica.files[q] == r.files[q]
    ensures r.dirs <= run.replica.dirs <= r.dirs + Ancestors(p)
    // one action exactly when something was written
    ensures run.actions == (if p !in r.files && !Blocked(r, p) then [Copied(p)]
                            else if p in r.files && md5(src[p]) != md5(r.files[p]) then [Updated(p)]
                            else [])
    ensures p in r.files && md5(src[p]) == md5(r.files[p]) ==> run == Run(r, [], None)
  {
    if p !in r.files then
      if CreateDirectoryFails(r, p) then Run(r, [], Some(p))
      else
        var made := r.(dirs := r.dirs + Ancestors(p));
        if p in r.dirs then Run(made, [], Some(p))
        else Run(made.(files := r.files[p := src[p]]), [Copied(p)], None)
    else if md5(src[p]) != md5(r.files[p]) then
      Run(r.(files := r.files[p := src[p]]), [Updated(p)], None)
    else
      Run(r, [], None)
  }

  /** CheckForRemoved on the replica file p. */
  function RemovedStep(src: Tree, r: Replica, p: RelPath): (run: Run)
    ensures run.failedAt.None? && run.replica.dirs == r.dirs
    ensures p !in src ==> run.replica.files == r.files - {p} && run.actions == [Deleted(p)]
    ensures p in src ==> run == Run(r, [], None)
  {
    if p !in src then Run(r.(files := r.files - {p}), [Deleted(p)], None)
    else Run(r, [], None)
  }

  /** The check CheckFiles is handed, applied to one file: only a copy can
      throw, and at most one action is logged, about that file. */
  function Step(kind: Check, src: Tree, md5: Bytes -> Digest, r: Replica, p: RelPath): (run: Run)
    requires kind == ForAdded ==> p in src
    ensures run.failedAt.Some? ==> kind == ForAdded && run.failedAt == Some(p)
    ensures |run.actions| <= 1 && forall a <- run.actions :: a.path == p
  {
    match kind
    case ForAdded => AddedStep(src, md5, r, p)
    case ForRemoved => RemovedStep(src, r, p)
  }

  /** CheckFiles: the check applied to each file of the listing in order, until one throws. */
  function Steps(kind: Check, src: Tree, md5: Bytes -> Digest, r: Replica, files: seq<RelPath>): (run: Run)
    requires kind == ForAdded ==> forall p <- files :: p in src
    ensures run.failedAt.Some? ==> kind == ForAdded && run.failedAt.value in src
    ensures |run.actions| <= |files|
    decreases |files|
  {
    if files == [] then Run(r, [], None)
    else
      var prev := Steps(kind, src, md5, r, files[..|files| - 1]);
      if prev.failedAt.Some? then prev
      else
        var next := Step(kind, src, md5, prev.replica, files[|files| - 1]);
        Run(next.replica, prev.actions + next.actions, next.failedAt)
  }

  /** SynchronizeFolders: the add/update loop over the source listing, then,
      when it completed, the delete loop over a listing of the replica taken
      after it. */
  function Pass(src: Tree, md5: Bytes -> Digest, r: Replica,
                sourceFiles: seq<RelPath>, replicaFiles: seq<RelPath>): (run: Run)
    requires forall p <- sourceFiles :: p in src
    // only the add loop can throw, and at most one line is logged per listed file
    ensures run.failedAt.Some? ==> run.failedAt.value in src
    ensures |run.actions| <= |sourceFiles| + |replicaFiles|
  {
    var added := Steps(ForAdded, src, md5, r, sourceFiles);
    if added.failedAt.Some? then added
    else
      var removed := Steps(ForRemoved, src, md5, added.replica, replicaFiles);
      Run(removed.replica, added.actions + removed.actions, removed.failedAt)
  }

  /** Some source file cannot be copied into the replica as it stands. */
  ghost predicate Conflict(src: Tree, r: Replica)
  {
    exists p :: p in src && Blocked(r, p)
  }

  /** No two actions concern the same file. */
  predicate DistinctPaths(actions: seq<SyncAction>)
  {
    forall i, j :: 0 <= i < j < |actions| ==> actions[i].path != actions[j].path
  }

  /** Steps over one more file: that file's check applied where the shorter listing left off. */
  lemma StepsExtend(kind: Check, src: Tree, md5: Bytes -> Digest, r: Replica, files: seq<RelPath>, i: nat)
    requires i < |files|
    requires kind == ForAdded ==> forall p <- files :: p in src
    requires Steps(kind, src, md5, r, files[..i]).failedAt.None?
    ensures var prev := Steps(kind, src, md5, r, files[..i]);
      var next := Step(kind, src, md5, prev.replica, files[i]);
      Steps(kind, src, md5, r, files[..i + 1]) == Run(next.replica, prev.actions + next.actions, next.failedAt)
  {
    assert files[..i + 1][..i] == files[..i];
  }

  /** Once a check has thrown, the rest of the listing is never looked at. */
  lemma {:induction false} FailureIsFinal(kind: Check, src: Tree, md5: Bytes -> Digest, r: Replica,
                                          files: seq<RelPath>, k: nat)
    requires k <= |files|
    requires kind == ForAdded ==> forall p <- files :: p in src
    requires Steps(kind, src, md5, r, files[..k]).failedAt.Some?
    ensures Steps(kind, src, md5, r, files) == Steps(kind, src, md5, r, files[..k])
    decreases |files|
  {
    if k < |files| {
      var n := |files| - 1;
      var init := files[..n];
      assert init[..k] == files[..k];
      assert forall i :: 0 <= i < |init| ==> init[i] == files[i];
      FailureIsFinal(kind, src, md5, r, init, k);
      assert Steps(kind, src, md5, r, init).failedAt.Some?;
    } else {
      assert files[..k] == files;
    }
  }

  // ---------------------------------------------------------------------------
  // Log lines

  /** Path.GetRelativePath's rendering of a relative path with the host's separator. */
  function Join(p: RelPath, sep: char): (s: string)
  {
    if p == [] then ""
    else if |p| == 1 then p[0]
    else p[0] + [sep] + Join(p[1..], sep)
  }

  /** The message the logger is handed for an action. */
  function Line(a: SyncAction, sep: char): (line: string)
  {
    match a
    case Copied(p) => "Copied new file: " + Join(p, sep)
    case Updated(p) => "Updated file: " + Join(p, sep)
    case Deleted(p) => "Deleted file: " + Join(p, sep)
  }

  /** The message tells what was done: two actions of different kinds never
      give the same line. */
  lemma LineTellsKind(a: SyncAction, b: SyncAction, sep: char)
    requires Line(a, sep) == Line(b, sep)
    ensures a.Copied? == b.Copied? && a.Updated? == b.Updated? && a.Deleted? == b.Deleted?
  {
    assert Line(a, sep)[0] == Line(b, sep)[0];
  }

  /** One log line per action, in the order taken. */
  function Lines(actions: seq<SyncAction>, sep: char): (lines: seq<string>)
    ensures |lines| == |actions|
    ensures forall i :: 0 <= i < |actions| ==> lines[i] == Line(actions[i], sep)
  {
    seq(|actions|, i requires 0 <= i < |actions| => Line(actions[i], sep))
  }

  /** Logging two runs of actions one after the other, after whatever the log
      already holds, logs their lines in that order. */
  lemma LinesAppend(log: seq<string>, a: seq<SyncAction>, b: seq<SyncAction>, sep: char)
    ensures log + Lines(a + b, sep) == log + Lines(a, sep) + Lines(b, sep)
  {
    var l, r := log + Lines(a + b, sep), log + Lines(a, sep) + Lines(b, sep);
    forall i | 0 <= i < |l| ensures l[i] == r[i] {
      if |log| + |a| <= i {
        assert (a + b)[i - |log|] == b[i - |log| - |a|];
      }
    }
  }

  // ---------------------------------------------------------------------------
  // The add/update loop

  /** A file of a non-empty listing is the last one or comes before it. */
  lemma InitOrLast(files: seq<RelPath>, q: RelPath)
    requires files != []
    ensures q in files <==> q in files[..|files| - 1] || q == files[|files| - 1]
  {
    assert files == files[..|files| - 1] + [files[|files| - 1]];
  }

  /** Files outside the listing keep their place and contents, and no directory disappears. */
  lemma {:induction false} AddedPassFrame(src: Tree, md5: Bytes -> Digest, r: Replica, files: seq<RelPath>)
    requires forall p <- files :: p in src
    ensures var run := Steps(ForAdded, src, md5, r, files);
      && (forall q :: q !in files ==> (q in run.replica.files <==> q in r.files))
      && (forall q :: q in r.files && q !in files ==> run.replica.files[q] == r.files[q])
      && r.dirs <= run.replica.dirs
    decreases |files|
  {
    if files != [] {
      var n := |files| - 1;
      AddedPassFrame(src, md5, r, files[..n]);
      var prev := Steps(ForAdded, src, md5, r, files[..n]);
      if prev.failedAt.None? {
        var next := AddedStep(src, md5, prev.replica, files[n]);
        forall q | q !in files ensures q !in files[..n] && q != files[n] {}
        forall q | q !in files && q in prev.replica.files
          ensures q in next.replica.files && next.replica.files[q] == prev.replica.files[q]
        {
          assert q in prev.replica.files - {files[n]};
        }
        forall q | q !in files && q in next.replica.files ensures q in prev.replica.files {
          assert q in next.replica.files - {files[n]};
        }
      } else {
        forall q | q !in files ensures q !in files[..n] {}
      }
    }
  }

  /** No directory is created where a source file belongs: the directories a
      pass creates are proper prefixes of source files, and in a valid source
      tree no file is a proper prefix of another. */
  lemma {:induction false} AddedPassKeepsFilePlaces(src: Tree, md5: Bytes -> Digest, r: Replica, files: seq<RelPath>)
    requires ValidTree(src)
    requires forall p <- files :: p in src
    ensures forall k :: k in src ==> (k in Steps(ForAdded, src, md5, r, files).replica.dirs <==> k in r.dirs)
    decreases |files|
  {
    if files != [] {
      var n := |files| - 1;
      AddedPassKeepsFilePlaces(src, md5, r, files[..n]);
      var prev := Steps(ForAdded, src, md5, r, files[..n]);
      if prev.failedAt.None? {
        var next := AddedStep(src, md5, prev.replica, files[n]);
        forall k | k in src && k in next.replica.dirs ensures k in prev.replica.dirs {
          if k !in prev.replica.dirs {
            assert false;
          }
        }
      }
    }
  }

  /** A completed loop has put every listed file in the replica with its
      source's digest, and added no other file. */
  lemma {:induction false} AddedPassMirrors(src: Tree, md5: Bytes -> Digest, r: Replica, files: seq<RelPath>)
    requires forall p <- files :: p in src
    ensures var run := Steps(ForAdded, src, md5, r, files);
      run.failedAt.None? ==>
        && (forall q :: q in run.replica.files <==> q in r.files || q in files)
        && (forall p :: p in files ==> md5(run.replica.files[p]) == md5(src[p]))
    decreases |files|
  {
    if files != [] {
      var n := |files| - 1;
      var last := files[n];
      var run := Steps(ForAdded, src, md5, r, files);
      if run.failedAt.None? {
        AddedPassMirrors(src, md5, r, files[..n]);
        var prev := Steps(ForAdded, src, md5, r, files[..n]);
        var next := AddedStep(src, md5, prev.replica, last);
        assert run.replica == next.replica;
        forall q ensures q in run.replica.files <==> q in r.files || q in files {
          InitOrLast(files, q);
        }
        forall p | p in files ensures md5(run.replica.files[p]) == md5(src[p]) {
          InitOrLast(files, p);
        }
      }
    }
  }

  /** Every file the loop copied lies below directories it created. */
  lemma {:induction false} AddedPassMakesDirs(src: Tree, md5: Bytes -> Digest, r: Replica, files: seq<RelPath>)
    requires forall p <- files :: p in src
    ensures var run := Steps(ForAdded, src, md5, r, files);
      run.failedAt.None? ==> forall p :: p in files && p !in r.files ==> Ancestors(p) <= run.replica.dirs
    decreases |files|
  {
    if files != [] {
      var n := |files| - 1;
      var last := files[n];
      var run := Steps(ForAdded, src, md5, r, files);
      if run.failedAt.None? {
        AddedPassMakesDirs(src, md5, r, files[..n]);
        AddedPassFrame(src, md5, r, files[..n]);
        var prev := Steps(ForAdded, src, md5, r, files[..n]);
        assert files == files[..n] + [last];
        forall p | p in files && p !in r.files ensures Ancestors(p) <= run.replica.dirs {
          if p != last {
            assert p in files[..n];
          } else if last in prev.replica.files {
          }
        }
      }
    }
  }

  /** Every file the loop copied or updated holds its source's bytes when the
      loop ends: each listed file is checked once, so no later check touches it. */
  lemma {:induction false} AddedPassCopies(src: Tree, md5: Bytes -> Digest, r: Replica, files: seq<RelPath>)
    requires Distinct(files)
    requires forall p <- files :: p in src
    ensures var run := Steps(ForAdded, src, md5, r, files);
      forall q :: Copied(q) in run.actions || Updated(q) in run.actions ==>
        q in src && q in run.replica.files && run.replica.files[q] == src[q]
    decreases |files|
  {
    AddedPassActionPaths(src, md5, r, files);
    if files != [] {
      var n := |files| - 1;
      var last := files[n];
      assert Distinct(files[..n]);
      AddedPassCopies(src, md5, r, files[..n]);
      AddedPassActionPaths(src, md5, r, files[..n]);
      var prev := Steps(ForAdded, src, md5, r, files[..n]);
      var run := Steps(ForAdded, src, md5, r, files);
      if prev.failedAt.None? {
        var next := AddedStep(src, md5, prev.replica, last);
        assert run.actions == prev.actions + next.actions;
        assert last !in files[..n];
        forall q | Copied(q) in run.actions || Updated(q) in run.actions
          ensures q in src && q in run.replica.files && run.replica.files[q] == src[q]
        {
          if Copied(q) in prev.actions || Updated(q) in prev.actions {
            assert q in files[..n];
          }
        }
      }
    }
  }

  /** A replica file the loop logged no update for keeps its contents, and
      every directory the loop created is a directory of a listed file. */
  lemma {:induction false} AddedPassUntouched(src: Tree, md5: Bytes -> Digest, r: Replica, files: seq<RelPath>)
    requires forall p <- files :: p in src
    ensures var run := Steps(ForAdded, src, md5, r, files);
      && (forall q :: q in r.files && Updated(q) !in run.actions ==>
            q in run.replica.files && run.replica.files[q] == r.files[q])
      && (forall d :: d in run.replica.dirs && d !in r.dirs ==> exists p :: p in files && d in Ancestors(p))
    decreases |files|
  {
    if files != [] {
      var n := |files| - 1;
      var last := files[n];
      AddedPassUntouched(src, md5, r, files[..n]);
      var prev := Steps(ForAdded, src, md5, r, files[..n]);
      var run := Steps(ForAdded, src, md5, r, files);
      if prev.failedAt.None? {
        var next := AddedStep(src, md5, prev.replica, last);
        assert run.actions == prev.actions + next.actions;
        forall q | q in r.files && Updated(q) !in run.actions
          ensures q in run.replica.files && run.replica.files[q] == r.files[q]
        {
          assert Updated(q) !in prev.actions;
          if q == last {
            assert Updated(q) !in next.actions;
          }
        }
      }
      forall d | d in run.replica.dirs && d !in r.dirs ensures exists p :: p in files && d in Ancestors(p) {
        if d in prev.replica.dirs {
          var p :| p in files[..n] && d in Ancestors(p);
          assert p in files;
        } else {
          assert last in files && d in Ancestors(last);
        }
      }
    }
  }

  /** The loop completes exactly when no listed file is blocked in the replica
      it started from; otherwise it stops at a blocked listed file, which is
      still blocked in the replica it leaves behind. */
  lemma {:induction false} AddedPassSucceeds(src: Tree, md5: Bytes -> Digest, r: Replica, files: seq<RelPath>)
    requires ValidTree(src)
    requires Distinct(files)
    requires forall p <- files :: p in src
    ensures var run := Steps(ForAdded, src, md5, r, files);
      && (run.failedAt.None? <==> forall p :: p in files ==> !Blocked(r, p))
      && (run.failedAt.Some? ==>
            var p := run.failedAt.value; p in files && Blocked(r, p) && Blocked(run.replica, p))
    decreases |files|
  {
    if files != [] {
      var n := |files| - 1;
      var last := files[n];
      assert files == files[..n] + [last];
      AddedPassSucceeds(src, md5, r, files[..n]);
      var prev := Steps(ForAdded, src, md5, r, files[..n]);
      if prev.failedAt.None? {
        AddedPassMirrors(src, md5, r, files[..n]);
        AddedPassKeepsFilePlaces(src, md5, r, files[..n]);
        assert last !in files[..n];
        assert last in prev.replica.files <==> last in r.files;
        assert last in prev.replica.dirs <==> last in r.dirs;
        assert CreateDirectoryFails(prev.replica, last) <==> CreateDirectoryFails(r, last) by {
          if CreateDirectoryFails(prev.replica, last) {
            var d :| d in Ancestors(last) && d in prev.replica.files;
            if d !in r.files {
              assert false;
            }
          }
        }
        assert Blocked(prev.replica, last) <==> Blocked(r, last);
      }
    }
  }

  /** Every action of the loop concerns a listed file, none is a deletion, and
      no file gets two. */
  lemma {:induction false} AddedPassActionPaths(src: Tree, md5: Bytes -> Digest, r: Replica, files: seq<RelPath>)
    requires Distinct(files)
    requires forall p <- files :: p in src
    ensures var run := Steps(ForAdded, src, md5, r, files);
      && DistinctPaths(run.actions)
      && (forall a :: a in run.actions ==> a.path in files && !a.Deleted?)
    decreases |files|
  {
    if files != [] {
      var n := |files| - 1;
      var last := files[n];
      assert files == files[..n] + [last];
      AddedPassActionPaths(src, md5, r, files[..n]);
      var prev := Steps(ForAdded, src, md5, r, files[..n]);
      if prev.failedAt.None? {
        var next := AddedStep(src, md5, prev.replica, last);
        var acts := prev.actions + next.actions;
        assert last !in files[..n];
        forall i, j | 0 <= i < j < |acts| ensures acts[i].path != acts[j].path {
          if j >= |prev.actions| {
            assert acts[j] == next.actions[0];
            assert acts[i] in prev.actions;
          }
        }
      }
    }
  }

  /** The actions of a completed loop: a copy for each listed file the replica
      lacked and an update for each whose digest differed. */
  lemma {:induction false} AddedPassActions(src: Tree, md5: Bytes -> Digest, r: Replica, files: seq<RelPath>)
    requires Distinct(files)
    requires forall p <- files :: p in src
    ensures var run := Steps(ForAdded, src, md5, r, files);
      run.failedAt.None? ==>
        forall q ::
          && (Copied(q) in run.actions <==> q in files && q !in r.files)
          && (Updated(q) in run.actions <==> q in files && q in r.files && md5(src[q]) != md5(r.files[q]))
    decreases |files|
  {
    if files != [] {
      var n := |files| - 1;
      var last := files[n];
      var run := Steps(ForAdded, src, md5, r, files);
      if run.failedAt.None? {
        assert files == files[..n] + [last];
        AddedPassActions(src, md5, r, files[..n]);
        AddedPassFrame(src, md5, r, files[..n]);
        var prev := Steps(ForAdded, src, md5, r, files[..n]);
        var next := AddedStep(src, md5, prev.replica, last);
        assert last !in files[..n];
        assert last in prev.replica.files <==> last in r.files;
        assert last in r.files ==> prev.replica.files[last] == r.files[last];
        assert run.actions == prev.actions + next.actions;
        forall q | q != last ensures q in files <==> q in files[..n] {}
      }
    }
  }

  // ---------------------------------------------------------------------------
  // The delete loop

  /** The delete loop removes exactly the listed files the source lacks,
      logging one deletion each, and touches nothing else. */
  lemma {:induction false} RemovedPass(src: Tree, md5: Bytes -> Digest, r: Replica, files: seq<RelPath>)
    ensures var run := Steps(ForRemoved, src, md5, r, files);
      && run.failedAt.None?
      && run.replica.dirs == r.dirs
      && (forall q :: q in run.replica.files <==> q in r.files && (q in src || q !in files))
      && (forall q :: q in run.replica.files ==> run.replica.files[q] == r.files[q])
      && (Distinct(files) ==> DistinctPaths(run.actions))
      && (forall a :: a in run.actions ==> a.Deleted?)
      && (forall q :: Deleted(q) in run.actions <==> q in files && q !in src)
    decreases |files|
  {
    if files != [] {
      var n := |files| - 1;
      var last := files[n];
      assert files == files[..n] + [last];
      RemovedPass(src, md5, r, files[..n]);
      var prev := Steps(ForRemoved, src, md5, r, files[..n]);
      var next := RemovedStep(src, prev.replica, last);
      var acts := prev.actions + next.actions;
      if Distinct(files) {
        assert last !in files[..n];
        forall i, j | 0 <= i < j < |acts| ensures acts[i].path != acts[j].path {
          if j >= |prev.actions| {
            assert acts[j] == next.actions[0];
            assert acts[i] in prev.actions;
          }
        }
      }
    }
  }

  // ---------------------------------------------------------------------------
  // The replica stays a well-formed tree

  /** A copy, an update or a failed copy leaves a consistent replica consistent. */
  lemma AddedStepKeepsValid(src: Tree, md5: Bytes -> Digest, r: Replica, p: RelPath)
    requires ValidTree(src) && ValidReplica(r)
    requires p in src
    ensures ValidReplica(AddedStep(src, md5, r, p).replica)
  {
    var r' := AddedStep(src, md5, r, p).replica;
    if p !in r.files && !CreateDirectoryFails(r, p) {
      forall d | d in r'.dirs ensures d !in r'.files && Ancestors(d) <= r'.dirs {
        if d in Ancestors(p) {
          AncestorsTransitive(d, p);
        }
      }
      forall q | q in r'.files ensures Ancestors(q) <= r'.dirs {}
    }
  }

  /** A deletion leaves a consistent replica consistent. */
  lemma RemovedStepKeepsValid(src: Tree, r: Replica, p: RelPath)
    requires ValidReplica(r)
    ensures ValidReplica(RemovedStep(src, r, p).replica)
  {
  }

  lemma {:induction false} StepsKeepValid(kind: Check, src: Tree, md5: Bytes -> Digest, r: Replica, files: seq<RelPath>)
    requires ValidTree(src) && ValidReplica(r)
    requires kind == ForAdded ==> forall p <- files :: p in src
    ensures ValidReplica(Steps(kind, src, md5, r, files).replica)
    decreases |files|
  {
    if files != [] {
      var n := |files| - 1;
      StepsKeepValid(kind, src, md5, r, files[..n]);
      var prev := Steps(kind, src, md5, r, files[..n]);
      if prev.failedAt.None? {
        match kind
        case ForAdded => AddedStepKeepsValid(src, md5, prev.replica, files[n]);
        case ForRemoved => RemovedStepKeepsValid(src, prev.replica, files[n]);
      }
    }
  }

  /** A pass, completed or not, leaves a consistent replica consistent: files
      only replace files, and directories are only ever created. */
  lemma PassKeepsValid(src: Tree, md5: Bytes -> Digest, r: Replica,
                       sourceFiles: seq<RelPath>, replicaFiles: seq<RelPath>)
    requires ValidTree(src) && ValidReplica(r)
    requires forall p <- sourceFiles :: p in src
    ensures var run := Pass(src, md5, r, sourceFiles, replicaFiles);
      ValidReplica(run.replica) && r.dirs <= run.replica.dirs
  {
    StepsKeepValid(ForAdded, src, md5, r, sourceFiles);
    AddedPassFrame(src, md5, r, sourceFiles);
    var added := Steps(ForAdded, src, md5, r, sourceFiles);
    if added.failedAt.None? {
      StepsKeepValid(ForRemoved, src, md5, added.replica, replicaFiles);
      RemovedPass(src, md5, added.replica, replicaFiles);
    }
  }

  // ---------------------------------------------------------------------------
  // Whole passes

  /** A pass completes exactly when no source file is blocked in the replica it
      starts from, whatever order the listings come in. */
  lemma PassSucceeds(src: Tree, md5: Bytes -> Digest, r: Replica,
                     sourceFiles: seq<RelPath>, replicaFiles: seq<RelPath>)
    requires ValidTree(src)
    requires IsListing(sourceFiles, src.Keys)
    ensures Pass(src, md5, r, sourceFiles, replicaFiles).failedAt.None? <==> !Conflict(src, r)
  {
    AddedPassSucceeds(src, md5, r, sourceFiles);
    var added := Steps(ForAdded, src, md5, r, sourceFiles);
    if added.failedAt.None? {
      assert Steps(ForRemoved, src, md5, added.replica, replicaFiles).failedAt.None? by {
        RemovedPass(src, md5, added.replica, replicaFiles);
      }
    } else {
      var p := added.failedAt.value;
      assert p in sourceFiles && Blocked(r, p);
    }
  }

  /** Convergence: after a completed pass the replica holds exactly the source's
      relative paths, each with its source's digest, and the directories of
      every file it copied exist. */
  lemma PassConverges(src: Tree, md5: Bytes -> Digest, r: Replica,
                      sourceFiles: seq<RelPath>, replicaFiles: seq<RelPath>)
    requires ValidTree(src)
    requires IsListing(sourceFiles, src.Keys)
    requires Steps(ForAdded, src, md5, r, sourceFiles).failedAt.None? ==>
      IsListing(replicaFiles, Steps(ForAdded, src, md5, r, sourceFiles).replica.files.Keys)
    ensures var run := Pass(src, md5, r, sourceFiles, replicaFiles);
      run.failedAt.None? ==>
        && Mirrors(src, md5, run.replica.files)
        && forall p :: p in src && p !in r.files ==> Ancestors(p) <= run.replica.dirs
  {
    var added := Steps(ForAdded, src, md5, r, sourceFiles);
    if added.failedAt.None? {
      AddedPassMirrors(src, md5, r, sourceFiles);
      AddedPassMakesDirs(src, md5, r, sourceFiles);
      RemovedPass(src, md5, added.replica, replicaFiles);
      var run := Pass(src, md5, r, sourceFiles, replicaFiles);
      forall q ensures q in run.replica.files <==> q in src {
        if q in src { assert q in sourceFiles; }
      }
      forall p | p in src ensures md5(run.replica.files[p]) == md5(src[p]) {
        assert p in sourceFiles;
      }
    }
  }

  /** Nothing else changes: a replica file the source also has keeps its
      contents unless the pass logged an update for it, and every directory
      the pass created is a directory of a source file. */
  lemma PassUntouched(src: Tree, md5: Bytes -> Digest, r: Replica,
                      sourceFiles: seq<RelPath>, replicaFiles: seq<RelPath>)
    requires forall p <- sourceFiles :: p in src
    ensures var run := Pass(src, md5, r, sourceFiles, replicaFiles);
      && (forall q :: q in r.files && q in src && Updated(q) !in run.actions ==>
            q in run.replica.files && run.replica.files[q] == r.files[q])
      && (forall d :: d in run.replica.dirs && d !in r.dirs ==> exists p :: p in src && d in Ancestors(p))
  {
    AddedPassUntouched(src, md5, r, sourceFiles);
    var added := Steps(ForAdded, src, md5, r, sourceFiles);
    var run := Pass(src, md5, r, sourceFiles, replicaFiles);
    if added.failedAt.None? {
      RemovedPass(src, md5, added.replica, replicaFiles);
      var removed := Steps(ForRemoved, src, md5, added.replica, replicaFiles);
      assert run.actions == added.actions + removed.actions;
      forall q | q in r.files && q in src && Updated(q) !in run.actions
        ensures q in run.replica.files && run.replica.files[q] == r.files[q]
      {
        assert Updated(q) !in added.actions;
      }
    }
    forall d | d in run.replica.dirs && d !in r.dirs ensures exists p :: p in src && d in Ancestors(p) {
      var p :| p in sourceFiles && d in Ancestors(p);
    }
  }

  /** What a pass wrote, it wrote from the source: every file it copied or
      updated holds its source file's bytes afterwards, since the delete loop
      keeps every file the source has. */
  lemma PassCopies(src: Tree, md5: Bytes -> Digest, r: Replica,
                   sourceFiles: seq<RelPath>, replicaFiles: seq<RelPath>)
    requires Distinct(sourceFiles)
    requires forall p <- sourceFiles :: p in src
    ensures var run := Pass(src, md5, r, sourceFiles, replicaFiles);
      forall q :: Copied(q) in run.actions || Updated(q) in run.actions ==>
        q in src && q in run.replica.files && run.replica.files[q] == src[q]
  {
    AddedPassCopies(src, md5, r, sourceFiles);
    var added := Steps(ForAdded, src, md5, r, sourceFiles);
    var run := Pass(src, md5, r, sourceFiles, replicaFiles);
    if added.failedAt.None? {
      RemovedPass(src, md5, added.replica, replicaFiles);
      var removed := Steps(ForRemoved, src, md5, added.replica, replicaFiles);
      assert run.actions == added.actions + removed.actions;
      forall q | Copied(q) in run.actions || Updated(q) in run.actions
        ensures q in src && q in run.replica.files && run.replica.files[q] == src[q]
      {
        assert Copied(q) in added.actions || Updated(q) in added.actions;
      }
    }
  }

  /** The actions of the add loop, all about source files, followed by
      deletions of files the source lacks, name each file at most once. */
  lemma AppendDistinctPaths(src: Tree, added: seq<SyncAction>, removed: seq<SyncAction>)
    requires DistinctPaths(added) && DistinctPaths(removed)
    requires forall a <- added :: a.path in src
    requires forall a <- removed :: a.Deleted? && a.path !in src
    ensures DistinctPaths(added + removed)
  {
    var acts := added + removed;
    forall i, j | 0 <= i < j < |acts| ensures acts[i].path != acts[j].path {
      if i < |added| <= j {
        assert acts[i] in added && acts[j] in removed;
      }
    }
  }

  /** What a completed pass did and logged: a copy for each source file the
      replica lacked, an update for each whose digest differed, a deletion
      for each replica file the source lacks, and at most one action per file. */
  lemma PassActions(src: Tree, md5: Bytes -> Digest, r: Replica,
                    sourceFiles: seq<RelPath>, replicaFiles: seq<RelPath>)
    requires ValidTree(src)
    requires IsListing(sourceFiles, src.Keys)
    requires Steps(ForAdded, src, md5, r, sourceFiles).failedAt.None? ==>
      IsListing(replicaFiles, Steps(ForAdded, src, md5, r, sourceFiles).replica.files.Keys)
    ensures var run := Pass(src, md5, r, sourceFiles, replicaFiles);
      run.failedAt.None? ==>
        && DistinctPaths(run.actions)
        && forall q ::
          && (Copied(q) in run.actions <==> q in src && q !in r.files)
          && (Updated(q) in run.actions <==> q in src && q in r.files && md5(src[q]) != md5(r.files[q]))
          && (Deleted(q) in run.actions <==> q in r.files && q !in src)
  {
    var added := Steps(ForAdded, src, md5, r, sourceFiles);
    if added.failedAt.None? {
      AddedPassActions(src, md5, r, sourceFiles);
      AddedPassActionPaths(src, md5, r, sourceFiles);
      AddedPassMirrors(src, md5, r, sourceFiles);
      RemovedPass(src, md5, added.replica, replicaFiles);
      var removed := Steps(ForRemoved, src, md5, added.replica, replicaFiles);
      var acts := added.actions + removed.actions;
      AppendDistinctPaths(src, added.actions, removed.actions);
      forall q ensures Copied(q) in acts <==> Copied(q) in added.actions {}
      forall q ensures Updated(q) in acts <==> Updated(q) in added.actions {}
      forall q ensures Deleted(q) in acts <==> q in r.files && q !in src {
        assert Deleted(q) !in added.actions;
        if q in r.files && q !in src {
          assert q in added.replica.files;
        }
      }
    }
  }

  /** A replica that already mirrors the source is left as it is by a pass,
      and nothing is logged. */
  lemma PassOnMirrorIsNoOp(src: Tree, md5: Bytes -> Digest, r: Replica,
                           sourceFiles: seq<RelPath>, replicaFiles: seq<RelPath>)
    requires Mirrors(src, md5, r.files)
    requires forall p <- sourceFiles :: p in src
    requires forall p <- replicaFiles :: p in src
    ensures Pass(src, md5, r, sourceFiles, replicaFiles) == Run(r, [], None)
  {
    AddedStepsOnMirror(src, md5, r, sourceFiles);
    RemovedStepsOnMirror(src, md5, r, replicaFiles);
  }

  lemma {:induction false} AddedStepsOnMirror(src: Tree, md5: Bytes -> Digest, r: Replica, files: seq<RelPath>)
    requires Mirrors(src, md5, r.files)
    requires forall p <- files :: p in src
    ensures Steps(ForAdded, src, md5, r, files) == Run(r, [], None)
    decreases |files|
  {
    if files != [] {
      AddedStepsOnMirror(src, md5, r, files[..|files| - 1]);
    }
  }

  lemma {:induction false} RemovedStepsOnMirror(src: Tree, md5: Bytes -> Digest, r: Replica, files: seq<RelPath>)
    requires forall p <- files :: p in src
    ensures Steps(ForRemoved, src, md5, r, files) == Run(r, [], None)
    decreases |files|
  {
    if files != [] {
      RemovedStepsOnMirror(src, md5, r, files[..|files| - 1]);
    }
  }

  /** Idempotence: a second pass straight after a completed one, with nothing
      changed in between, copies, updates and deletes nothing and logs nothing. */
  lemma SecondPassIsNoOp(src: Tree, md5: Bytes -> Digest, r: Replica,
                         sourceFiles: seq<RelPath>, replicaFiles: seq<RelPath>,
                         sourceFiles2: seq<RelPath>, replicaFiles2: seq<RelPath>)
    requires ValidTree(src)
    requires IsListing(sourceFiles, src.Keys) && IsListing(sourceFiles2, src.Keys)
    requires IsListing(replicaFiles, Steps(ForAdded, src, md5, r, sourceFiles).replica.files.Keys)
    requires Pass(src, md5, r, sourceFiles, replicaFiles).failedAt.None?
    ensures var first := Pass(src, md5, r, sourceFiles, replicaFiles).replica;
      IsListing(replicaFiles2, first.files.Keys) ==>
        Pass(src, md5, first, sourceFiles2, replicaFiles2) == Run(first, [], None)
  {
    var first := Pass(src, md5, r, sourceFiles, replicaFiles).replica;
    PassConverges(src, md5, r, sourceFiles, replicaFiles);
    if IsListing(replicaFiles2, first.files.Keys) {
      PassOnMirrorIsNoOp(src, md5, first, sourceFiles2, replicaFiles2);
    }
  }

  /** A pass that throws leaves the replica blocked, so every later pass over
      the same source throws as well: the replica never converges by itself. */
  lemma FailedPassFailsAgain(src: Tree, md5: Bytes -> Digest, r: Replica,
                             sourceFiles: seq<RelPath>, replicaFiles: seq<RelPath>,
                             sourceFiles2: seq<RelPath>, replicaFiles2: seq<RelPath>)
    requires ValidTree(src)
    requires IsListing(sourceFiles, src.Keys) && IsListing(sourceFiles2, src.Keys)
    requires Pass(src, md5, r, sourceFiles, replicaFiles).failedAt.Some?
    ensures var after := Pass(src, md5, r, sourceFiles, replicaFiles).replica;
      Pass(src, md5, after, sourceFiles2, replicaFiles2).failedAt.Some?
  {
    var run := Pass(src, md5, r, sourceFiles, replicaFiles);
    var added := Steps(ForAdded, src, md5, r, sourceFiles);
    if added.failedAt.None? {
      RemovedPass(src, md5, added.replica, replicaFiles);
      assert false;
    }
    AddedPassSucceeds(src, md5, r, sourceFiles);
    var p := run.failedAt.value;
    assert p in sourceFiles && Blocked(run.replica, p);
    PassSucceeds(src, md5, run.replica, sourceFiles2, replicaFiles2);
  }
}
