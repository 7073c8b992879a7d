/**
 * The Synchronizer class of Veeam/Synchronizer.cs.  The class holds what the
 * source reaches through the filesystem and the logger: the source tree, the
 * replica's files and directories, and the lines handed to the logger.  Each
 * method changes them in place and is proved against the functions of
 * SyncPass.
 */
module Synchronization {
  import opened Wrappers
  import opened Configuration
  import opened Trees
  import opened SyncPass

  class Synchronizer {
    /** The three roots: source holds the files below repository.sourceDirectory,
        replicaFiles and replicaDirs what lies below repository.replicaDirectory,
        and log what is appended to the log file below repository.logDirectory. */
    const repository: Repository
    /** ComputeMD5, applied to a file's contents. */
    const md5: Bytes -> Digest
    /** The host's directory separator, used when a relative path is logged. */
    const separator: char

    var source: Tree
    var replicaFiles: Tree
    var replicaDirs: set<RelPath>
    /** The messages handed to the logger, oldest first. */
    ghost var log: seq<string>

    function ReplicaState(): Replica
      reads this
    {
      Replica(replicaFiles, replicaDirs)
    }

    ghost predicate Valid()
      reads this
    {
      ValidTree(source) && ValidReplica(ReplicaState())
    }

    constructor (repository: Repository, md5: Bytes -> Digest, separator: char,
                 source: Tree, replicaFiles: Tree, replicaDirs: set<RelPath>)
      requires ValidTree(source) && ValidReplica(Replica(replicaFiles, replicaDirs))
      ensures Valid()
      ensures this.repository == repository && this.md5 == md5 && this.separator == separator
      ensures this.source == source && ReplicaState() == Replica(replicaFiles, replicaDirs)
      ensures log == []
    {
      this.repository := repository;
      this.md5 := md5;
      this.separator := separator;
      this.source := source;
      this.replicaFiles := replicaFiles;
      this.replicaDirs := replicaDirs;
      log := [];
    }

    /** Copies the source file p into the replica when it is missing there, or
        overwrites the replica's copy when the digests differ; ok is false when
        the copy throws. */
    method CheckForAdded(p: RelPath) returns (ok: bool, ghost actions: seq<SyncAction>)
      requires p in source
      modifies this
      ensures source == old(source)
      ensures var run := AddedStep(source, md5, old(ReplicaState()), p);
        ReplicaState() == run.replica && actions == run.actions && ok == run.failedAt.None?
      ensures log == old(log) + Lines(actions, separator)
    {
      ok, actions := true, [];
      if p !in replicaFiles {
        // Directory.CreateDirectory(Path.GetDirectoryName(replicaFile))
        if CreateDirectoryFails(ReplicaState(), p) {
          return false, [];
        }
        replicaDirs := replicaDirs + Ancestors(p);
        // File.Copy(sourceFile, replicaFile)
        if p in replicaDirs {
          return false, [];
        }
        replicaFiles := replicaFiles[p := source[p]];
        actions := [Copied(p)];
        log := log + [Line(Copied(p), separator)];
      } else {
        var sourceHash := md5(source[p]);
        var replicaHash := md5(replicaFiles[p]);
        if sourceHash != replicaHash {
          replicaFiles := replicaFiles[p := source[p]];
          actions := [Updated(p)];
          log := log + [Line(Updated(p), separator)];
        }
      }
    }

    /** Deletes the replica file p when the source has no file at p. */
    method CheckForRemoved(p: RelPath) returns (ghost actions: seq<SyncAction>)
      modifies this
      ensures source == old(source)
      ensures var run := RemovedStep(source, old(ReplicaState()), p);
        ReplicaState() == run.replica && actions == run.actions
      ensures log == old(log) + Lines(actions, separator)
    {
      actions := [];
      if p !in source {
        replicaFiles := replicaFiles - {p};
        actions := [Deleted(p)];
        log := log + [Line(Deleted(p), separator)];
      }
    }

    /** The action CheckFiles is handed, applied to one file. */
    method ApplyCheck(kind: Check, p: RelPath) returns (ok: bool, ghost actions: seq<SyncAction>)
      requires kind == ForAdded ==> p in source
      modifies this
      ensures source == old(source)
      ensures var run := Step(kind, source, md5, old(ReplicaState()), p);
        ReplicaState() == run.replica && actions == run.actions && ok == run.failedAt.None?
      ensures log == old(log) + Lines(actions, separator)
    {
      match kind {
        case ForAdded =>
          ok, actions := CheckForAdded(p);
        case ForRemoved =>
          ok := true;
          actions := CheckForRemoved(p);
      }
    }

    /** Applies the check to each file of the listing in order; a check that
        throws ends the loop, and ok is then false. */
    method CheckFiles(kind: Check, files: seq<RelPath>) returns (ok: bool, ghost actions: seq<SyncAction>)
      requires kind == ForAdded ==> forall p <- files :: p in source
      modifies this
      ensures source == old(source)
      ensures var run := Steps(kind, source, md5, old(ReplicaState()), files);
        ReplicaState() == run.replica && actions == run.actions && ok == run.failedAt.None?
      ensures log == old(log) + Lines(actions, separator)
    {
      ok, actions := true, [];
      var i := 0;
      while i < |files|
        invariant 0 <= i <= |files|
        invariant source == old(source)
        invariant var run := Steps(kind, source, md5, old(ReplicaState()), files[..i]);
          ReplicaState() == run.replica && actions == run.actions && run.failedAt.None?
        invariant log == old(log) + Lines(actions, separator)
      {
        StepsExtend(kind, source, md5, old(ReplicaState()), files, i);
        ghost var stepActions;
        var stepOk;
        stepOk, stepActions := ApplyCheck(kind, files[i]);
        LinesAppend(old(log), actions, stepActions, separator);
        actions := actions + stepActions;
        if !stepOk {
          FailureIsFinal(kind, source, md5, old(ReplicaState()), files, i + 1);
          return false, actions;
        }
        i := i + 1;
      }
      assert files[..i] == files;
    }

    /** One mirroring pass: the add/update loop over a listing of the source,
        then the delete loop over a listing of the replica taken after it.  The
        new replica, the actions logged and the outcome are those of Pass on
        the two listings, returned as ghost results.  The pass completes
        exactly when no source file is blocked in the replica; it then leaves
        the replica mirroring the source and has logged one line per file it
        copied, updated or deleted. */
    method SynchronizeFolders() returns (ok: bool, ghost sourceFiles: seq<RelPath>,
                                         ghost replicaList: seq<RelPath>, ghost actions: seq<SyncAction>)
      requires Valid()
      modifies this
      ensures Valid()
      ensures source == old(source)
      ensures IsListing(sourceFiles, source.Keys)
      ensures var added := Steps(ForAdded, source, md5, old(ReplicaState()), sourceFiles);
        added.failedAt.None? ==> IsListing(replicaList, added.replica.files.Keys)
      ensures var run := Pass(source, md5, old(ReplicaState()), sourceFiles, replicaList);
        ReplicaState() == run.replica && actions == run.actions && ok == run.failedAt.None?
      ensures log == old(log) + Lines(actions, separator)
      ensures old(replicaDirs) <= replicaDirs
      ensures ok <==> !Conflict(source, old(ReplicaState()))
      ensures ok ==> Mirrors(source, md5, replicaFiles)
      ensures ok ==> forall p :: p in source && p !in old(replicaFiles) ==> Ancestors(p) <= replicaDirs
      ensures ok ==>
        && DistinctPaths(actions)
        && forall q ::
          && (Copied(q) in actions <==> q in source && q !in old(replicaFiles))
          && (Updated(q) in actions <==> q in source && q in old(replicaFiles) && md5(source[q]) != md5(old(replicaFiles)[q]))
          && (Deleted(q) in actions <==> q in old(replicaFiles) && q !in source)
      ensures !ok ==> Conflict(source, ReplicaState())
      // what was copied or updated holds the source's bytes
      ensures forall q :: Copied(q) in actions || Updated(q) in actions ==>
        q in source && q in replicaFiles && replicaFiles[q] == source[q]
      // nothing else changes: no silent rewrite, and no directory beyond the source's
      ensures forall q :: q in old(replicaFiles) && q in source && Updated(q) !in actions ==>
        q in replicaFiles && replicaFiles[q] == old(replicaFiles)[q]
      ensures forall d :: d in replicaDirs && d !in old(replicaDirs) ==> exists p :: p in source && d in Ancestors(p)
      ensures Mirrors(source, md5, old(replicaFiles)) ==>
        ok && ReplicaState() == old(ReplicaState()) && actions == [] && log == old(log)
    {
      ghost var r0 := ReplicaState();
      var listing := GetFiles(source);
      sourceFiles := listing;
      ok, actions := CheckFiles(ForAdded, listing);
      replicaList := [];
      if ok {
        var replicaListing := GetFiles(replicaFiles);
        replicaList := replicaListing;
        ghost var removed;
        ok, removed := CheckFiles(ForRemoved, replicaListing);
        LinesAppend(old(log), actions, removed, separator);
        actions := actions + removed;
      }
      assert Valid() && r0.dirs <= replicaDirs by {
        PassKeepsValid(source, md5, r0, sourceFiles, replicaList);
      }
      assert ok <==> !Conflict(source, r0) by {
        PassSucceeds(source, md5, r0, sourceFiles, replicaList);
      }
      assert !ok ==> Conflict(source, ReplicaState()) by {
        AddedPassSucceeds(source, md5, r0, sourceFiles);
      }
      PassConverges(source, md5, r0, sourceFiles, replicaList);
      PassActions(source, md5, r0, sourceFiles, replicaList);
      PassUntouched(source, md5, r0, sourceFiles, replicaList);
      PassCopies(source, md5, r0, sourceFiles, replicaList);
      if Mirrors(source, md5, r0.files) {
        AddedStepsOnMirror(source, md5, r0, sourceFiles);
        PassOnMirrorIsNoOp(source, md5, r0, sourceFiles, replicaList);
      }
    }
  }
}
