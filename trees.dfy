/**
 * Directory trees as the synchronizer sees them: the files of a tree keyed by
 * their path relative to the tree's root, and for the replica the set of
 * directories that exist in it.  The filesystem calls of
 * Veeam/Synchronizer.cs (Directory.GetFiles, Path.GetRelativePath,
 * Path.Combine) are replaced by this keying.
 */
module Trees {

  newtype byte = x: int | 0 <= x < 256

  type Bytes = seq<byte>

  /** A path below a tree root, one directory or file name per element; [] is the root itself. */
  type RelPath = seq<string>

  /** The files of one tree: relative path to contents. */
  type Tree = map<RelPath, Bytes>

  /** What ComputeMD5 returns: the digest as a lower-case hexadecimal string. */
  type Digest = string

  /** The replica tree: its files and the directories that exist in it. */
  datatype Replica = Replica(files: Tree, dirs: set<RelPath>)

  predicate IsProperPrefix(d: RelPath, p: RelPath)
  {
    |d| < |p| && d == p[..|d|]
  }

  /** The directories that must exist for a file at p to exist: the root and every proper prefix of p. */
  function Ancestors(p: RelPath): (ds: set<RelPath>)
    ensures forall d :: d in ds <==> IsProperPrefix(d, p)
  {
    set i | 0 <= i < |p| :: p[..i]
  }

  lemma AncestorsTransitive(d: RelPath, p: RelPath)
    requires IsProperPrefix(d, p)
    ensures Ancestors(d) <= Ancestors(p)
  {
    forall e | e in Ancestors(d) ensures e in Ancestors(p) {
      assert e == d[..|e|];
      assert d[..|e|] == p[..|e|];
    }
  }

  /** What a real directory tree guarantees of its file list: no file at the
      root path, and no file lying inside another file. */
  ghost predicate ValidTree(t: Tree)
  {
    && [] !in t
    && forall p, q :: p in t && q in t ==> !IsProperPrefix(p, q)
  }

  /** A consistent replica: its files form a valid tree, the root exists, no
      directory is also a file, and every file's and directory's ancestors
      exist as directories. */
  ghost predicate ValidReplica(r: Replica)
  {
    && ValidTree(r.files)
    && [] in r.dirs
    && (forall d :: d in r.dirs ==> d !in r.files && Ancestors(d) <= r.dirs)
    && (forall p :: p in r.files ==> Ancestors(p) <= r.dirs)
  }

  /** The replica files stand for the source files: the same relative paths, and
      for each path contents with the same digest. */
  ghost predicate Mirrors(src: Tree, md5: Bytes -> Digest, files: Tree)
  {
    && files.Keys == src.Keys
    && forall p :: p in src ==> md5(files[p]) == md5(src[p])
  }

  /** When the digest tells contents apart, mirroring means identical contents. */
  lemma MirrorsIdentical(src: Tree, md5: Bytes -> Digest, files: Tree)
    requires Mirrors(src, md5, files)
    requires forall a: Bytes, b: Bytes :: md5(a) == md5(b) ==> a == b
    ensures files == src
  {
    forall p | p in src ensures files[p] == src[p] {
      assert md5(files[p]) == md5(src[p]);
    }
  }

  predicate Distinct<T(==)>(s: seq<T>)
  {
    forall i, j :: 0 <= i < j < |s| ==> s[i] != s[j]
  }

  /** The files a recursive directory listing returns: each path of the tree once, in some order. */
  ghost predicate IsListing(files: seq<RelPath>, keys: set<RelPath>)
  {
    && Distinct(files)
    && forall p :: p in files <==> p in keys
  }

  /** Directory.GetFiles(root, "*", SearchOption.AllDirectories), as relative
      paths; the order the host returns them in is left open. */
  method GetFiles(t: Tree) returns (files: seq<RelPath>)
    ensures IsListing(files, t.Keys)
  {
    files := [];
    var rest := t.Keys;
    while rest != {}
      invariant rest <= t.Keys
      invariant Distinct(files)
      invariant forall p :: p in files ==> p in t && p !in rest
      invariant forall p :: p in t ==> p in files || p in rest
      decreases rest
    {
      var p :| p in rest;
      files := files + [p];
      rest := rest - {p};
    }
  }
}
