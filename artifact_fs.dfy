/**
 * The artifact file store the backup service works on (StreamPark's FsOperator,
 * local or HDFS), abstracted as a finite map from paths to nodes.
 *
 * A path is a sequence of segments. A path EXISTS when some node sits at it or
 * below it, so parent directories exist implicitly. The content of a directory
 * is its subtree: every node below it, keyed by the path relative to it.
 */
module ArtifactFs {

  type Path = seq<string>

  datatype Node = Dir | File(data: seq<bv8>)

  /** The whole store: absolute path to node. */
  type Fs = map<Path, Node>

  /** A directory's content: relative path to node ([] is the directory itself). */
  type Tree = map<Path, Node>

  datatype Outcome = Ok(fs: Fs) | IoError

  /** `fsOperator.exists(p)` */
  predicate Exists(fs: Fs, p: Path) {
    exists k :: k in fs && p <= k
  }

  /** Neither path lies inside the other, so neither operation on one can reach the other. */
  predicate Disjoint(p: Path, q: Path) {
    !(p <= q) && !(q <= p)
  }

  /** The last segment of a path: the name a moved directory keeps. */
  function Name(p: Path): string {
    if p == [] then "" else p[|p| - 1]
  }

  /** The content of the directory at `p`. */
  function Subtree(fs: Fs, p: Path): (t: Tree)
    ensures forall r :: r in t <==> p + r in fs
    ensures forall r :: r in t ==> t[r] == fs[p + r]
  {
    var rel := set k | k in fs && p <= k :: k[|p|..];
    assert forall r :: r in rel <==> p + r in fs by {
      forall r | p + r in fs ensures r in rel {
        var k := p + r;
        assert k[|p|..] == r;
      }
      forall r | r in rel ensures p + r in fs {
        var k :| k in fs && p <= k && r == k[|p|..];
        assert p + r == k;
      }
    }
    map r | r in rel :: fs[p + r]
  }

  /** The store without the tree at `p`. */
  function Prune(fs: Fs, p: Path): Fs {
    map k | k in fs && !(p <= k) :: fs[k]
  }

  /** The store with tree `t` laid over the directory at `at`. */
  function Graft(fs: Fs, at: Path, t: Tree): Fs {
    var added := set r | r in t :: at + r;
    map k | k in fs.Keys + added :: if at <= k && k[|at|..] in t then t[k[|at|..]] else fs[k]
  }

  /** `fsOperator.mkdirs(p)`: an absent directory is created empty; an existing one is kept. */
  function Mkdirs(fs: Fs, p: Path): Fs {
    if Exists(fs, p) then fs else fs[p := Dir]
  }

  /** `fsOperator.delete(p)`: removes the tree at `p`; deleting an absent path does nothing. */
  function DeleteTree(fs: Fs, p: Path): Fs {
    Prune(fs, p)
  }

  /** `fsOperator.copyDir(src, dst)`: the tree at `dst` becomes a copy of the tree at `src`. */
  function CopyDir(fs: Fs, src: Path, dst: Path): Outcome {
    if !Exists(fs, src) then IoError
    else Ok(Graft(Prune(fs, dst), dst, Subtree(fs, src)))
  }

  /** Where `fsOperator.move(src, dir)` puts the tree: inside `dir`, under its own name. */
  function MoveTarget(src: Path, dir: Path): Path {
    dir + [Name(src)]
  }

  /** `fsOperator.move(src, dir)`: the tree at `src` leaves its place and lands inside `dir`. */
  function Move(fs: Fs, src: Path, dir: Path): Outcome {
    if !Exists(fs, src) then IoError
    else Ok(Graft(Prune(Prune(fs, src), MoveTarget(src, dir)), MoveTarget(src, dir), Subtree(fs, src)))
  }

  // ---------------------------------------------------------------------------
  // Lemmas about the store operations

  /** Two prefixes of one path are ordered by the prefix relation. */
  lemma PrefixesComparable(a: Path, q: Path, r: Path)
    requires a <= q + r
    ensures a <= q || q <= a
  {
    if |a| <= |q| {
      assert a == (q + r)[..|a|] == q[..|a|];
    } else {
      assert q == (q + r)[..|q|] == a[..|q|];
    }
  }

  /** A path exists exactly when its directory has some content. */
  lemma ExistsIffContent(fs: Fs, p: Path)
    ensures Exists(fs, p) <==> Subtree(fs, p) != map[]
  {
    if Exists(fs, p) {
      var k :| k in fs && p <= k;
      assert p + k[|p|..] == k;
      assert k[|p|..] in Subtree(fs, p);
    }
    if Subtree(fs, p) != map[] {
      var r :| r in Subtree(fs, p);
      assert p <= p + r;
    }
  }

  /** Directories with equal content agree on existence. */
  lemma SameContentSameExistence(fs: Fs, p: Path, fs': Fs, q: Path)
    requires Subtree(fs', q) == Subtree(fs, p)
    ensures Exists(fs', q) == Exists(fs, p)
  {
    ExistsIffContent(fs, p);
    ExistsIffContent(fs', q);
  }

  /** After pruning `p`, nothing exists at or below `p`. */
  lemma PruneRemoves(fs: Fs, p: Path)
    ensures !Exists(Prune(fs, p), p)
  {
  }

  /** Pruning `p` leaves the content of every directory disjoint from `p` as it was. */
  lemma PruneFrame(fs: Fs, p: Path, q: Path)
    requires Disjoint(p, q)
    ensures Subtree(Prune(fs, p), q) == Subtree(fs, q)
  {
    var s, s' := Subtree(fs, q), Subtree(Prune(fs, p), q);
    forall r | r in s ensures r in s' {
      if p <= q + r {
        PrefixesComparable(p, q, r);
      }
    }
  }

  /** Grafting `t` onto an absent directory `at` gives `at` exactly the content `t`. */
  lemma GraftContent(fs: Fs, at: Path, t: Tree)
    requires !Exists(fs, at)
    ensures Subtree(Graft(fs, at, t), at) == t
  {
    var s := Subtree(Graft(fs, at, t), at);
    forall r | r in s ensures r in t && s[r] == t[r] {
      assert (at + r)[|at|..] == r;
      assert at <= at + r;
    }
    forall r | r in t ensures r in s {
      assert (at + r)[|at|..] == r;
    }
  }

  /** Grafting at `at` leaves the content of every directory disjoint from `at` as it was. */
  lemma GraftFrame(fs: Fs, at: Path, t: Tree, q: Path)
    requires Disjoint(at, q)
    ensures Subtree(Graft(fs, at, t), q) == Subtree(fs, q)
  {
    var g := Graft(fs, at, t);
    var s, s' := Subtree(fs, q), Subtree(g, q);
    forall r | r in s' ensures r in s && s'[r] == s[r] {
      if at <= q + r {
        PrefixesComparable(at, q, r);
        assert false;
      }
      assert forall r0 :: r0 in t ==> at <= at + r0;
    }
  }

  /** copyDir fails exactly when the source is missing; otherwise the destination holds the source's content. */
  lemma CopyDirCopies(fs: Fs, src: Path, dst: Path)
    ensures CopyDir(fs, src, dst).IoError? <==> !Exists(fs, src)
    ensures CopyDir(fs, src, dst).Ok? ==>
      Subtree(CopyDir(fs, src, dst).fs, dst) == Subtree(fs, src) && Exists(CopyDir(fs, src, dst).fs, dst)
  {
    if Exists(fs, src) {
      var fs' := CopyDir(fs, src, dst).fs;
      PruneRemoves(fs, dst);
      GraftContent(Prune(fs, dst), dst, Subtree(fs, src));
      SameContentSameExistence(fs, src, fs', dst);
    }
  }

  /** copyDir leaves the content of every directory disjoint from the destination as it was. */
  lemma CopyDirFrame(fs: Fs, src: Path, dst: Path, q: Path)
    requires Disjoint(dst, q)
    ensures CopyDir(fs, src, dst).Ok? ==> Subtree(CopyDir(fs, src, dst).fs, q) == Subtree(fs, q)
  {
    if Exists(fs, src) {
      PruneFrame(fs, dst, q);
      GraftFrame(Prune(fs, dst), dst, Subtree(fs, src), q);
    }
  }

  /** delete removes the whole tree at `p` and leaves every disjoint directory as it was. */
  lemma DeleteRemoves(fs: Fs, p: Path, q: Path)
    ensures !Exists(DeleteTree(fs, p), p)
    ensures Disjoint(p, q) ==> Subtree(DeleteTree(fs, p), q) == Subtree(fs, q)
  {
    PruneRemoves(fs, p);
    if Disjoint(p, q) {
      PruneFrame(fs, p, q);
    }
  }

  /** mkdirs makes `p` exist and leaves every disjoint directory as it was. */
  lemma MkdirsCreates(fs: Fs, p: Path, q: Path)
    ensures Exists(Mkdirs(fs, p), p)
    ensures Disjoint(p, q) ==> Subtree(Mkdirs(fs, p), q) == Subtree(fs, q)
  {
    if !Exists(fs, p) {
      assert p in Mkdirs(fs, p);
      if Disjoint(p, q) {
        var s, s' := Subtree(fs, q), Subtree(Mkdirs(fs, p), q);
        forall r | r in s' ensures r in s {
          assert q + r != p;
        }
      }
    }
  }

  /**
   * move fails exactly when the source is missing. Otherwise the tree arrives
   * inside the target directory intact and, when the two places do not overlap,
   * the source no longer exists; directories away from both are untouched.
   */
  lemma MoveMoves(fs: Fs, src: Path, dir: Path, q: Path)
    ensures Move(fs, src, dir).IoError? <==> !Exists(fs, src)
    ensures Move(fs, src, dir).Ok? ==>
      Subtree(Move(fs, src, dir).fs, MoveTarget(src, dir)) == Subtree(fs, src)
    ensures Move(fs, src, dir).Ok? && Disjoint(src, MoveTarget(src, dir)) ==>
      !Exists(Move(fs, src, dir).fs, src)
    ensures Move(fs, src, dir).Ok? && Disjoint(q, src) && Disjoint(q, MoveTarget(src, dir)) ==>
      Subtree(Move(fs, src, dir).fs, q) == Subtree(fs, q)
  {
    if Exists(fs, src) {
      var target := MoveTarget(src, dir);
      var pruned := Prune(Prune(fs, src), target);
      PruneRemoves(Prune(fs, src), target);
      GraftContent(pruned, target, Subtree(fs, src));
      if Disjoint(src, target) {
        PruneRemoves(fs, src);
        PruneFrame(Prune(fs, src), target, src);
        GraftFrame(pruned, target, Subtree(fs, src), src);
        ExistsIffContent(Prune(fs, src), src);
        ExistsIffContent(Move(fs, src, dir).fs, src);
      }
      if Disjoint(q, src) && Disjoint(q, target) {
        PruneFrame(fs, src, q);
        PruneFrame(Prune(fs, src), target, q);
        GraftFrame(pruned, target, Subtree(fs, src), q);
      }
    }
  }
}
