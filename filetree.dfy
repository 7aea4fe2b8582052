/** A directory on disk, seen as a map from relative file path to file content. */
module FileTree {
  import opened Strings

  /** A relative, already normalised path such as `src/App.tsx`. */
  type Path = string

  /** Every file of a directory tree, by path relative to the tree's root. */
  type Tree = map<Path, string>

  /** `p` is `root` itself or lies inside the directory `root`. */
  predicate Under(p: Path, root: Path) {
    p == root || StartsWith(p, root + "/")
  }

  /** The path that `p`, lying under `from`, takes when `from` is copied to `to`. */
  function Rebase(p: Path, from: Path, to: Path): Path
    requires Under(p, from)
  {
    to + p[|from|..]
  }

  /** Rebasing lands under the new root and can be undone. */
  lemma RebaseInverse(p: Path, from: Path, to: Path)
    requires Under(p, from)
    ensures Under(Rebase(p, from, to), to)
    ensures Rebase(Rebase(p, from, to), to, from) == p
  {
    var q := Rebase(p, from, to);
    assert q[..|to|] == to;
    if p != from {
      assert p[|from|..] == "/" + p[|from| + 1..] by {
        assert p[..|from + "/"|] == from + "/";
      }
      assert q[..|to + "/"|] == to + "/";
    }
    assert q[|to|..] == p[|from|..];
    assert p[..|from|] == from by {
      if p != from {
        assert p[..|from + "/"|] == from + "/";
      }
    }
  }

  /** The top-level entry of the tree that `p` belongs to: the name before the first `/`. */
  function Head(p: Path): (h: string)
    ensures '/' !in h
  {
    if p == [] then []
    else if p[0] == '/' then []
    else [p[0]] + Head(p[1..])
  }

  /** For a top-level name `e`, lying under `e` is having `e` as top-level entry. */
  lemma {:induction false} UnderTopLevel(p: Path, e: string)
    requires '/' !in e
    ensures Under(p, e) <==> Head(p) == e
  {
    if e == [] {
      if p != [] && p[0] == '/' {
        assert StartsWith(p, e + "/") by { assert e + "/" == "/"; assert p[..1] == "/"; }
      }
    } else if p == [] {
    } else if p[0] == '/' {
      assert !StartsWith(p, e + "/") by { assert (e + "/")[0] == e[0] != '/'; }
    } else if |e| == 1 {
      if Head(p[1..]) == [] {
        assert Head(p) == [p[0]];
        assert e + "/" == [e[0], '/'];
        if p[1..] != [] {
          assert p[1] == '/';
          assert p[..2] == [p[0], p[1]];
        }
      } else {
        assert Head(p) != e;
        assert !(p == e) && !StartsWith(p, e + "/");
      }
    } else {
      UnderTopLevel(p[1..], e[1..]);
      assert p == e <==> p[0] == e[0] && p[1..] == e[1..];
      assert StartsWith(p, e + "/") <==> p[0] == e[0] && StartsWith(p[1..], e[1..] + "/") by {
        assert (e + "/")[1..] == e[1..] + "/";
      }
    }
  }

  /** A directory whose files the operations below overwrite in place. */
  class Directory {
    var files: Tree

    constructor (initial: Tree)
      ensures files == initial
    {
      files := initial;
    }
  }
}
