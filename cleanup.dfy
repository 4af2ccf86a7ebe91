/** Temp-directory housekeeping: the sweep that deletes stale entries directly under the temp
    root, and the removal of one path that does nothing when the path is absent.

    The filesystem is a map from paths to entries. A path is its list of components, the
    empty path being the filesystem root; an entry is a file or a directory with its last
    modification time in whole seconds. */
module Cleanup {

  type Path = seq<string>

  datatype Kind = File | Dir

  datatype Entry = Entry(kind: Kind, mtime: int)

  type Tree = map<Path, Entry>

  function Parent(p: Path): Path
    requires p != []
  {
    p[..|p| - 1]
  }

  /** Every entry other than the root lies in a directory that is itself an entry. */
  ghost predicate TreeShaped(m: Tree) {
    forall p | p in m && p != [] :: Parent(p) in m && m[Parent(p)].kind == Dir
  }

  /** The filesystem once `top` and everything below it are gone. */
  function RemoveSubtree(m: Tree, top: Path): Tree {
    map p | p in m.Keys && !(top <= p) :: m[p]
  }

  predicate IsChild(root: Path, p: Path) {
    |p| == |root| + 1 && root <= p
  }

  /** The entries directly under `root`. */
  function Children(m: Tree, root: Path): set<Path> {
    set p | p in m.Keys && IsChild(root, p)
  }

  /** Older than the threshold, strictly. */
  predicate Stale(e: Entry, now: int, threshold: int) {
    now - e.mtime > threshold
  }

  /** `p` lies below (or is) a direct child of `root` that is among `judged`, whose time could
      be read, and that is stale. */
  predicate Doomed(m: Tree, root: Path, now: int, threshold: int, unreadable: set<Path>,
                   judged: set<Path>, p: Path)
  {
    && |p| > |root| && root <= p
    && var c := p[..|root| + 1];
       c in judged && c in m && c !in unreadable && Stale(m[c], now, threshold)
  }

  /** The filesystem after the children of `root` in `judged` have been dealt with. */
  function SweptAmong(m: Tree, root: Path, now: int, threshold: int, unreadable: set<Path>,
                      judged: set<Path>): Tree
  {
    map p | p in m.Keys && !Doomed(m, root, now, threshold, unreadable, judged, p) :: m[p]
  }

  /** The filesystem after a sweep of `root`: every direct child whose time could be read and
      whose age exceeds the threshold is gone with all that lies below it. */
  function Swept(m: Tree, root: Path, now: int, threshold: int, unreadable: set<Path>): Tree {
    SweptAmong(m, root, now, threshold, unreadable, Children(m, root))
  }

  /** Every proper ancestor of an entry is a directory entry. */
  lemma {:induction false} AncestorIsDir(m: Tree, p: Path, q: Path)
    requires TreeShaped(m) && p in m && q < p
    ensures q in m && m[q].kind == Dir
    decreases |p|
  {
    var up := Parent(p);
    assert up in m && m[up].kind == Dir;
    if q != up {
      assert q < up;
      AncestorIsDir(m, up, q);
    }
  }

  /** Nothing lies below a file: removing its subtree removes the file alone. */
  lemma FileHasNoDescendants(m: Tree, f: Path)
    requires TreeShaped(m) && f in m && m[f].kind == File
    ensures RemoveSubtree(m, f) == m - {f}
  {
    forall p | p in m && f <= p ensures p == f {
      if f < p { AncestorIsDir(m, p, f); }
    }
  }

  /** Nothing lies below an absent path: removing its subtree changes nothing. */
  lemma AbsentHasNoDescendants(m: Tree, a: Path)
    requires TreeShaped(m) && a !in m
    ensures RemoveSubtree(m, a) == m
  {
    forall p | p in m ensures !(a <= p) {
      if a <= p {
        assert a != p;
        AncestorIsDir(m, p, a);
      }
    }
  }

  /** Removing a subtree leaves a tree. */
  lemma RemoveSubtreeShaped(m: Tree, top: Path)
    requires TreeShaped(m)
    ensures TreeShaped(RemoveSubtree(m, top))
  {
    var r := RemoveSubtree(m, top);
    forall p | p in r && p != [] ensures Parent(p) in r && r[Parent(p)].kind == Dir {
      assert Parent(p) <= p;
    }
  }

  /** Removing an existing path: the path is gone, a file goes alone, and every entry that is
      not at or below the path stays as it was. */
  lemma RemoveExisting(m: Tree, top: Path)
    requires TreeShaped(m) && top in m
    ensures var r := RemoveSubtree(m, top);
      && top !in r
      && (m[top].kind == File ==> r == m - {top})
      && forall p | p in m && !(top <= p) :: p in r && r[p] == m[p]
  {
    if m[top].kind == File {
      FileHasNoDescendants(m, top);
    }
  }

  /** Removing a subtree twice is removing it once. */
  lemma RemoveSubtreeIdempotent(m: Tree, top: Path)
    ensures RemoveSubtree(RemoveSubtree(m, top), top) == RemoveSubtree(m, top)
  {
  }

  /** One more child judged: its subtree goes when it is readable and stale. */
  lemma SweepStep(m: Tree, root: Path, now: int, threshold: int, unreadable: set<Path>,
                  judged: set<Path>, c: Path)
    requires IsChild(root, c) && c in m
    ensures var before := SweptAmong(m, root, now, threshold, unreadable, judged);
      SweptAmong(m, root, now, threshold, unreadable, judged + {c})
        == if c !in unreadable && Stale(m[c], now, threshold) then RemoveSubtree(before, c)
           else before
  {
    var before := SweptAmong(m, root, now, threshold, unreadable, judged);
    var after := SweptAmong(m, root, now, threshold, unreadable, judged + {c});
    forall p | p in m ensures c <= p <==> |p| > |root| && root <= p && p[..|root| + 1] == c {
      if c <= p { assert p[..|root| + 1] == c; }
      if |p| > |root| && root <= p && p[..|root| + 1] == c { assert c <= p; }
    }
    if c !in unreadable && Stale(m[c], now, threshold) {
      assert after == RemoveSubtree(before, c);
    } else {
      assert after == before;
    }
  }

  /** A sweep decides each direct child of the root by its own age against one cutoff: a readable
      child goes exactly when its age exceeds the threshold, so one exactly at the threshold
      stays, and an unreadable child stays. */
  lemma SweptChild(m: Tree, root: Path, now: int, threshold: int, unreadable: set<Path>, c: Path)
    requires c in m && IsChild(root, c)
    ensures c in Swept(m, root, now, threshold, unreadable)
      <==> c in unreadable || now - m[c].mtime <= threshold
  {
    assert c[..|root| + 1] == c;
  }

  /** Below a direct child, nothing is judged on its own: the whole subtree goes with a removed
      child, and stays untouched under a kept one, whatever the ages inside it. */
  lemma SweptBelowChild(m: Tree, root: Path, now: int, threshold: int, unreadable: set<Path>,
                        c: Path, p: Path)
    requires c in m && IsChild(root, c) && c <= p && p in m
    ensures var s := Swept(m, root, now, threshold, unreadable);
      && (p in s <==> c in s)
      && (p in s ==> s[p] == m[p])
  {
    assert c[..|root| + 1] == c;
    assert p[..|root| + 1] == c;
  }

  /** A sweep changes nothing outside the root's children, the root itself included. */
  lemma SweptOutside(m: Tree, root: Path, now: int, threshold: int, unreadable: set<Path>, p: Path)
    requires p in m && !(root < p)
    ensures var s := Swept(m, root, now, threshold, unreadable);
      p in s && s[p] == m[p]
  {
  }

  /** A sweep only removes entries; the ones it keeps keep their kind and time. */
  lemma SweptShrinks(m: Tree, root: Path, now: int, threshold: int, unreadable: set<Path>)
    ensures var s := Swept(m, root, now, threshold, unreadable);
      s.Keys <= m.Keys && forall p | p in s :: s[p] == m[p]
  {
  }

  /** A sweep leaves a tree. */
  lemma SweptShaped(m: Tree, root: Path, now: int, threshold: int, unreadable: set<Path>)
    requires TreeShaped(m)
    ensures TreeShaped(Swept(m, root, now, threshold, unreadable))
  {
    var s := Swept(m, root, now, threshold, unreadable);
    var judged := Children(m, root);
    forall p | p in s && p != [] ensures Parent(p) in s && s[Parent(p)].kind == Dir {
      var q := Parent(p);
      assert !Doomed(m, root, now, threshold, unreadable, judged, q) by {
        if |q| > |root| && root <= q {
          assert q[..|root| + 1] == p[..|root| + 1];
        }
      }
    }
  }

  /** With the same clock and no new entries, a second sweep removes nothing. */
  lemma SweptIdempotent(m: Tree, root: Path, now: int, threshold: int, unreadable: set<Path>)
    ensures var s := Swept(m, root, now, threshold, unreadable);
      Swept(s, root, now, threshold, unreadable) == s
  {
    var s := Swept(m, root, now, threshold, unreadable);
    var s2 := Swept(s, root, now, threshold, unreadable);
    forall p | p in s ensures p in s2 {
      if |p| > |root| && root <= p {
        var c := p[..|root| + 1];
        if c in s {
          assert c[..|root| + 1] == c;
          assert c in Children(m, root);
        }
      }
    }
    assert s2 == s;
  }

  /** The filesystem, changed in place by the sweep and by single removals. */
  class FileSystem {
    var entries: Tree

    ghost predicate Valid()
      reads this
    {
      TreeShaped(entries)
    }

    constructor (initial: Tree)
      requires TreeShaped(initial)
      ensures Valid() && entries == initial
    {
      entries := initial;
    }

    /** `path.unlink(missing_ok=True)` on a path that is absent or not a directory: removes
        the one entry, if present. */
    method Unlink(path: Path)
      requires Valid() && (path in entries ==> entries[path].kind == File)
      modifies this
      ensures Valid()
      ensures entries == old(entries) - {path}
    {
      if path in entries {
        FileHasNoDescendants(entries, path);
        RemoveSubtreeShaped(entries, path);
      }
      entries := entries - {path};
    }

    /** `shutil.rmtree(path, ignore_errors=True)`: removes a directory and all below it; on a
        path that is absent or not a directory the error is ignored and nothing changes. */
    method RemoveTree(path: Path)
      requires Valid()
      modifies this
      ensures Valid()
      ensures entries == if path in old(entries) && old(entries)[path].kind == Dir
                         then RemoveSubtree(old(entries), path) else old(entries)
    {
      if path in entries && entries[path].kind == Dir {
        RemoveSubtreeShaped(entries, path);
        entries := RemoveSubtree(entries, path);
      }
    }

    /** Removes `path` and, for a directory, all below it; an absent path changes nothing. */
    method SafeRemove(path: Path)
      requires Valid()
      modifies this
      ensures Valid()
      ensures entries == RemoveSubtree(old(entries), path)
      ensures path !in old(entries) ==> entries == old(entries)
    {
      if path !in entries {
        AbsentHasNoDescendants(entries, path);
        return;
      }
      if entries[path].kind == Dir {
        RemoveTree(path);
      } else {
        FileHasNoDescendants(entries, path);
        Unlink(path);
      }
    }

    /** Deletes every direct child of `root` (with everything below it) whose age at `now`
        exceeds `olderThanHours` hours. A child in `unreadable` is one whose status cannot be
        read: the error is swallowed and the sweep goes on with the other children. Listing a
        root that is absent or not a directory fails, reported as `ok == false`, before
        anything is changed. */
    method PurgeOldTempFiles(root: Path, olderThanHours: int := 24, now: int,
                             unreadable: set<Path>)
      returns (ok: bool)
      requires Valid()
      modifies this
      ensures Valid()
      ensures ok <==> root in old(entries) && old(entries)[root].kind == Dir
      ensures entries == if ok then Swept(old(entries), root, now, olderThanHours * 3600, unreadable)
                         else old(entries)
    {
      if root !in entries || entries[root].kind != Dir {
        return false;
      }
      ok := true;
      var threshold := olderThanHours * 3600;
      var pending := Children(entries, root);
      ghost var m0 := entries;
      ghost var judged: set<Path> := {};
      while pending != {}
        invariant Valid()
        invariant pending !! judged && pending + judged == Children(m0, root)
        invariant entries == SweptAmong(m0, root, now, threshold, unreadable, judged)
        decreases pending
      {
        var child :| child in pending;
        assert child[..|root| + 1] == child;
        SweepStep(m0, root, now, threshold, unreadable, judged, child);
        if child !in unreadable {
          var e := entries[child];
          if now - e.mtime > threshold {
            if e.kind == Dir {
              RemoveTree(child);
            } else {
              FileHasNoDescendants(entries, child);
              Unlink(child);
            }
          }
        }
        pending := pending - {child};
        judged := judged + {child};
      }
    }
  }
}
