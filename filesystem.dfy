/** The filesystem the refresh works on, reduced to what the refresh observes:
    which paths exist and the directory tree held at each. The three effects
    the refresh performs (`fs::rename`, `fs::remove_dir_all` and the clone of
    `git2::Repository::clone`) may each fail for reasons outside the model;
    a failed effect leaves the filesystem as it was. */
module Fs {
  import opened Paths

  datatype Option<T> = None | Some(value: T)

  /** The content of a directory: relative file path to file bytes. */
  datatype Tree = Tree(files: map<seq<string>, seq<bv8>>)

  type Entries = map<Path, Tree>

  /** A filesystem call the refresh makes, whether or not it succeeds. */
  datatype Call = RenameCall(src: Path, dst: Path) | RemoveCall(p: Path) | CloneCall(url: string, dest: Path)

  /** `p` holds the same thing (or nothing) in `m1` and in `m2`. */
  predicate AgreeAt(m1: Entries, m2: Entries, p: Path) {
    (p in m1 <==> p in m2) && (p in m1 ==> m1[p] == m2[p])
  }

  /** The state after a successful rename of `src` to `dst`: the tree that was
      at `src` is at `dst`, replacing what was there, and `src` is gone. */
  function Renamed(m: Entries, src: Path, dst: Path): (r: Entries)
    requires src in m
    ensures dst in r && r[dst] == m[src]
    ensures src != dst ==> src !in r
    ensures forall p :: p != src && p != dst ==> AgreeAt(r, m, p)
  {
    (m - {src})[dst := m[src]]
  }

  class FileSystem {
    var entries: Entries
    /** Every call made on this filesystem so far, in order. */
    ghost var calls: seq<Call>

    constructor (initial: Entries)
      ensures entries == initial && calls == []
    {
      entries := initial;
      calls := [];
    }

    /** `Path::exists`. */
    predicate Exists(p: Path)
      reads this
    {
      p in entries
    }

    /** `fs::rename`: fails when `src` does not exist, and may fail anyway. */
    method Rename(src: Path, dst: Path) returns (ok: bool)
      modifies this
      ensures ok ==> src in old(entries) && entries == Renamed(old(entries), src, dst)
      ensures !ok ==> entries == old(entries)
      ensures calls == old(calls) + [RenameCall(src, dst)]
    {
      calls := calls + [RenameCall(src, dst)];
      ok := false;
      if src in entries {
        ok :| true;
      }
      if ok {
        entries := Renamed(entries, src, dst);
      }
    }

    /** `fs::remove_dir_all`: fails when `p` does not exist, and may fail
        anyway. */
    method RemoveDirAll(p: Path) returns (ok: bool)
      modifies this
      ensures ok ==> p in old(entries) && entries == old(entries) - {p}
      ensures !ok ==> entries == old(entries)
      ensures calls == old(calls) + [RemoveCall(p)]
    {
      calls := calls + [RemoveCall(p)];
      ok := false;
      if p in entries {
        ok :| true;
      }
      if ok {
        entries := entries - {p};
      }
    }

    /** `Repository::clone(url, dest)`: on success some freshly fetched tree is
        at `dest` and returned; on failure nothing changed. What the remote
        holds is not modelled, so any tree may come back. */
    method Clone(url: string, dest: Path) returns (cloned: Option<Tree>)
      modifies this
      ensures cloned.Some? ==> entries == old(entries)[dest := cloned.value]
      ensures cloned.None? ==> entries == old(entries)
      ensures calls == old(calls) + [CloneCall(url, dest)]
    {
      calls := calls + [CloneCall(url, dest)];
      var ok: bool :| true;
      if ok {
        var tree: Tree :| true;
        cloned := Some(tree);
        entries := entries[dest := tree];
      } else {
        cloned := None;
      }
    }
  }
}
