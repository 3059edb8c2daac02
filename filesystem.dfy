/** The part of the filesystem mkpatch reads and changes: a map from path
    names to entries, each a node (regular file, directory or anything
    else, with its size) or a symbolic link. A link's target is looked up
    as a path name of the same map. */
module Filesystem {
  import opened Text

  datatype NodeKind = RegularFile | Directory | OtherNode

  datatype Entry = Node(kind: NodeKind, size: nat) | Link(target: string)

  type Entries = map<string, Entry>

  predicate IsDirectory(e: Entry) {
    e.Node? && e.kind == Directory
  }

  /** Linux gives up on a path after following 40 symbolic links. */
  const MaxSymlinkHops: nat := 40

  const DevNull: string := "/dev/null"

  /** The node a path leads to, following at most `hops` links; nothing when
      a name on the way is missing or there are too many links. The empty
      name leads nowhere, whatever the map holds. */
  function Resolve(entries: Entries, path: string, hops: nat): (r: Option<Entry>)
    ensures r.Some? ==> r.value.Node?
    ensures path == [] || path !in entries ==> r.None?
    ensures path != [] && path in entries && entries[path].Node? ==> r == Some(entries[path])
    decreases hops
  {
    if path == [] || path !in entries then None
    else match entries[path]
      case Node(_, _) => Some(entries[path])
      case Link(target) => if hops == 0 then None else Resolve(entries, target, hops - 1)
  }

  /** `os.path.exists`: the path leads to a node. A dangling link does not
      exist in this sense. */
  predicate PathExists(entries: Entries, path: string) {
    Resolve(entries, path, MaxSymlinkHops).Some?
  }

  /** `os.path.getsize`: the size of the node the path leads to; nothing
      when the call raises. */
  function GetSize(entries: Entries, path: string): (r: Option<nat>)
    ensures r.Some? <==> PathExists(entries, path)
  {
    match Resolve(entries, path, MaxSymlinkHops)
    case Some(n) => Some(n.size)
    case None => None
  }

  /** What `os.stat`, `os.path.isfile` and `os.path.isdir` say of a path. */
  datatype StatKind = Missing | IsFile | IsDir | IsOther

  function StatOf(entries: Entries, path: string): (k: StatKind)
    ensures k == Missing <==> !PathExists(entries, path)
  {
    match Resolve(entries, path, MaxSymlinkHops)
    case None => Missing
    case Some(n) =>
      match n.kind
      case RegularFile => IsFile
      case Directory => IsDir
      case OtherNode => IsOther
  }

  /** A link added under a name that was not there changes nothing that
      resolved before: no resolution that succeeded went through that
      name. */
  lemma {:induction false} ResolveAfterNewLink(entries: Entries, name: string, target: string,
                                               path: string, hops: nat)
    requires name !in entries && Resolve(entries, path, hops).Some?
    ensures Resolve(entries[name := Link(target)], path, hops) == Resolve(entries, path, hops)
    decreases hops
  {
    var e := entries[name := Link(target)];
    assert path != name;
    assert e[path] == entries[path];
    if entries[path].Link? {
      ResolveAfterNewLink(entries, name, target, entries[path].target, hops - 1);
    }
  }

  /** The link mkpatch adds while `diff` runs leaves every size that could
      be read before it as it was. */
  lemma GetSizeAfterNewLink(entries: Entries, name: string, target: string, path: string)
    requires name !in entries && PathExists(entries, path)
    ensures GetSize(entries[name := Link(target)], path) == GetSize(entries, path)
  {
    ResolveAfterNewLink(entries, name, target, path, MaxSymlinkHops);
  }

  /** Removing the link that was added under a fresh name gives the
      entries back. */
  lemma RemoveNewLink(entries: Entries, name: string, target: string)
    requires name !in entries
    ensures entries[name := Link(target)] - {name} == entries
  {
    var e := entries[name := Link(target)] - {name};
    assert e.Keys == entries.Keys;
    forall p | p in e ensures e[p] == entries[p] {
      assert p != name;
    }
  }

  /** The filesystem as one object whose entries `os.symlink` and
      `os.unlink` change in place. */
  class FileSystem {
    var entries: Entries

    constructor (initial: Entries)
      ensures entries == initial
    {
      entries := initial;
    }

    /** `os.symlink(target, name)`: fails, changing nothing, when the name
        is taken, even by a dangling link. */
    method Symlink(target: string, name: string) returns (ok: bool)
      modifies this
      ensures ok <==> name !in old(entries)
      ensures entries == if ok then old(entries)[name := Link(target)] else old(entries)
    {
      ok := name !in entries;
      if ok {
        entries := entries[name := Link(target)];
      }
    }

    /** `os.unlink(name)`: removes the name itself (a link, not what it
        points to); fails, changing nothing, when the name is missing or a
        directory. */
    method Unlink(name: string) returns (ok: bool)
      modifies this
      ensures ok <==> name in old(entries) && !IsDirectory(old(entries)[name])
      ensures entries == if ok then old(entries) - {name} else old(entries)
    {
      ok := name in entries && !IsDirectory(entries[name]);
      if ok {
        entries := entries - {name};
      }
    }
  }
}
