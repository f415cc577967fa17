/** The part of a file system the patch committer uses. Every operation may fail at any time; a
    failed operation leaves the files as they were, except that a failed write may leave anything
    in the temporary file being written. A ghost count of faults tells failures for no reason from
    those that the files themselves explain. */
module FileSystems {
  import opened ByteStrings
  import opened Wrappers

  /** `Scratch` names are the ones `mkstemp` makes up; no patch names such a path. */
  datatype Path = Target(name: string) | Scratch(id: nat)

  datatype Node = File(data: Bytes, mode: nat) | Dir

  type Nodes = map<Path, Node>

  /** The regular file at a path, if there is one. */
  function FileAt(nodes: Nodes, path: Path): Option<Node> {
    if path in nodes && nodes[path].File? then Some(nodes[path]) else None
  }

  /** The two states hold the same regular files, apart from scratch files. */
  ghost predicate SameFiles(a: Nodes, b: Nodes) {
    forall path: Path | path.Target? :: FileAt(a, path) == FileAt(b, path)
  }

  /** Names for temporary files never run out. */
  lemma FreshScratch(nodes: Nodes)
    ensures exists id: nat :: Scratch(id) !in nodes
  {
    var id := ScratchBound(nodes.Keys);
    assert Scratch(id) !in nodes;
  }

  lemma {:induction false} ScratchBound(paths: set<Path>) returns (id: nat)
    ensures forall p <- paths | p.Scratch? :: p.id < id
  {
    id := 0;
    if paths != {} {
      var p :| p in paths;
      var rest := ScratchBound(paths - {p});
      id := if p.Scratch? && p.id >= rest then p.id + 1 else rest;
      assert forall q <- paths :: q == p || q in paths - {p};
    }
  }

  class FileSystem {
    var nodes: Nodes
    ghost var faults: nat
    const digest: Bytes -> string

    constructor (nodes: Nodes, digest: Bytes -> string)
      ensures this.nodes == nodes && this.digest == digest && faults == 0
    {
      this.nodes := nodes;
      this.digest := digest;
      faults := 0;
    }

    /** Whether an operation fails for no reason. */
    method Fault() returns (fault: bool)
      modifies `faults
      ensures faults == old(faults) + if fault then 1 else 0
    {
      fault := *;
      faults := faults + if fault then 1 else 0;
    }

    /** `os.replace`. */
    method Replace(source: Path, destination: Path) returns (ok: bool)
      modifies this
      ensures !ok ==> nodes == old(nodes)
      ensures faults >= old(faults)
      ensures !ok && faults == old(faults) ==>
                FileAt(nodes, source).None? || (destination in nodes && nodes[destination].Dir?)
      ensures ok ==> FileAt(old(nodes), source).Some?
      ensures ok ==> nodes == (old(nodes) - {source})[destination := old(nodes)[source]]
    {
      var fault := Fault();
      if fault || FileAt(nodes, source).None? || (destination in nodes && nodes[destination].Dir?) {
        return false;
      }
      nodes := (nodes - {source})[destination := nodes[source]];
      return true;
    }

    /** `path.unlink(missing_ok=missingOk)`. */
    method Unlink(path: Path, missingOk: bool) returns (ok: bool)
      modifies this
      ensures !ok ==> nodes == old(nodes)
      ensures faults >= old(faults)
      ensures !ok && faults == old(faults) ==> if path in nodes then nodes[path].Dir? else !missingOk
      ensures ok ==> nodes == old(nodes) - {path} && (path in old(nodes) ==> old(nodes)[path].File?)
    {
      var fault := Fault();
      if fault || (path in nodes && nodes[path].Dir?) || (path !in nodes && !missingOk) {
        return false;
      }
      nodes := nodes - {path};
      return true;
    }

    /** `tempfile.mkstemp`: an empty file under a name nothing had. */
    method MakeTemp() returns (path: Option<Path>)
      modifies this
      ensures faults >= old(faults) && (path.None? ==> nodes == old(nodes) && faults > old(faults))
      ensures path.Some? ==>
                && path.value.Scratch? && path.value !in old(nodes)
                && nodes == old(nodes)[path.value := File([], 0x180)]
    {
      var fault := Fault();
      if fault {
        return None;
      }
      FreshScratch(nodes);
      var id: nat :| Scratch(id) !in nodes;
      nodes := nodes[Scratch(id) := File([], 0x180)];
      return Some(Scratch(id));
    }

    /** Write, flush, sync and `chmod` of a temporary file. */
    method Write(path: Path, data: Bytes, mode: nat) returns (ok: bool)
      modifies this
      ensures FileAt(nodes, path).Some? && nodes == old(nodes)[path := nodes[path]]
      ensures ok ==> nodes == old(nodes)[path := File(data, mode)]
      ensures faults >= old(faults) && (!ok ==> faults > old(faults))
    {
      var fault := Fault();
      if fault {
        var written :| 0 <= written <= |data|;
        var partial := File(data[..written], 0x180);
        nodes := nodes[path := partial];
        return false;
      }
      nodes := nodes[path := File(data, mode)];
      return true;
    }

    method MakeDirectory(path: Path) returns (ok: bool)
      modifies this
      ensures !ok ==> nodes == old(nodes)
      ensures faults >= old(faults) && (!ok && faults == old(faults) ==> FileAt(nodes, path).Some?)
      ensures ok ==> nodes == old(nodes)[path := Dir] && (path in old(nodes) ==> old(nodes)[path].Dir?)
    {
      var fault := Fault();
      if fault || FileAt(nodes, path).Some? {
        return false;
      }
      nodes := nodes[path := Dir];
      return true;
    }

    /** `rmdir`, whose failure the committer ignores. */
    method RemoveDirectory(path: Path)
      modifies this
      ensures faults >= old(faults)
      ensures nodes == old(nodes) || (path in old(nodes) && old(nodes)[path].Dir? && nodes == old(nodes) - {path})
    {
      var fault := Fault();
      if !fault && path in nodes && nodes[path].Dir? {
        nodes := nodes - {path};
      }
    }
  }
}
