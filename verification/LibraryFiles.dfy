/** The files of a process's libraries, and which leads to which. */
module LibraryFiles {
  import opened Graphs

  /**
   What the search for a library's file finds, as a canonical path, and which names every ELF file
   asks for. Files that are no ELF files are not in `needed`.
   */
  datatype Disk = Disk(find: map<string, string>, needed: map<string, seq<string>>)

  /** No path is empty, so the empty string stands for a file that is not found. */
  type Files = d: Disk | "" !in d.needed witness Disk(map[], map[])

  function Target(disk: Files, libraryName: string): string {
    if libraryName in disk.find then disk.find[libraryName] else ""
  }

  function Targets(disk: Files, names: seq<string>): seq<string> {
    seq(|names|, i requires 0 <= i < |names| => Target(disk, names[i]))
  }

  function LibraryGraph(disk: Files): Graph {
    map f | f in disk.needed :: Targets(disk, disk.needed[f])
  }

  /** Everything a file leads to is there. */
  ghost predicate AllThere(disk: Files, f: string) {
    forall d | Reaches(LibraryGraph(disk), f, d) :: d in disk.needed
  }

  lemma EdgeIsTarget(disk: Files, f: string, d: string) returns (k: nat)
    requires d in Succ(LibraryGraph(disk), f)
    ensures f in disk.needed && k < |disk.needed[f]| && d == Target(disk, disk.needed[f][k])
  {
    k :| 0 <= k < |disk.needed[f]| && Targets(disk, disk.needed[f])[k] == d;
  }

  lemma TargetIsEdge(disk: Files, f: string, k: nat)
    requires f in disk.needed && k < |disk.needed[f]|
    ensures Target(disk, disk.needed[f][k]) in Succ(LibraryGraph(disk), f)
  {
    assert Targets(disk, disk.needed[f])[k] in Targets(disk, disk.needed[f]);
  }

  /** A file leads to an ELF file exactly if the search finds that for a name it asks for. */
  lemma LeadsToIff(disk: Files, f: string, d: string)
    requires d in disk.needed
    ensures d in Succ(LibraryGraph(disk), f)
      <==> f in disk.needed && exists name :: name in disk.needed[f] && name in disk.find && disk.find[name] == d
  {
    if d in Succ(LibraryGraph(disk), f) {
      var k := EdgeIsTarget(disk, f, d);
    }
    if f in disk.needed && exists name :: name in disk.needed[f] && name in disk.find && disk.find[name] == d {
      var k :| 0 <= k < |disk.needed[f]| && disk.needed[f][k] in disk.find && disk.find[disk.needed[f][k]] == d;
      TargetIsEdge(disk, f, k);
    }
  }

  lemma MissingBelow(disk: Files, n: string, d: string)
    requires d in Succ(LibraryGraph(disk), n) && (d !in disk.needed || !AllThere(disk, d))
    ensures !AllThere(disk, n)
  {
    var g := LibraryGraph(disk);
    ReachesSelf(g, d);
    var m :| Reaches(g, d, m) && m !in disk.needed;
    ReachesBefore(g, n, d, m);
  }
}
