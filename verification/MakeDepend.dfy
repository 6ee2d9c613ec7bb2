/** makedep.cpp: the include graph, and the dependencies printed for a source file. */
module MakeDepend {
  import opened Basics

  type Path = string

  datatype Out = Target(path: Path) | Depend(path: Path)

  // ---------- reachability through files that may be printed ----------

  type Graph = map<Path, seq<Path>>

  /** Files with a path and not in noDependMap. */
  predicate Printable(p: Path, noDepend: set<Path>) {
    p != [] && p !in noDepend
  }

  ghost predicate Link(g: Graph, noDepend: set<Path>, p: Path, q: Path) {
    p in g && q in g[p] && q != [] && q !in noDepend
  }

  /** Each file of way includes the next, and all but the first may be printed. */
  ghost predicate Way(g: Graph, noDepend: set<Path>, way: seq<Path>) {
    way != [] && way[0] in g && forall i :: 0 <= i < |way| - 1 ==> Link(g, noDepend, way[i], way[i + 1])
  }

  ghost predicate Reaches(g: Graph, noDepend: set<Path>, p: Path, q: Path) {
    exists way :: Way(g, noDepend, way) && way[0] == p && way[|way| - 1] == q
  }

  lemma ReachesSelf(g: Graph, noDepend: set<Path>, p: Path)
    requires p in g
    ensures Reaches(g, noDepend, p, p)
  {
    assert Way(g, noDepend, [p]);
  }

  lemma ReachesOn(g: Graph, noDepend: set<Path>, p: Path, q: Path, r: Path)
    requires Link(g, noDepend, p, q) && Reaches(g, noDepend, q, r)
    ensures Reaches(g, noDepend, p, r)
  {
    var way :| Way(g, noDepend, way) && way[0] == q && way[|way| - 1] == r;
    var longer := [p] + way;
    forall i | 0 <= i < |longer| - 1 ensures Link(g, noDepend, longer[i], longer[i + 1]) {
      if i > 0 { assert longer[i] == way[i - 1] && longer[i + 1] == way[i]; }
    }
    assert Way(g, noDepend, longer);
  }

  /** What the files of a set include and may be printed is in the set again. */
  ghost predicate Saturated(g: Graph, noDepend: set<Path>, s: set<Path>) {
    forall p, q :: p in s && Link(g, noDepend, p, q) ==> q in s
  }

  lemma {:induction false} SaturatedReaches(g: Graph, noDepend: set<Path>, s: set<Path>, way: seq<Path>, n: nat)
    requires Way(g, noDepend, way) && Saturated(g, noDepend, s) && way[0] in s && n < |way|
    ensures way[n] in s
  {
    if n > 0 {
      SaturatedReaches(g, noDepend, s, way, n - 1);
      assert Link(g, noDepend, way[n - 1], way[n - 1 + 1]);
    }
  }

  function Depends(ps: seq<Path>): (r: seq<Out>)
    ensures |r| == |ps| && forall i :: 0 <= i < |ps| ==> r[i] == Depend(ps[i])
  {
    seq(|ps|, i requires 0 <= i < |ps| => Depend(ps[i]))
  }

  lemma DependsNothing()
    ensures Depends([]) == []
  {
  }

  lemma DependsJoin(ps: seq<Path>, q: Path, rs: seq<Path>)
    ensures Depends(ps + [q] + rs) == Depends(ps) + [Depend(q)] + Depends(rs)
  {
  }

  /** A walk from p, with before visited already: prints each newly visited file once, visits no file it may not,
      and leaves nothing that those files include unvisited. */
  ghost predicate Walked(g: Graph, noDepend: set<Path>, p: Path, n: nat, before: set<Path>, after: set<Path>, printed: seq<Path>) {
    && Distinct(printed)
    && (forall q :: q in after <==> q in before || q in printed)
    && (forall q :: q in printed ==> q !in before && q in g && Printable(q, noDepend) && Reaches(g, noDepend, p, q))
    && (forall q, r :: q in printed && Link(g, noDepend, q, r) ==> r in after)
    && (p in g && n <= |g[p]| && forall i :: 0 <= i < n && Printable(g[p][i], noDepend) ==> g[p][i] in after)
  }

  lemma WalkStarts(g: Graph, noDepend: set<Path>, p: Path, before: set<Path>)
    requires p in g
    ensures Walked(g, noDepend, p, 0, before, before, [])
  {
  }

  lemma WalkGrows(g: Graph, noDepend: set<Path>, p: Path, n: nat, before: set<Path>, after: set<Path>, printed: seq<Path>)
    requires Walked(g, noDepend, p, n, before, after, printed)
    ensures before <= after
  {
  }

  lemma WalkDistinct(g: Graph, noDepend: set<Path>, p: Path, n: nat, before: set<Path>, after: set<Path>, printed: seq<Path>)
    requires Walked(g, noDepend, p, n, before, after, printed)
    ensures Distinct(printed)
  {
  }

  /** The next include has been visited or may not be printed. */
  lemma WalkSkips(g: Graph, noDepend: set<Path>, p: Path, n: nat, before: set<Path>, after: set<Path>, printed: seq<Path>)
    requires p in g && n < |g[p]| && Walked(g, noDepend, p, n, before, after, printed)
    requires g[p][n] in after || !Printable(g[p][n], noDepend)
    ensures Walked(g, noDepend, p, n + 1, before, after, printed)
  {
  }

  /** The next include is printed, and walked in turn. */
  lemma WalkEnters(g: Graph, noDepend: set<Path>, p: Path, n: nat, before: set<Path>, mid: set<Path>, printed: seq<Path>,
                   after: set<Path>, more: seq<Path>)
    requires p in g && n < |g[p]| && Walked(g, noDepend, p, n, before, mid, printed)
    requires var q := g[p][n]; q in g && q !in mid && Printable(q, noDepend) &&
                               Walked(g, noDepend, q, |g[q]|, mid + {q}, after, more)
    ensures Walked(g, noDepend, p, n + 1, before, after, printed + [g[p][n]] + more)
  {
    var q := g[p][n];
    var all := printed + [q] + more;
    assert Link(g, noDepend, p, q);
    forall r | r in all ensures r !in before && r in g && Printable(r, noDepend) && Reaches(g, noDepend, p, r) {
      assert r in printed || r == q || r in more;
      if r !in printed {
        if r == q { ReachesSelf(g, noDepend, q); }
        ReachesOn(g, noDepend, p, q, r);
      }
    }
    forall r, t | r in all && Link(g, noDepend, r, t) ensures t in after {
      if r == q {
        var i :| 0 <= i < |g[q]| && g[q][i] == t;
      }
    }
    EnterDistinct(mid, printed, q, more);
  }

  lemma EnterDistinct(mid: set<Path>, printed: seq<Path>, q: Path, more: seq<Path>)
    requires Distinct(printed) && Distinct(more) && q !in mid
    requires forall r :: r in printed ==> r in mid
    requires forall r :: r in more ==> r !in mid + {q}
    ensures Distinct(printed + [q] + more)
  {
    var all := printed + [q] + more;
    var n := |printed|;
    forall i, j | 0 <= i < j < |all| ensures all[i] != all[j] {
      if i < n { assert all[i] in mid; }
      if j > n { assert all[j] in more; }
      if i > n { assert all[i] == more[i - n - 1] && all[j] == more[j - n - 1]; }
    }
  }

  /** A full walk from p, started with only p visited: what is printed is what p reaches, but for p itself. */
  lemma WalkIsReachable(g: Graph, noDepend: set<Path>, p: Path, after: set<Path>, printed: seq<Path>, q: Path)
    requires p in g && Walked(g, noDepend, p, |g[p]|, {p}, after, printed)
    ensures q in printed <==> q != p && Reaches(g, noDepend, p, q)
  {
    if q != p && Reaches(g, noDepend, p, q) {
      forall a, b | a in after && Link(g, noDepend, a, b) ensures b in after {
        if a == p { var i :| 0 <= i < |g[p]| && g[p][i] == b; }
      }
      var way :| Way(g, noDepend, way) && way[0] == p && way[|way| - 1] == q;
      SaturatedReaches(g, noDepend, after, way, |way| - 1);
    }
  }

  // ---------- the files on disk ----------

  /** The files a file includes, found by name, and whether one of its first lines says not to build dependencies on it;
      the includes are then those in front of that line. */
  datatype File = File(includes: seq<Path>, noDepend: bool)

  /** Every file has a path. */
  type Disk = m: map<Path, File> | [] !in m

  /** Includes that are nowhere to be found are dropped. */
  function Existing(disk: Disk, ps: seq<Path>): (r: seq<Path>)
    ensures forall q :: q in r <==> q in ps && q in disk
  {
    if ps == [] then []
    else
      var before := Existing(disk, ps[..|ps| - 1]);
      var q := ps[|ps| - 1];
      if q in disk then before + [q] else before
  }

  ghost predicate ClosedUnder(disk: Disk, s: set<Path>) {
    forall p, q :: p in s && p in disk && q in disk[p].includes && q in disk ==> q in s
  }

  class FileRecord {
    const pathName: Path
    var includes: seq<FileRecord>
    var visited: bool

    constructor (pathName: Path)
      ensures this.pathName == pathName && includes == [] && !visited
    {
      this.pathName := pathName;
      includes := [];
      visited := false;
    }
  }

  class Makedep {
    var fileMap: map<Path, FileRecord>
    var noDepend: set<Path>
    var output: seq<Out>

    /** fileMap finds every record under its path, which is not empty, and records include only records in it. */
    ghost predicate Valid()
      reads this`fileMap, fileMap.Values`includes
    {
      [] !in fileMap && forall p :: p in fileMap ==> fileMap[p].pathName == p && Listed(fileMap[p])
    }

    ghost predicate Listed(rec: FileRecord)
      reads this`fileMap, rec`includes
    {
      forall i :: 0 <= i < |rec.includes| ==>
        rec.includes[i].pathName in fileMap && fileMap[rec.includes[i].pathName] == rec.includes[i]
    }

    ghost function Names(recs: seq<FileRecord>): (ps: seq<Path>)
      ensures |ps| == |recs| && forall i :: 0 <= i < |recs| ==> ps[i] == recs[i].pathName
    {
      seq(|recs|, i requires 0 <= i < |recs| => recs[i].pathName)
    }

    ghost function Includes(): Graph
      reads this`fileMap, fileMap.Values`includes
    {
      map p | p in fileMap :: Names(fileMap[p].includes)
    }

    ghost function Visited(): set<Path>
      reads this`fileMap, fileMap.Values`visited
    {
      set p | p in fileMap && fileMap[p].visited
    }

    lemma Known(rec: FileRecord, g: Graph)
      requires g == Includes() && rec.pathName in fileMap && fileMap[rec.pathName] == rec
      ensures rec.pathName in g && |g[rec.pathName]| == |rec.includes|
    {
    }

    lemma IncludeKnown(rec: FileRecord, g: Graph, i: nat)
      requires Valid() && g == Includes() && rec.pathName in fileMap && fileMap[rec.pathName] == rec && i < |rec.includes|
      ensures var next := rec.includes[i];
              && rec.pathName in g && i < |g[rec.pathName]| && g[rec.pathName][i] == next.pathName
              && next.pathName in fileMap && fileMap[next.pathName] == next
              && next.pathName in g && |g[next.pathName]| == |next.includes|
              && (next.visited <==> next.pathName in Visited())
    {
      assert Listed(rec);
    }

    /** Print one file and mark it as done. */
    method Mark(rec: FileRecord)
      requires Valid() && rec.pathName in fileMap && fileMap[rec.pathName] == rec
      modifies this`output, rec`visited
      ensures output == old(output) + [Depend(rec.pathName)]
      ensures Valid() && Includes() == old(Includes()) && Visited() == old(Visited()) + {rec.pathName}
    {
      output := output + [Depend(rec.pathName)];
      rec.visited := true;
    }

    method PrintIncludes(rec: FileRecord, ghost g: Graph) returns (ghost printed: seq<Path>)
      requires Valid() && g == Includes() && rec.pathName in fileMap && fileMap[rec.pathName] == rec
      modifies this`output, fileMap.Values`visited
      ensures Valid() && g == Includes()
      ensures output == old(output) + Depends(printed)
      ensures Walked(g, noDepend, rec.pathName, |rec.includes|, old(Visited()), Visited(), printed)
      decreases fileMap.Keys - Visited()
    {
      hide Walked, Depends, Valid, Listed, Includes, Names, Visited;
      Known(rec, g);
      DependsNothing();
      printed := [];
      var i := 0;
      ghost var p, before := rec.pathName, Visited();
      WalkStarts(g, noDepend, p, before);
      while i < |rec.includes|
        invariant i <= |rec.includes| && Valid() && g == Includes()
        invariant output == old(output) + Depends(printed)
        invariant Walked(g, noDepend, p, i, before, Visited(), printed)
      {
        var next := rec.includes[i];
        ghost var mid := Visited();
        IncludeKnown(rec, g, i);
        if !next.visited && next.pathName != [] && next.pathName !in noDepend {
          WalkGrows(g, noDepend, p, i, before, mid, printed);
          assert next.pathName in fileMap.Keys - before;
          Mark(next);
          ghost var more := PrintIncludes(next, g);
          WalkEnters(g, noDepend, p, i, before, mid, printed, Visited(), more);
          DependsJoin(printed, next.pathName, more);
          printed := printed + [next.pathName] + more;
        } else {
          WalkSkips(g, noDepend, p, i, before, mid, printed);
        }
        i := i + 1;
      }
    }

    /** The dependencies of one source: every file it reaches through files that may be printed, each once and never
        itself. The guard looks at the record the loop ended on, which like every record has a path. */
    method PrintDepend(rec: FileRecord) returns (ghost printed: seq<Path>)
      requires Valid() && rec.pathName in fileMap && fileMap[rec.pathName] == rec
      modifies this`output, fileMap.Values`visited
      ensures Valid() && Includes() == old(Includes())
      ensures output == old(output) + [Target(rec.pathName)] + Depends(printed)
      ensures Distinct(printed) && forall q :: q in printed <==> q != rec.pathName && Reaches(Includes(), noDepend, rec.pathName, q)
    {
      hide Walked, Depends, Valid, Listed, Names;
      ghost var g, p := Includes(), rec.pathName;
      printed := [];
      var last := ClearVisited(rec);
      if last.pathName != [] {
        output := output + [Target(rec.pathName)];
        rec.visited := true;
        assert Visited() == {p};
        Known(rec, g);
        printed := PrintIncludes(rec, g);
        WalkDistinct(g, noDepend, p, |g[p]|, {p}, Visited(), printed);
        forall q ensures q in printed <==> q != p && Reaches(g, noDepend, p, q) {
          WalkIsReachable(g, noDepend, p, Visited(), printed, q);
        }
      }
    }

    /** Clear every flag; the record the loop ends on. */
    method ClearVisited(rec: FileRecord) returns (last: FileRecord)
      requires Valid() && rec.pathName in fileMap
      modifies fileMap.Values`visited
      ensures Valid() && Includes() == old(Includes()) && Visited() == {}
      ensures last.pathName in fileMap && last.pathName != []
    {
      last := rec;
      var left := fileMap.Keys;
      while left != {}
        invariant left <= fileMap.Keys && last.pathName in fileMap
        invariant forall p :: p in fileMap && p !in left ==> !fileMap[p].visited
        decreases left
      {
        var p :| p in left;
        last := fileMap[p];
        last.visited := false;
        left := left - {p};
      }
    }

    /** The records there were are still there; the others are new and not read yet. */
    twostate predicate Extended(was: map<Path, FileRecord>)
      reads this`fileMap, fileMap.Values
    {
      && was.Keys <= fileMap.Keys
      && (forall p :: p in was ==> fileMap[p] == was[p])
      && (forall p :: p in fileMap && p !in was ==> fresh(fileMap[p]) && !fileMap[p].visited && fileMap[p].includes == [])
    }

    /** AddFile for a header: the record it has, a new one if the file exists, or none. */
    method AddFile(q: Path, disk: Disk) returns (r: FileRecord?)
      requires Valid() && fileMap.Keys <= disk.Keys
      modifies this`fileMap
      ensures Valid() && (r != null <==> q in disk)
      ensures if q in disk then r != null && q in fileMap && fileMap[q] == r else fileMap == old(fileMap)
      ensures q in old(fileMap) ==> fileMap == old(fileMap)
      ensures q in disk && q !in old(fileMap) ==> fileMap == old(fileMap)[q := fileMap[q]] && fresh(r)
      ensures q in disk && q !in old(fileMap) ==> !r.visited && r.includes == []
    {
      if q in fileMap { return fileMap[q]; }
      if q !in disk { return null; }
      var added := new FileRecord(q);
      fileMap := fileMap[q := added];
      r := added;
    }

    method AddInclude(rec: FileRecord, q: Path, disk: Disk)
      requires Valid() && rec.pathName in fileMap && fileMap[rec.pathName] == rec && fileMap.Keys <= disk.Keys
      modifies this`fileMap, rec`includes
      ensures Valid() && Names(rec.includes) == old(Names(rec.includes)) + if q in disk then [q] else []
      ensures q in old(fileMap) || q !in disk ==> fileMap == old(fileMap)
      ensures q in disk && q !in old(fileMap) ==>
                && q in fileMap && fileMap == old(fileMap)[q := fileMap[q]]
                && fresh(fileMap[q]) && !fileMap[q].visited && fileMap[q].includes == []
    {
      var added := AddFile(q, disk);
      if added != null {
        rec.includes := rec.includes + [added];
        assert Names(rec.includes) == old(Names(rec.includes)) + [q];
      }
    }

    /** Read one file and list the records of its includes, new ones where there are none yet. */
    method ProcessFile(rec: FileRecord, disk: Disk)
      requires Valid() && rec.pathName in fileMap && fileMap[rec.pathName] == rec && rec.includes == []
      requires fileMap.Keys <= disk.Keys
      modifies this`fileMap, this`noDepend, rec`includes
      ensures Valid()
      ensures forall q :: q in fileMap <==> q in old(fileMap) || q in Existing(disk, disk[rec.pathName].includes)
      ensures Names(rec.includes) == Existing(disk, disk[rec.pathName].includes)
      ensures Extended(old(fileMap))
      ensures noDepend == old(noDepend) + if disk[rec.pathName].noDepend then {rec.pathName} else {}
    {
      hide Existing, Names, Valid, Listed;
      var file := disk[rec.pathName];
      var i := 0;
      NothingRead(disk, rec);
      assert file.includes[..0] == [];
      while i < |file.includes|
        invariant i <= |file.includes| && Valid() && rec.pathName in fileMap && fileMap[rec.pathName] == rec
        invariant Names(rec.includes) == Existing(disk, file.includes[..i])
        invariant forall q :: q in fileMap <==> q in old(fileMap) || q in Existing(disk, file.includes[..i])
        invariant fileMap.Keys <= disk.Keys
        invariant Extended(old(fileMap))
        invariant noDepend == old(noDepend)
      {
        ExistingSnoc(disk, file.includes, i);
        AddInclude(rec, file.includes[i], disk);
        i := i + 1;
      }
      assert file.includes[..i] == file.includes;
      if file.noDepend { noDepend := noDepend + {rec.pathName}; }
    }

    lemma NothingRead(disk: Disk, rec: FileRecord)
      requires rec.includes == []
      ensures Existing(disk, []) == [] && Names(rec.includes) == []
    {
    }

    lemma ExistingSnoc(disk: Disk, ps: seq<Path>, i: nat)
      requires i < |ps|
      ensures Existing(disk, ps[..i + 1]) == Existing(disk, ps[..i]) + if ps[i] in disk then [ps[i]] else []
    {
      assert ps[..i + 1][..i] == ps[..i];
    }

    ghost predicate AsRead(rec: FileRecord, includes: seq<Path>, disk: Disk)
      reads rec
    {
      Names(rec.includes) == if rec.visited then Existing(disk, includes) else []
    }

    /** Every record but the unread ones lists what its file includes, and noDepend holds the read files that ask for it. */
    ghost predicate ReadSoFar(disk: Disk)
      requires fileMap.Keys <= disk.Keys
      reads this`fileMap, this`noDepend, fileMap.Values
    {
      && (forall p :: p in fileMap ==> AsRead(fileMap[p], disk[p].includes, disk))
      && (forall p :: p in noDepend <==> p in fileMap && fileMap[p].visited && disk[p].noDepend)
    }

    lemma NewUnread(rec: FileRecord, includes: seq<Path>, disk: Disk)
      requires !rec.visited && rec.includes == []
      ensures AsRead(rec, includes, disk)
    {
    }

    lemma Unread(p: Path, disk: Disk)
      requires Valid() && fileMap.Keys <= disk.Keys && ReadSoFar(disk) && p in fileMap && !fileMap[p].visited
      ensures fileMap[p].includes == [] && forall q :: q in fileMap ==> fileMap[q].pathName == q
    {
      assert AsRead(fileMap[p], disk[p].includes, disk);
    }

    /** Mark the file as done, then read it. */
    method ReadNext(p: Path, disk: Disk)
      requires Valid() && fileMap.Keys <= disk.Keys && ReadSoFar(disk)
      requires p in fileMap && !fileMap[p].visited
      modifies this`fileMap, this`noDepend, fileMap[p]
      ensures Valid() && fileMap.Keys <= disk.Keys && ReadSoFar(disk) && old(fileMap.Keys) <= fileMap.Keys
      ensures forall q :: q in fileMap ==> if q in old(fileMap) then fileMap[q] == old(fileMap)[q] else fresh(fileMap[q])
      ensures forall q :: q in fileMap ==> (fileMap[q].visited <==> q == p || (q in old(fileMap) && old(fileMap[q].visited)))
      ensures forall s :: ClosedUnder(disk, s) && old(fileMap.Keys) <= s ==> fileMap.Keys <= s
    {
      hide Existing, Valid, Listed, Names;
      var rec := fileMap[p];
      Unread(p, disk);
      rec.visited := true;
      ProcessFile(rec, disk);
      forall q | q in fileMap ensures AsRead(fileMap[q], disk[q].includes, disk) {
        if q !in old(fileMap) {
          NewUnread(fileMap[q], disk[q].includes, disk);
        } else if q != p {
          assert old(AsRead(fileMap[q], disk[q].includes, disk));
        }
      }
    }

    /** Read every file, starting over after each one. In the end the records are those of the least set of files that
        holds the sources and, with a file, all it includes; each file was read once, and lists its includes in order. */
    method ProcessFiles(disk: Disk)
      requires Valid() && fileMap.Keys <= disk.Keys && noDepend == {}
      requires forall p :: p in fileMap ==> !fileMap[p].visited && fileMap[p].includes == []
      modifies this`fileMap, this`noDepend, fileMap.Values
      ensures Valid() && fileMap.Keys <= disk.Keys && old(fileMap.Keys) <= fileMap.Keys
      ensures Includes() == map p | p in fileMap :: Existing(disk, disk[p].includes)
      ensures noDepend == set p | p in fileMap && disk[p].noDepend
      ensures ClosedUnder(disk, fileMap.Keys)
      ensures forall s :: ClosedUnder(disk, s) && old(fileMap.Keys) <= s ==> fileMap.Keys <= s
    {
      hide Existing, Names, Valid, Listed, AsRead, ClosedUnder;
      NothingReadYet(disk);
      var found := true;
      while found
        invariant Valid() && fileMap.Keys <= disk.Keys && old(fileMap.Keys) <= fileMap.Keys
        invariant forall p :: p in fileMap ==> fileMap[p] in old(fileMap.Values) || fresh(fileMap[p])
        invariant ReadSoFar(disk)
        invariant forall s :: ClosedUnder(disk, s) && old(fileMap.Keys) <= s ==> fileMap.Keys <= s
        invariant !found ==> forall p :: p in fileMap ==> fileMap[p].visited
        decreases disk.Keys - Visited(), found
      {
        found := exists p :: p in fileMap && !fileMap[p].visited;
        if found {
          var p :| p in fileMap && !fileMap[p].visited;
          ghost var before := Visited();
          ReadNext(p, disk);
          assert Visited() == before + {p} && p in disk.Keys - before;
        }
      }
      AllRead(disk);
    }

    lemma NothingReadYet(disk: Disk)
      requires fileMap.Keys <= disk.Keys && noDepend == {}
      requires forall p :: p in fileMap ==> !fileMap[p].visited && fileMap[p].includes == []
      ensures ReadSoFar(disk)
    {
    }

    lemma AllRead(disk: Disk)
      requires Valid() && fileMap.Keys <= disk.Keys && ReadSoFar(disk)
      requires forall p :: p in fileMap ==> fileMap[p].visited
      ensures Includes() == map p | p in fileMap :: Existing(disk, disk[p].includes)
      ensures noDepend == set p | p in fileMap && disk[p].noDepend
      ensures ClosedUnder(disk, fileMap.Keys)
    {
      hide Existing;
      forall p, q | p in fileMap && q in disk[p].includes && q in disk ensures q in fileMap {
        assert Listed(fileMap[p]) && AsRead(fileMap[p], disk[p].includes, disk);
        assert q in Names(fileMap[p].includes);
      }
      forall p | p in fileMap ensures Includes()[p] == Existing(disk, disk[p].includes) {
        assert AsRead(fileMap[p], disk[p].includes, disk);
      }
    }
  }
}
