/**
 * File discovery: the `.dart` files of a directory walk, in walk order,
 * except the two theme files that are never rewritten. The walk itself is
 * given as the sequence of entries it produced.
 */
module Discovery {
  import opened Text
  import opened Registry
  import opened Paths

  /** One entry of a directory walk: a directory, its sub-directories and its files. */
  datatype WalkEntry = WalkEntry(dirpath: Path, dirnames: seq<string>, filenames: seq<string>)

  /** A file name that is collected: it ends with `.dart` and is not a skipped file. */
  predicate IsCandidate(name: string) {
    EndsWith(name, ".dart") && name !in SkipFiles
  }

  /** The collected files of one directory, in listing order. */
  function Candidates(dirpath: Path, names: seq<string>): seq<Path>
    decreases |names|
  {
    if names == [] then []
    else
      var init := Candidates(dirpath, names[..|names| - 1]);
      var name := names[|names| - 1];
      if IsCandidate(name) then init + [dirpath + [name]] else init
  }

  /** The collected files of a whole walk, directory after directory. */
  function DartFiles(walk: seq<WalkEntry>): seq<Path>
    decreases |walk|
  {
    if walk == [] then []
    else
      var last := walk[|walk| - 1];
      DartFiles(walk[..|walk| - 1]) + Candidates(last.dirpath, last.filenames)
  }

  /** `find_dart_files`, with its loop over the walk and its loop over each directory's files. */
  method FindDartFiles(walk: seq<WalkEntry>) returns (dartFiles: seq<Path>)
    ensures dartFiles == DartFiles(walk)
  {
    dartFiles := [];
    for e := 0 to |walk|
      invariant dartFiles == DartFiles(walk[..e])
    {
      var entry := walk[e];
      for f := 0 to |entry.filenames|
        invariant dartFiles == DartFiles(walk[..e]) + Candidates(entry.dirpath, entry.filenames[..f])
      {
        assert entry.filenames[..f + 1][..f] == entry.filenames[..f];
        var fname := entry.filenames[f];
        if IsCandidate(fname) {
          dartFiles := dartFiles + [entry.dirpath + [fname]];
        }
      }
      assert entry.filenames[..|entry.filenames|] == entry.filenames;
      assert walk[..e + 1][..e] == walk[..e];
    }
    assert walk[..|walk|] == walk;
  }

  /** A directory contributes exactly its candidate files. */
  lemma {:induction false} CandidatesMembers(dirpath: Path, names: seq<string>, p: Path)
    ensures p in Candidates(dirpath, names) <==>
      exists j :: 0 <= j < |names| && IsCandidate(names[j]) && p == dirpath + [names[j]]
    decreases |names|
  {
    if names != [] {
      var init := names[..|names| - 1];
      CandidatesMembers(dirpath, init, p);
      if exists j :: 0 <= j < |init| && IsCandidate(init[j]) && p == dirpath + [init[j]] {
        var j :| 0 <= j < |init| && IsCandidate(init[j]) && p == dirpath + [init[j]];
        assert names[j] == init[j];
      }
      if exists j :: 0 <= j < |names| && IsCandidate(names[j]) && p == dirpath + [names[j]] {
        var j :| 0 <= j < |names| && IsCandidate(names[j]) && p == dirpath + [names[j]];
        if j < |init| {
          assert init[j] == names[j];
        }
      }
    }
  }

  /**
   * The walk's collected files are exactly the paths of its candidate files:
   * a directory of the walk followed by one of that directory's file names
   * that ends with `.dart` and is not skipped.
   */
  lemma {:induction false} DartFilesMembers(walk: seq<WalkEntry>, p: Path)
    ensures p in DartFiles(walk) <==>
      exists e, j :: 0 <= e < |walk| && 0 <= j < |walk[e].filenames| &&
        IsCandidate(walk[e].filenames[j]) && p == walk[e].dirpath + [walk[e].filenames[j]]
    decreases |walk|
  {
    if walk != [] {
      var init := walk[..|walk| - 1];
      var last := walk[|walk| - 1];
      DartFilesMembers(init, p);
      CandidatesMembers(last.dirpath, last.filenames, p);
      if exists e, j :: 0 <= e < |init| && 0 <= j < |init[e].filenames| &&
          IsCandidate(init[e].filenames[j]) && p == init[e].dirpath + [init[e].filenames[j]] {
        var e, j :| 0 <= e < |init| && 0 <= j < |init[e].filenames| &&
          IsCandidate(init[e].filenames[j]) && p == init[e].dirpath + [init[e].filenames[j]];
        assert walk[e] == init[e];
      }
      if exists e, j :: 0 <= e < |walk| && 0 <= j < |walk[e].filenames| &&
          IsCandidate(walk[e].filenames[j]) && p == walk[e].dirpath + [walk[e].filenames[j]] {
        var e, j :| 0 <= e < |walk| && 0 <= j < |walk[e].filenames| &&
          IsCandidate(walk[e].filenames[j]) && p == walk[e].dirpath + [walk[e].filenames[j]];
        if e < |init| {
          assert init[e] == walk[e];
        }
      }
    }
  }

  /** Every collected path ends with a `.dart` file name that is not one of the skipped files. */
  lemma DartFilesNames(walk: seq<WalkEntry>, p: Path)
    requires p in DartFiles(walk)
    ensures p != [] && EndsWith(p[|p| - 1], ".dart") && p[|p| - 1] !in SkipFiles
  {
    DartFilesMembers(walk, p);
  }
}
