/**
 * The scanner's deterministic file order and relative paths: at the first
 * component where two paths differ, a directory sorts before a file, and
 * otherwise names compare lexicographically.
 */
module Scanner {
  import opened Wrappers
  import opened Paths

  datatype Ordering = Less | Equal | Greater

  function Reverse(o: Ordering): Ordering
  {
    match o
    case Less => Greater
    case Equal => Equal
    case Greater => Less
  }

  /** `usize::cmp`. */
  function CompareNat(m: nat, n: nat): (o: Ordering)
    ensures o == Less <==> m < n
    ensures o == Equal <==> m == n
  {
    if m < n then Less else if m == n then Equal else Greater
  }

  /** Lexicographic order of component names (code-point order equals UTF-8 byte order). */
  function CompareStr(a: string, b: string): Ordering
  {
    if |a| == 0 && |b| == 0 then Equal
    else if |a| == 0 then Less
    else if |b| == 0 then Greater
    else if a[0] < b[0] then Less
    else if a[0] > b[0] then Greater
    else CompareStr(a[1..], b[1..])
  }

  lemma {:induction false} CompareStrReverse(a: string, b: string)
    ensures CompareStr(b, a) == Reverse(CompareStr(a, b))
  {
    if |a| > 0 && |b| > 0 && a[0] == b[0] {
      CompareStrReverse(a[1..], b[1..]);
    }
  }

  lemma {:induction false} CompareStrEqual(a: string, b: string)
    ensures CompareStr(a, b) == Equal <==> a == b
  {
    if |a| > 0 && |b| > 0 {
      CompareStrEqual(a[1..], b[1..]);
      if a[0] == b[0] {
        assert a == [a[0]] + a[1..] && b == [b[0]] + b[1..];
      }
    }
  }

  lemma {:induction false} CompareStrTransitive(a: string, b: string, c: string)
    requires CompareStr(a, b) == Less && CompareStr(b, c) == Less
    ensures CompareStr(a, c) == Less
  {
    if |a| > 0 && |b| > 0 && |c| > 0 && a[0] == b[0] == c[0] {
      CompareStrTransitive(a[1..], b[1..], c[1..]);
    }
  }

  /**
   * The loop of `compare_paths` from component index `i` on, for component
   * lists whose first `i` components agree.
   */
  function CompareFrom(a: Path, b: Path, i: nat): Ordering
    decreases |a| - i
  {
    if i >= |a| || i >= |b| then CompareNat(|a|, |b|)
    else if a[i] != b[i] then
      var aHasMore := i + 1 < |a|;
      var bHasMore := i + 1 < |b|;
      if aHasMore && !bHasMore then Less
      else if !aHasMore && bHasMore then Greater
      else CompareStr(a[i], b[i])
    else CompareFrom(a, b, i + 1)
  }

  /** `compare_paths` on component lists that are already relative. */
  function CompareComponents(a: Path, b: Path): Ordering
  {
    CompareFrom(a, b, 0)
  }

  /** The path relative to `base` when it lies under it, the whole path otherwise. */
  function Relative(p: Path, base: Path): Path
  {
    match StripPrefix(p, base)
    case Some(r) => r
    case None => p
  }

  /** `compare_paths(a, b, base)`. */
  function ComparePaths(a: Path, b: Path, base: Path): Ordering
  {
    CompareComponents(Relative(a, base), Relative(b, base))
  }

  predicate ProperPrefix(a: Path, b: Path)
  {
    |a| < |b| && b[..|a|] == a
  }

  /**
   * What `compare_paths` decides, stated through the first component where
   * the two lists differ: a directory (a component with more after it)
   * before a file, else by name; without such a component the shorter first.
   */
  lemma {:induction false} FirstDifferenceDecides(a: Path, b: Path, i: nat)
    requires i <= |a| && i <= |b| && a[..i] == b[..i]
    requires i < |a| && i < |b| ==> a[i] != b[i]
    ensures CompareComponents(a, b) ==
      if i == |a| || i == |b| then CompareNat(|a|, |b|)
      else if i + 1 < |a| && i + 1 == |b| then Less
      else if i + 1 == |a| && i + 1 < |b| then Greater
      else CompareStr(a[i], b[i])
  {
    CompareFromSkipsEqual(a, b, 0, i);
  }

  lemma {:induction false} CompareFromSkipsEqual(a: Path, b: Path, j: nat, i: nat)
    requires j <= i <= |a| && i <= |b| && a[..i] == b[..i]
    ensures CompareFrom(a, b, j) == CompareFrom(a, b, i)
    decreases i - j
  {
    if j < i {
      assert a[j] == a[..i][j] == b[..i][j] == b[j];
      CompareFromSkipsEqual(a, b, j + 1, i);
    }
  }

  /** A proper prefix sorts first; identical lists compare Equal. */
  lemma PrefixSortsFirst(a: Path, b: Path)
    ensures ProperPrefix(a, b) ==> CompareComponents(a, b) == Less
    ensures CompareComponents(a, a) == Equal
  {
    if ProperPrefix(a, b) {
      FirstDifferenceDecides(a, b, |a|);
    }
    FirstDifferenceDecides(a, a, |a|);
  }

  lemma {:induction false} CompareFromReverse(a: Path, b: Path, i: nat)
    ensures CompareFrom(b, a, i) == Reverse(CompareFrom(a, b, i))
    decreases |a| - i
  {
    if i < |a| && i < |b| {
      if a[i] != b[i] {
        CompareStrReverse(a[i], b[i]);
      } else {
        CompareFromReverse(a, b, i + 1);
      }
    }
  }

  /** `compare_paths(a, b)` is the reverse of `compare_paths(b, a)`. */
  lemma ComparePathsReverse(a: Path, b: Path, base: Path)
    ensures ComparePaths(b, a, base) == Reverse(ComparePaths(a, b, base))
  {
    CompareFromReverse(Relative(a, base), Relative(b, base), 0);
  }

  lemma {:induction false} CompareFromEqual(a: Path, b: Path, i: nat)
    requires i <= |a| && i <= |b| && a[..i] == b[..i]
    ensures CompareFrom(a, b, i) == Equal <==> a == b
    decreases |a| - i
  {
    if i < |a| && i < |b| {
      if a[i] != b[i] {
        CompareStrEqual(a[i], b[i]);
      } else {
        assert a[..i + 1] == a[..i] + [a[i]];
        assert b[..i + 1] == b[..i] + [b[i]];
        CompareFromEqual(a, b, i + 1);
      }
    } else if |a| == |b| {
      assert a == a[..i] && b == b[..i];
    }
  }

  /** Only identical component lists compare Equal. */
  lemma CompareEqualIff(a: Path, b: Path)
    ensures CompareComponents(a, b) == Equal <==> a == b
  {
    CompareFromEqual(a, b, 0);
  }

  /** A component tagged with whether it is the last one (a file) or not (a directory). */
  function Tagged(p: Path, i: nat): (bool, string)
    requires i < |p|
  {
    (i + 1 == |p|, p[i])
  }

  /** Directories (untagged) before files; same tag: by name. */
  function CompareTagged(x: (bool, string), y: (bool, string)): Ordering
  {
    if x.0 == y.0 then CompareStr(x.1, y.1)
    else if !x.0 then Less
    else Greater
  }

  lemma CompareTaggedTransitive(x: (bool, string), y: (bool, string), z: (bool, string))
    requires CompareTagged(x, y) == Less && CompareTagged(y, z) == Less
    ensures CompareTagged(x, z) == Less
  {
    if x.0 == y.0 == z.0 {
      CompareStrTransitive(x.1, y.1, z.1);
    }
  }

  /**
   * When neither list is a proper prefix of the other, a step of the loop is
   * a step of the lexicographic order on tagged components.
   */
  lemma CompareFromTaggedStep(a: Path, b: Path, i: nat)
    requires i < |a| && i < |b| && a[..i] == b[..i]
    requires !ProperPrefix(a, b) && !ProperPrefix(b, a)
    ensures a[i] == b[i] <==> Tagged(a, i) == Tagged(b, i)
    ensures a[i] != b[i] ==> CompareFrom(a, b, i) == CompareTagged(Tagged(a, i), Tagged(b, i))
  {
  }

  lemma {:induction false} CompareFromTransitive(a: Path, b: Path, c: Path, i: nat)
    requires i <= |a| && i <= |b| && i <= |c|
    requires a[..i] == b[..i] == c[..i]
    requires !ProperPrefix(a, b) && !ProperPrefix(b, a)
    requires !ProperPrefix(b, c) && !ProperPrefix(c, b)
    requires !ProperPrefix(a, c) && !ProperPrefix(c, a)
    requires CompareFrom(a, b, i) == Less && CompareFrom(b, c, i) == Less
    ensures CompareFrom(a, c, i) == Less
    decreases |a| - i
  {
    if i == |a| || i == |b| || i == |c| {
      // Some list ends here, so the shorter-first rule decides every pair.
      return;
    }
    CompareFromTaggedStep(a, b, i);
    CompareFromTaggedStep(b, c, i);
    CompareFromTaggedStep(a, c, i);
    if a[i] == b[i] && b[i] == c[i] {
      assert a[..i + 1] == a[..i] + [a[i]];
      assert b[..i + 1] == b[..i] + [b[i]];
      assert c[..i + 1] == c[..i] + [c[i]];
      CompareFromTransitive(a, b, c, i + 1);
    } else if a[i] != b[i] && b[i] != c[i] {
      CompareTaggedTransitive(Tagged(a, i), Tagged(b, i), Tagged(c, i));
      if a[i] == c[i] {
        CompareStrReverse(Tagged(a, i).1, Tagged(b, i).1);
      }
    }
  }

  /**
   * `compare_paths` is transitive on lists none of which is a proper prefix
   * of another: the case the comment on the length fallback assumes.
   */
  lemma CompareTransitive(a: Path, b: Path, c: Path)
    requires !ProperPrefix(a, b) && !ProperPrefix(b, a)
    requires !ProperPrefix(b, c) && !ProperPrefix(c, b)
    requires !ProperPrefix(a, c) && !ProperPrefix(c, a)
    requires CompareComponents(a, b) == Less && CompareComponents(b, c) == Less
    ensures CompareComponents(a, c) == Less
  {
    CompareFromTransitive(a, b, c, 0);
  }

  /** Without the prefix-free assumption the order is not transitive. */
  lemma PrefixBreaksTransitivity()
    ensures CompareComponents(["x"], ["x", "y"]) == Less
    ensures CompareComponents(["x", "y"], ["w"]) == Less
    ensures CompareComponents(["x"], ["w"]) == Greater
  {
    assert CompareStr("x", "w") == Greater;
  }

  /** "Not after" is transitive on paths whose relative forms are prefix-free. */
  lemma NotGreaterTransitive(a: Path, b: Path, c: Path, base: Path)
    requires PrefixFreeTriple(Relative(a, base), Relative(b, base), Relative(c, base))
    requires ComparePaths(a, b, base) != Greater && ComparePaths(b, c, base) != Greater
    ensures ComparePaths(a, c, base) != Greater
  {
    var ra, rb, rc := Relative(a, base), Relative(b, base), Relative(c, base);
    CompareEqualIff(ra, rb);
    CompareEqualIff(rb, rc);
    if ComparePaths(a, b, base) == Less && ComparePaths(b, c, base) == Less {
      CompareTransitive(ra, rb, rc);
    }
  }

  predicate PrefixFreeTriple(a: Path, b: Path, c: Path)
  {
    && !ProperPrefix(a, b) && !ProperPrefix(b, a)
    && !ProperPrefix(b, c) && !ProperPrefix(c, b)
    && !ProperPrefix(a, c) && !ProperPrefix(c, a)
  }

  /** No path of `files`, taken relative to `base`, is a proper prefix of another. */
  predicate PrefixFree(files: seq<Path>, base: Path)
  {
    forall i, j :: 0 <= i < |files| && 0 <= j < |files| ==>
      !ProperPrefix(Relative(files[i], base), Relative(files[j], base))
  }

  /** Every path is ordered no later than every path after it. */
  predicate Sorted(s: seq<Path>, base: Path)
  {
    forall i, j :: 0 <= i < j < |s| ==> ComparePaths(s[i], s[j], base) != Greater
  }

  predicate AdjacentSorted(s: seq<Path>, base: Path)
  {
    forall i :: 0 <= i < |s| - 1 ==> ComparePaths(s[i], s[i + 1], base) != Greater
  }

  /** Inserts `x` in front of the first element it does not follow (so ties keep input order). */
  function Insert(x: Path, s: seq<Path>, base: Path): seq<Path>
  {
    if |s| == 0 || ComparePaths(x, s[0], base) != Greater then [x] + s
    else [s[0]] + Insert(x, s[1..], base)
  }

  /** The stable sort `files.sort_by(compare_paths)`, as insertion sort. */
  function SortPaths(files: seq<Path>, base: Path): seq<Path>
  {
    if |files| == 0 then [] else Insert(files[0], SortPaths(files[1..], base), base)
  }

  lemma {:induction false} InsertPermutes(x: Path, s: seq<Path>, base: Path)
    ensures multiset(Insert(x, s, base)) == multiset(s) + multiset{x}
    ensures |Insert(x, s, base)| == |s| + 1
    ensures Insert(x, s, base)[0] == x || (|s| > 0 && Insert(x, s, base)[0] == s[0])
  {
    if |s| > 0 && ComparePaths(x, s[0], base) == Greater {
      InsertPermutes(x, s[1..], base);
      assert s == [s[0]] + s[1..];
    }
  }

  lemma {:induction false} InsertKeepsAdjacentSorted(x: Path, s: seq<Path>, base: Path)
    requires AdjacentSorted(s, base)
    ensures AdjacentSorted(Insert(x, s, base), base)
  {
    if |s| > 0 && ComparePaths(x, s[0], base) == Greater {
      InsertKeepsAdjacentSorted(x, s[1..], base);
      InsertPermutes(x, s[1..], base);
      ComparePathsReverse(x, s[0], base);
      var r := Insert(x, s, base);
      assert r == [s[0]] + Insert(x, s[1..], base);
    }
  }

  /** The sorted list is a permutation of the input, adjacent elements in order. */
  lemma {:induction false} SortPathsPermutesAndOrders(files: seq<Path>, base: Path)
    ensures multiset(SortPaths(files, base)) == multiset(files)
    ensures AdjacentSorted(SortPaths(files, base), base)
  {
    if |files| > 0 {
      SortPathsPermutesAndOrders(files[1..], base);
      InsertPermutes(files[0], SortPaths(files[1..], base), base);
      InsertKeepsAdjacentSorted(files[0], SortPaths(files[1..], base), base);
      assert files == [files[0]] + files[1..];
    }
  }

  lemma {:induction false} AdjacentSortedIsSorted(s: seq<Path>, base: Path)
    requires AdjacentSorted(s, base) && PrefixFree(s, base)
    ensures Sorted(s, base)
  {
    forall i, j | 0 <= i < j < |s|
      ensures ComparePaths(s[i], s[j], base) != Greater
    {
      SortedUpTo(s, base, i, j);
    }
  }

  lemma {:induction false} SortedUpTo(s: seq<Path>, base: Path, i: nat, j: nat)
    requires AdjacentSorted(s, base) && PrefixFree(s, base)
    requires i < j < |s|
    ensures ComparePaths(s[i], s[j], base) != Greater
    decreases j - i
  {
    if i + 1 < j {
      SortedUpTo(s, base, i, j - 1);
      NotGreaterTransitive(s[i], s[j - 1], s[j], base);
    }
  }

  /**
   * The scanner's order: for prefix-free file lists, the result is a
   * permutation of the input and sorted by `compare_paths`.
   */
  lemma SortPathsCorrect(files: seq<Path>, base: Path)
    requires PrefixFree(files, base)
    ensures multiset(SortPaths(files, base)) == multiset(files)
    ensures Sorted(SortPaths(files, base), base)
  {
    var r := SortPaths(files, base);
    SortPathsPermutesAndOrders(files, base);
    forall i, j | 0 <= i < |r| && 0 <= j < |r|
      ensures !ProperPrefix(Relative(r[i], base), Relative(r[j], base))
    {
      assert r[i] in multiset(files) && r[j] in multiset(files);
      var i', j' :| 0 <= i' < |files| && files[i'] == r[i] && 0 <= j' < |files| && files[j'] == r[j];
    }
    AdjacentSortedIsSorted(r, base);
  }

  /** Directories first, then files by name: `[sub/m.rs, a.rs, z.rs]`. */
  lemma SortedExample()
    ensures SortPaths([["t", "z.rs"], ["t", "a.rs"], ["t", "sub", "m.rs"]], ["t"])
         == [["t", "sub", "m.rs"], ["t", "a.rs"], ["t", "z.rs"]]
  {
    assert Relative(["t", "z.rs"], ["t"]) == ["z.rs"];
    assert Relative(["t", "a.rs"], ["t"]) == ["a.rs"];
    assert Relative(["t", "sub", "m.rs"], ["t"]) == ["sub", "m.rs"];
    assert CompareStr("a.rs", "z.rs") == Less;
  }

  /** One entry of the directory walk: a path and whether it is a regular file. */
  datatype Entry = Entry(path: Path, isFile: bool)

  /** The paths of the walk's entries that are files, in walk order. */
  function FilesOf(entries: seq<Entry>): seq<Path>
  {
    if |entries| == 0 then []
    else
      var last := entries[|entries| - 1];
      FilesOf(entries[..|entries| - 1]) + (if last.isFile then [last.path] else [])
  }

  /**
   * `scan`: a single-file input is returned as is; for a directory, the files
   * of the walk are collected and sorted by `compare_paths` relative to it.
   */
  method Scan(input: Path, inputIsFile: bool, walked: seq<Entry>) returns (files: seq<Path>)
    ensures inputIsFile ==> files == [input]
    ensures !inputIsFile ==> files == SortPaths(FilesOf(walked), input)
    ensures !inputIsFile ==> multiset(files) == multiset(FilesOf(walked))
    ensures !inputIsFile && PrefixFree(FilesOf(walked), input) ==> Sorted(files, input)
  {
    if inputIsFile {
      return [input];
    }
    files := [];
    for i := 0 to |walked|
      invariant files == FilesOf(walked[..i])
    {
      assert walked[..i + 1][..i] == walked[..i];
      if walked[i].isFile {
        files := files + [walked[i].path];
      }
    }
    assert walked[..|walked|] == walked;
    SortPathsPermutesAndOrders(files, input);
    if PrefixFree(files, input) {
      SortPathsCorrect(files, input);
    }
    files := SortPaths(files, input);
  }

  /**
   * `relative_path`: for a single-file input, the file name; for a directory
   * input, the path with the input stripped, or the whole path when the input
   * is not a prefix of it.
   */
  function RelativePath(input: Path, inputIsFile: bool, file: Path): (r: Path)
    ensures inputIsFile && |file| > 0 ==> r == [file[|file| - 1]]
    ensures inputIsFile && |file| == 0 ==> r == file
    ensures !inputIsFile && StartsWith(file, input) ==> input + r == file
    ensures !inputIsFile && !StartsWith(file, input) ==> r == file
  {
    if inputIsFile then
      match FileName(file)
      case Some(name) => [name]
      case None => file
    else Relative(file, input)
  }

  /** The two cases of the tests: a file against itself, and `src/lib.rs` under a directory. */
  lemma RelativePathExamples()
    ensures RelativePath(["tmp", "main.rs"], true, ["tmp", "main.rs"]) == ["main.rs"]
    ensures RelativePath(["tmp"], false, ["tmp", "src", "lib.rs"]) == ["src", "lib.rs"]
  {
    assert ["tmp", "src", "lib.rs"][..1] == ["tmp"];
  }
}
