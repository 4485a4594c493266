/**
 * Watch mode: an in-memory cache of (mtime, size) per parsed file decides
 * which changed files to parse again.  The file system, the extractor and
 * the output writer are seen through an `Env` value fixed for one call.
 */
module Watch {
  import opened Wrappers
  import opened Paths
  import opened Detector

  /** Modification time (seconds since the epoch) and size of a parsed file. */
  datatype CacheEntry = CacheEntry(mtime: nat, size: nat)

  /**
   * What the file system and the collaborators answer during one call:
   * a path in `meta` exists, with `None` when its metadata cannot be read;
   * `parses` are the files the extractor reads and parses; `writeFails` are
   * the files whose output cannot be written; `scan` is the scanner's answer.
   */
  datatype Env = Env(
    meta: map<Path, Option<CacheEntry>>,
    parses: set<Path>,
    writeFails: set<Path>,
    scan: Result<seq<Path>, string>)

  predicate Exists(env: Env, p: Path)
  {
    p in env.meta
  }

  /** `get_file_meta`: the metadata, when the file exists and it can be read. */
  function FileMeta(env: Env, p: Path): (r: Option<CacheEntry>)
    ensures r.Some? ==> Exists(env, p)
  {
    if p in env.meta then env.meta[p] else None
  }

  type Cache = map<Path, CacheEntry>

  /**
   * A file is parsed again unless it is cached and its current metadata can
   * be read and matches the cached entry.
   */
  function NeedsReparse(cache: Cache, env: Env, p: Path): (r: bool)
    ensures r <==> p !in cache || FileMeta(env, p).None? || cache[p] != FileMeta(env, p).value
  {
    if p in cache && FileMeta(env, p).Some? then
      var m := FileMeta(env, p).value;
      cache[p].mtime != m.mtime || cache[p].size != m.size
    else true
  }

  /**
   * `parse_and_write` reports success: the language is known, the file exists
   * and is read and parsed, and its output is written.
   */
  predicate ParseOk(env: Env, p: Path)
  {
    Detect(p).Some? && Exists(env, p) && p in env.parses && p !in env.writeFails
  }

  /** The cache after `parse_and_write`: it records the metadata on success, when it can be read. */
  function AfterParse(cache: Cache, env: Env, p: Path): (r: Cache)
    ensures forall q :: q != p ==> (q in r <==> q in cache) && (q in r ==> r[q] == cache[q])
    ensures p in r <==> p in cache || (ParseOk(env, p) && FileMeta(env, p).Some?)
    ensures p in r && (ParseOk(env, p) && FileMeta(env, p).Some?) ==> r[p] == FileMeta(env, p).value
    ensures !ParseOk(env, p) ==> r == cache
  {
    if ParseOk(env, p) && FileMeta(env, p).Some? then cache[p := FileMeta(env, p).value]
    else cache
  }

  /** Once a file is parsed with readable metadata, it no longer needs parsing. */
  lemma ParsedIsFresh(cache: Cache, env: Env, p: Path)
    requires ParseOk(env, p) && FileMeta(env, p).Some?
    ensures !NeedsReparse(AfterParse(cache, env, p), env, p)
  {
  }

  // ----- incremental_update, on values -----

  /** One changed path: removed if gone, skipped under the output directory or when undetected. */
  function BatchStep(cache: Cache, count: nat, env: Env, output: Path, p: Path): (Cache, nat)
  {
    if !Exists(env, p) then (cache - {p}, count + 1)
    else if StartsWith(p, output) then (cache, count)
    else if Detect(p).None? then (cache, count)
    else if NeedsReparse(cache, env, p) then
      (AfterParse(cache, env, p), if ParseOk(env, p) then count + 1 else count)
    else (cache, count)
  }

  /** The changed paths processed in order, counting removals and successful parses. */
  function Batch(cache: Cache, env: Env, output: Path, ps: seq<Path>): (Cache, nat)
  {
    if |ps| == 0 then (cache, 0)
    else
      var prev := Batch(cache, env, output, ps[..|ps| - 1]);
      BatchStep(prev.0, prev.1, env, output, ps[|ps| - 1])
  }

  /** One scanned file: parsed when it is not cached. */
  function RescanStep(cache: Cache, count: nat, env: Env, f: Path): (Cache, nat)
  {
    if f !in cache then
      (AfterParse(cache, env, f), if ParseOk(env, f) then count + 1 else count)
    else (cache, count)
  }

  function Rescan(cache: Cache, count: nat, env: Env, fs: seq<Path>): (Cache, nat)
  {
    if |fs| == 0 then (cache, count)
    else
      var prev := Rescan(cache, count, env, fs[..|fs| - 1]);
      RescanStep(prev.0, prev.1, env, fs[|fs| - 1])
  }

  /**
   * The changed paths, then every scanned file not yet cached; a failing scan
   * ends the call with its error after the changed paths were processed.
   */
  function Update(cache: Cache, env: Env, output: Path, changed: seq<Path>): (Cache, Result<nat, string>)
  {
    var b := Batch(cache, env, output, changed);
    match env.scan
    case Err(e) => (b.0, Err(e))
    case Ok(fs) =>
      var s := Rescan(b.0, b.1, env, fs);
      (s.0, Ok(s.1))
  }

  // ----- full_scan, on values -----

  function ParseAll(cache: Cache, env: Env, fs: seq<Path>): Cache
  {
    if |fs| == 0 then cache else AfterParse(ParseAll(cache, env, fs[..|fs| - 1]), env, fs[|fs| - 1])
  }

  function FullScanResult(cache: Cache, env: Env): (Cache, Result<(), string>)
  {
    match env.scan
    case Err(e) => (cache, Err(e))
    case Ok(fs) => (ParseAll(cache, env, fs), Ok(()))
  }

  // ----- what the folds promise -----

  /**
   * After a full scan, every scanned file that parses with readable metadata
   * is cached with that metadata, and nothing else is added to the cache.
   */
  lemma {:induction false} ParseAllIndexes(cache: Cache, env: Env, fs: seq<Path>)
    ensures var r := ParseAll(cache, env, fs);
      && (forall i :: 0 <= i < |fs| && ParseOk(env, fs[i]) && FileMeta(env, fs[i]).Some? ==>
            fs[i] in r && r[fs[i]] == FileMeta(env, fs[i]).value)
      && (forall q :: q in r ==> q in cache || q in fs)
  {
    if |fs| > 0 {
      var front := fs[..|fs| - 1];
      ParseAllIndexes(cache, env, front);
      assert forall i :: 0 <= i < |front| ==> front[i] == fs[i];
    }
  }

  lemma FullScanIndexes(cache: Cache, env: Env)
    ensures env.scan.Err? ==> FullScanResult(cache, env) == (cache, Err(env.scan.error))
    ensures env.scan.Ok? ==>
      var r := FullScanResult(cache, env);
      var fs := env.scan.value;
      && r.1 == Ok(())
      && (forall i :: 0 <= i < |fs| && ParseOk(env, fs[i]) && FileMeta(env, fs[i]).Some? ==>
            fs[i] in r.0 && r.0[fs[i]] == FileMeta(env, fs[i]).value)
      && (forall q :: q in r.0 ==> q in cache || q in fs)
  {
    if env.scan.Ok? {
      ParseAllIndexes(cache, env, env.scan.value);
    }
  }

  /** A changed path that no longer exists is gone from the cache after the batch. */
  lemma {:induction false} BatchRemovesMissing(cache: Cache, env: Env, output: Path, ps: seq<Path>)
    ensures forall i :: 0 <= i < |ps| && !Exists(env, ps[i]) ==>
      ps[i] !in Batch(cache, env, output, ps).0
  {
    if |ps| > 0 {
      var front := ps[..|ps| - 1];
      BatchRemovesMissing(cache, env, output, front);
      assert forall i :: 0 <= i < |front| ==> front[i] == ps[i];
    }
  }

  /** The scan never brings back a file that does not exist. */
  lemma {:induction false} RescanAddsExisting(cache: Cache, count: nat, env: Env, fs: seq<Path>)
    ensures forall q :: q in Rescan(cache, count, env, fs).0 ==> q in cache || Exists(env, q)
  {
    if |fs| > 0 {
      RescanAddsExisting(cache, count, env, fs[..|fs| - 1]);
    }
  }

  lemma UpdateRemovesMissing(cache: Cache, env: Env, output: Path, changed: seq<Path>)
    ensures forall i :: 0 <= i < |changed| && !Exists(env, changed[i]) ==>
      changed[i] !in Update(cache, env, output, changed).0
  {
    var b := Batch(cache, env, output, changed);
    BatchRemovesMissing(cache, env, output, changed);
    if env.scan.Ok? {
      RescanAddsExisting(b.0, b.1, env, env.scan.value);
    }
  }

  /** How many changed paths no longer exist, counted with repetition. */
  function MissingCount(env: Env, ps: seq<Path>): (n: nat)
    ensures n <= |ps|
  {
    if |ps| == 0 then 0
    else MissingCount(env, ps[..|ps| - 1]) + if Exists(env, ps[|ps| - 1]) then 0 else 1
  }

  /** Every removal counts, and each path counts at most once. */
  lemma {:induction false} BatchCountBounds(cache: Cache, env: Env, output: Path, ps: seq<Path>)
    ensures MissingCount(env, ps) <= Batch(cache, env, output, ps).1 <= |ps|
  {
    if |ps| > 0 {
      BatchCountBounds(cache, env, output, ps[..|ps| - 1]);
    }
  }

  lemma {:induction false} RescanCountBounds(cache: Cache, count: nat, env: Env, fs: seq<Path>)
    ensures count <= Rescan(cache, count, env, fs).1 <= count + |fs|
  {
    if |fs| > 0 {
      RescanCountBounds(cache, count, env, fs[..|fs| - 1]);
    }
  }

  /** How many of the paths would parse successfully, counted with repetition. */
  function ParsingCount(env: Env, ps: seq<Path>): (n: nat)
    ensures n + MissingCount(env, ps) <= |ps|
  {
    if |ps| == 0 then 0
    else ParsingCount(env, ps[..|ps| - 1]) + if ParseOk(env, ps[|ps| - 1]) then 1 else 0
  }

  /**
   * An existing changed path is skipped, and not counted, when it lies under
   * the output directory, has no known language, or is cached with its
   * current metadata.
   */
  lemma BatchStepSkips(cache: Cache, count: nat, env: Env, output: Path, p: Path)
    requires Exists(env, p)
    requires StartsWith(p, output) || Detect(p).None? || !NeedsReparse(cache, env, p)
    ensures BatchStep(cache, count, env, output, p) == (cache, count)
  {
  }

  /** Beyond the removals, the batch counts only paths that parse successfully. */
  lemma {:induction false} BatchCountsParses(cache: Cache, env: Env, output: Path, ps: seq<Path>)
    ensures Batch(cache, env, output, ps).1 <= MissingCount(env, ps) + ParsingCount(env, ps)
  {
    if |ps| > 0 {
      BatchCountsParses(cache, env, output, ps[..|ps| - 1]);
    }
  }

  /** The scan counts only files that parse successfully. */
  lemma {:induction false} RescanCountsParses(cache: Cache, count: nat, env: Env, fs: seq<Path>)
    ensures Rescan(cache, count, env, fs).1 <= count + ParsingCount(env, fs)
  {
    if |fs| > 0 {
      RescanCountsParses(cache, count, env, fs[..|fs| - 1]);
    }
  }

  /**
   * The update's count is the removals plus successful parses: at least every
   * missing changed path, at most those plus the changed and scanned paths
   * that parse.
   */
  lemma UpdateCountBounds(cache: Cache, env: Env, output: Path, changed: seq<Path>)
    requires env.scan.Ok?
    ensures var r := Update(cache, env, output, changed).1;
      && r.Ok?
      && MissingCount(env, changed) <= r.value
      && r.value <= MissingCount(env, changed) + ParsingCount(env, changed) + ParsingCount(env, env.scan.value)
      && r.value <= |changed| + |env.scan.value|
  {
    var b := Batch(cache, env, output, changed);
    BatchCountBounds(cache, env, output, changed);
    BatchCountsParses(cache, env, output, changed);
    RescanCountBounds(b.0, b.1, env, env.scan.value);
    RescanCountsParses(b.0, b.1, env, env.scan.value);
  }

  // ----- the exact count, for paths listed once -----

  predicate Distinct(ps: seq<Path>)
  {
    forall i, j :: 0 <= i < j < |ps| ==> ps[i] != ps[j]
  }

  /**
   * How many changed paths are parsed again successfully: outside the output
   * directory, stale against the cache as it was before the batch, and parsing.
   */
  function StaleParses(cache: Cache, env: Env, output: Path, ps: seq<Path>): nat
  {
    if |ps| == 0 then 0
    else
      var p := ps[|ps| - 1];
      StaleParses(cache, env, output, ps[..|ps| - 1])
      + if !StartsWith(p, output) && NeedsReparse(cache, env, p) && ParseOk(env, p) then 1 else 0
  }

  /** How many scanned files are parsed successfully because the cache lacked them. */
  function FreshParses(cache: Cache, env: Env, fs: seq<Path>): nat
  {
    if |fs| == 0 then 0
    else
      var f := fs[|fs| - 1];
      FreshParses(cache, env, fs[..|fs| - 1]) + if f !in cache && ParseOk(env, f) then 1 else 0
  }

  /** The batch leaves the entry of every path it does not list as it was. */
  lemma {:induction false} BatchFrame(cache: Cache, env: Env, output: Path, ps: seq<Path>, q: Path)
    requires q !in ps
    ensures var c := Batch(cache, env, output, ps).0;
      (q in c <==> q in cache) && (q in c ==> c[q] == cache[q])
  {
    if |ps| > 0 {
      BatchFrame(cache, env, output, ps[..|ps| - 1], q);
    }
  }

  /** The scan leaves the entry of every file it does not list as it was. */
  lemma {:induction false} RescanFrame(cache: Cache, count: nat, env: Env, fs: seq<Path>, q: Path)
    requires q !in fs
    ensures var c := Rescan(cache, count, env, fs).0;
      (q in c <==> q in cache) && (q in c ==> c[q] == cache[q])
  {
    if |fs| > 0 {
      RescanFrame(cache, count, env, fs[..|fs| - 1], q);
    }
  }

  /** For paths listed once, the batch counts exactly its removals and its successful re-parses. */
  lemma {:induction false} BatchCount(cache: Cache, env: Env, output: Path, ps: seq<Path>)
    requires Distinct(ps)
    ensures Batch(cache, env, output, ps).1 == MissingCount(env, ps) + StaleParses(cache, env, output, ps)
  {
    if |ps| > 0 {
      var front := ps[..|ps| - 1];
      var p := ps[|ps| - 1];
      BatchCount(cache, env, output, front);
      assert p !in front by {
        assert forall i :: 0 <= i < |front| ==> front[i] == ps[i];
      }
      BatchFrame(cache, env, output, front, p);
      var prev := Batch(cache, env, output, front).0;
      assert NeedsReparse(prev, env, p) == NeedsReparse(cache, env, p);
    }
  }

  /** For files listed once, the scan adds exactly one per uncached file that parses. */
  lemma {:induction false} RescanCount(cache: Cache, count: nat, env: Env, fs: seq<Path>)
    requires Distinct(fs)
    ensures Rescan(cache, count, env, fs).1 == count + FreshParses(cache, env, fs)
  {
    if |fs| > 0 {
      var front := fs[..|fs| - 1];
      var f := fs[|fs| - 1];
      RescanCount(cache, count, env, front);
      assert f !in front by {
        assert forall i :: 0 <= i < |front| ==> front[i] == fs[i];
      }
      RescanFrame(cache, count, env, front, f);
    }
  }

  /**
   * When no path is listed twice, the update reports exactly the removals,
   * the successful re-parses of stale changed files and the successful parses
   * of scanned files the batch left uncached.
   */
  lemma UpdateCount(cache: Cache, env: Env, output: Path, changed: seq<Path>)
    requires env.scan.Ok? && Distinct(changed) && Distinct(env.scan.value)
    ensures var b := Batch(cache, env, output, changed).0;
      Update(cache, env, output, changed).1
        == Ok(MissingCount(env, changed) + StaleParses(cache, env, output, changed)
              + FreshParses(b, env, env.scan.value))
  {
    var b := Batch(cache, env, output, changed);
    BatchCount(cache, env, output, changed);
    RescanCount(b.0, b.1, env, env.scan.value);
  }

  // ----- a second identical update does nothing -----

  /** Every file's metadata can be read. */
  predicate MetaReadable(env: Env)
  {
    forall p :: p in env.meta ==> env.meta[p].Some?
  }

  /** If `p` parses, the cache holds its current metadata. */
  predicate Settled(cache: Cache, env: Env, p: Path)
  {
    ParseOk(env, p) && FileMeta(env, p).Some? ==> p in cache && cache[p] == FileMeta(env, p).value
  }

  /** A step for any path keeps an existing path settled. */
  lemma BatchStepKeepsSettled(cache: Cache, count: nat, env: Env, output: Path, p: Path, q: Path)
    requires Settled(cache, env, q) && Exists(env, q)
    ensures Settled(BatchStep(cache, count, env, output, p).0, env, q)
  {
  }

  lemma {:induction false} BatchSettles(cache: Cache, env: Env, output: Path, ps: seq<Path>)
    requires MetaReadable(env)
    requires forall i :: 0 <= i < |ps| ==> Exists(env, ps[i])
    ensures var c := Batch(cache, env, output, ps).0;
      forall i :: 0 <= i < |ps| && !StartsWith(ps[i], output) ==> Settled(c, env, ps[i])
  {
    if |ps| > 0 {
      var front := ps[..|ps| - 1];
      var prev := Batch(cache, env, output, front);
      BatchSettles(cache, env, output, front);
      assert forall i :: 0 <= i < |front| ==> front[i] == ps[i];
      forall i | 0 <= i < |front| && !StartsWith(ps[i], output)
        ensures Settled(Batch(cache, env, output, ps).0, env, ps[i])
      {
        BatchStepKeepsSettled(prev.0, prev.1, env, output, ps[|ps| - 1], ps[i]);
      }
    }
  }

  /** A changed path that exists outside the output directory is settled by its own step. */
  lemma BatchStepSettles(cache: Cache, count: nat, env: Env, output: Path, p: Path)
    requires Exists(env, p) && !StartsWith(p, output)
    ensures Settled(BatchStep(cache, count, env, output, p).0, env, p)
  {
  }

  /**
   * Every changed path that exists outside the output directory is settled
   * after the batch: if it parses, the cache holds its current metadata.
   */
  lemma {:induction false} BatchIndexes(cache: Cache, env: Env, output: Path, ps: seq<Path>)
    ensures var c := Batch(cache, env, output, ps).0;
      forall i :: 0 <= i < |ps| && Exists(env, ps[i]) && !StartsWith(ps[i], output) ==> Settled(c, env, ps[i])
  {
    if |ps| > 0 {
      var front := ps[..|ps| - 1];
      var prev := Batch(cache, env, output, front);
      var p := ps[|ps| - 1];
      BatchIndexes(cache, env, output, front);
      assert forall i :: 0 <= i < |front| ==> front[i] == ps[i];
      forall i | 0 <= i < |ps| && Exists(env, ps[i]) && !StartsWith(ps[i], output)
        ensures Settled(Batch(cache, env, output, ps).0, env, ps[i])
      {
        if i == |ps| - 1 {
          BatchStepSettles(prev.0, prev.1, env, output, p);
        } else {
          BatchStepKeepsSettled(prev.0, prev.1, env, output, p, ps[i]);
        }
      }
    }
  }

  lemma {:induction false} RescanKeepsSettled(cache: Cache, count: nat, env: Env, fs: seq<Path>, q: Path)
    requires Settled(cache, env, q)
    ensures Settled(Rescan(cache, count, env, fs).0, env, q)
  {
    if |fs| > 0 {
      RescanKeepsSettled(cache, count, env, fs[..|fs| - 1], q);
    }
  }

  lemma {:induction false} RescanSettles(cache: Cache, count: nat, env: Env, fs: seq<Path>)
    ensures var c := Rescan(cache, count, env, fs).0;
      && (forall i :: 0 <= i < |fs| ==> Settled(c, env, fs[i]) || fs[i] in cache)
      && (forall q :: q in c ==> q in cache || Settled(c, env, q))
  {
    if |fs| > 0 {
      var front := fs[..|fs| - 1];
      RescanSettles(cache, count, env, front);
      assert forall i :: 0 <= i < |front| ==> front[i] == fs[i];
    }
  }

  /** The scan never drops a cached file. */
  lemma {:induction false} RescanKeepsCached(cache: Cache, count: nat, env: Env, fs: seq<Path>)
    ensures forall q :: q in cache ==> q in Rescan(cache, count, env, fs).0
  {
    if |fs| > 0 {
      RescanKeepsCached(cache, count, env, fs[..|fs| - 1]);
    }
  }

  /**
   * After an update, every changed path that exists outside the output
   * directory, and every scanned file the batch left uncached, is settled:
   * if it parses, it is cached with its current metadata.
   */
  lemma UpdateIndexes(cache: Cache, env: Env, output: Path, changed: seq<Path>)
    requires env.scan.Ok?
    ensures var c := Update(cache, env, output, changed).0;
      && (forall i :: 0 <= i < |changed| && Exists(env, changed[i]) && !StartsWith(changed[i], output) ==>
            Settled(c, env, changed[i]))
      && (forall f :: f in env.scan.value && f !in Batch(cache, env, output, changed).0 ==> Settled(c, env, f))
  {
    var fs := env.scan.value;
    var b := Batch(cache, env, output, changed);
    BatchIndexes(cache, env, output, changed);
    forall i | 0 <= i < |changed| && Exists(env, changed[i]) && !StartsWith(changed[i], output)
      ensures Settled(Update(cache, env, output, changed).0, env, changed[i])
    {
      RescanKeepsSettled(b.0, b.1, env, fs, changed[i]);
    }
    RescanSettles(b.0, b.1, env, fs);
  }

  /** With every changed path settled, the batch changes nothing and counts nothing. */
  lemma {:induction false} SettledBatchIsNoop(cache: Cache, env: Env, output: Path, ps: seq<Path>)
    requires forall i :: 0 <= i < |ps| ==> Exists(env, ps[i])
    requires forall i :: 0 <= i < |ps| && !StartsWith(ps[i], output) ==> Settled(cache, env, ps[i])
    requires MetaReadable(env)
    ensures Batch(cache, env, output, ps) == (cache, 0)
  {
    if |ps| > 0 {
      var front := ps[..|ps| - 1];
      assert forall i :: 0 <= i < |front| ==> front[i] == ps[i];
      SettledBatchIsNoop(cache, env, output, front);
    }
  }

  lemma {:induction false} SettledRescanIsNoop(cache: Cache, count: nat, env: Env, fs: seq<Path>)
    requires forall i :: 0 <= i < |fs| ==> Settled(cache, env, fs[i]) || fs[i] in cache
    requires forall i :: 0 <= i < |fs| ==> Exists(env, fs[i])
    requires MetaReadable(env)
    ensures Rescan(cache, count, env, fs) == (cache, count)
  {
    if |fs| > 0 {
      var front := fs[..|fs| - 1];
      assert forall i :: 0 <= i < |front| ==> front[i] == fs[i];
      SettledRescanIsNoop(cache, count, env, front);
    }
  }

  /**
   * When the files do not change between two identical updates, every
   * changed and scanned path exists and all metadata can be read, the
   * second update reports 0 and leaves the cache as the first one left it.
   */
  lemma UpdateIdempotent(cache: Cache, env: Env, output: Path, changed: seq<Path>)
    requires env.scan.Ok? && MetaReadable(env)
    requires forall i :: 0 <= i < |changed| ==> Exists(env, changed[i])
    requires forall i :: 0 <= i < |env.scan.value| ==> Exists(env, env.scan.value[i])
    ensures var first := Update(cache, env, output, changed).0;
      Update(first, env, output, changed) == (first, Ok(0))
  {
    var fs := env.scan.value;
    var b := Batch(cache, env, output, changed);
    var first := Update(cache, env, output, changed).0;
    BatchSettles(cache, env, output, changed);
    forall i | 0 <= i < |changed| && !StartsWith(changed[i], output)
      ensures Settled(first, env, changed[i])
    {
      RescanKeepsSettled(b.0, b.1, env, fs, changed[i]);
    }
    RescanSettles(b.0, b.1, env, fs);
    forall i | 0 <= i < |fs|
      ensures Settled(first, env, fs[i]) || fs[i] in first
    {
      RescanKeepsCached(b.0, b.1, env, fs);
    }
    SettledBatchIsNoop(first, env, output, changed);
    SettledRescanIsNoop(first, 0, env, fs);
  }

  // ----- scenarios -----

  /** A cached (100, 10) entry against a file now (100, 12) long is stale; an equal one is not. */
  lemma NeedsReparseExamples(p: Path)
    ensures var env := Env(map[p := Some(CacheEntry(100, 12))], {}, {}, Ok([]));
      && NeedsReparse(map[p := CacheEntry(100, 10)], env, p)
      && !NeedsReparse(map[p := CacheEntry(100, 12)], env, p)
      && NeedsReparse(map[], env, p)
  {
  }

  /** Deleting a file that was never cached still counts as one update. */
  lemma DeletedUncachedCounts(p: Path, output: Path)
    ensures Update(map[], Env(map[], {}, {}, Ok([])), output, [p]) == (map[], Ok(1))
  {
    var env := Env(map[], {}, {}, Ok([]));
    var empty: Cache := map[];
    var none: seq<Path> := [];
    assert [p][..0] == none;
    assert Batch(empty, env, output, none) == (empty, 0);
    assert empty - {p} == empty;
    assert Batch(empty, env, output, [p]) == (empty, 1);
  }

  /** A changed file under the output directory is skipped and not counted. */
  lemma OutputFileSkipped(output: Path, meta: CacheEntry)
    ensures var p := output + ["test.md"];
      Update(map[], Env(map[p := Some(meta)], {p}, {}, Ok([])), output, [p]) == (map[], Ok(0))
  {
    var p := output + ["test.md"];
    var env := Env(map[p := Some(meta)], {p}, {}, Ok([]));
    var empty: Cache := map[];
    var none: seq<Path> := [];
    assert [p][..0] == none;
    assert Batch(empty, env, output, none) == (empty, 0);
    assert StartsWith(p, output) by {
      assert p[..|output|] == output;
    }
    assert Batch(empty, env, output, [p]) == (empty, 0);
  }

  /** A full scan of two distinct supported files that parse caches exactly those two. */
  lemma FullScanTwoFiles(a: Path, b: Path, ma: CacheEntry, mb: CacheEntry)
    requires a != b && Detect(a).Some? && Detect(b).Some?
    ensures var env := Env(map[a := Some(ma), b := Some(mb)], {a, b}, {}, Ok([a, b]));
      var c := FullScanResult(map[], env).0;
      c.Keys == {a, b} && |c| == 2
  {
    var env := Env(map[a := Some(ma), b := Some(mb)], {a, b}, {}, Ok([a, b]));
    var empty: Cache := map[];
    assert [a, b][..1] == [a] && [a][..0] == [];
    assert ParseAll(empty, env, [a]) == map[a := ma];
    var c := ParseAll(empty, env, [a, b]);
    assert c == map[a := ma, b := mb];
    assert c.Keys == {a, b};
  }

  // ----- should_process_event -----

  /** The kinds of file-system event the watcher reports. */
  datatype EventKind = Any | Access | Create | Modify | Remove | Other

  /** Some path of the event lies under `dir`. */
  function SomePathUnder(paths: seq<Path>, dir: Path): (r: bool)
    ensures r <==> exists i :: 0 <= i < |paths| && StartsWith(paths[i], dir)
  {
    if |paths| == 0 then false
    else StartsWith(paths[0], dir) || SomePathUnder(paths[1..], dir)
  }

  /**
   * An event is handled when none of its paths lies under the output
   * directory and it creates, modifies or removes something.
   */
  function ShouldProcessEvent(kind: EventKind, paths: seq<Path>, outputDir: Path): (r: bool)
    ensures r <==>
      && (kind.Create? || kind.Modify? || kind.Remove?)
      && forall i :: 0 <= i < |paths| ==> !StartsWith(paths[i], outputDir)
  {
    if SomePathUnder(paths, outputDir) then false
    else kind.Create? || kind.Modify? || kind.Remove?
  }

  lemma ShouldProcessEventExamples()
    ensures ShouldProcessEvent(Create, [["tmp", "test.rs"]], ["tmp", "out"])
    ensures !ShouldProcessEvent(Modify, [["tmp", "out", "test.md"]], ["tmp", "out"])
    ensures !ShouldProcessEvent(Access, [["tmp", "test.rs"]], ["tmp", "out"])
    ensures ShouldProcessEvent(Remove, [["tmp", "test.rs"]], ["tmp", "out"])
  {
    assert ["tmp", "out", "test.md"][..2] == ["tmp", "out"];
    assert ["tmp", "test.rs"][..2] != ["tmp", "out"] by {
      assert ["tmp", "test.rs"][1] != ["tmp", "out"][1];
    }
  }

  // ----- the state -----

  class WatchState {
    var cache: Cache
    const input: Path
    const output: Path

    /** A new state has an empty cache. */
    constructor(input: Path, output: Path)
      ensures cache == map[] && this.input == input && this.output == output
    {
      cache := map[];
      this.input := input;
      this.output := output;
    }

    /** Parses and writes one file, then records its metadata if that can be read. */
    method ParseAndWrite(env: Env, p: Path) returns (ok: bool)
      modifies this
      ensures ok == ParseOk(env, p)
      ensures cache == AfterParse(old(cache), env, p)
    {
      if Detect(p).None? {
        return false;
      }
      if !Exists(env, p) || p !in env.parses {
        return false;
      }
      if p in env.writeFails {
        return false;
      }
      var m := FileMeta(env, p);
      if m.Some? {
        cache := cache[p := m.value];
      }
      return true;
    }

    /** Forgets a file; its output file is deleted on disk. */
    method Remove(p: Path)
      modifies this
      ensures cache == old(cache) - {p}
    {
      cache := cache - {p};
    }

    /** Parses every scanned file. */
    method FullScan(env: Env) returns (r: Result<(), string>)
      modifies this
      ensures (cache, r) == FullScanResult(old(cache), env)
    {
      if env.scan.Err? {
        return Err(env.scan.error);
      }
      var files := env.scan.value;
      var parsed := 0;
      for i := 0 to |files|
        invariant cache == ParseAll(old(cache), env, files[..i])
      {
        assert files[..i + 1][..i] == files[..i];
        var ok := ParseAndWrite(env, files[i]);
        if ok {
          parsed := parsed + 1;
        }
      }
      assert files[..|files|] == files;
      return Ok(());
    }

    /** Handles a batch of changed paths, then parses new files; returns how many were updated. */
    method IncrementalUpdate(env: Env, changed: seq<Path>) returns (r: Result<nat, string>)
      modifies this
      ensures (cache, r) == Update(old(cache), env, output, changed)
    {
      var updated := 0;
      for i := 0 to |changed|
        invariant (cache, updated) == Batch(old(cache), env, output, changed[..i])
      {
        var p := changed[i];
        assert changed[..i + 1][..i] == changed[..i];
        if !Exists(env, p) {
          Remove(p);
          updated := updated + 1;
          continue;
        }
        if StartsWith(p, output) {
          continue;
        }
        if Detect(p).None? {
          continue;
        }
        if NeedsReparse(cache, env, p) {
          var ok := ParseAndWrite(env, p);
          if ok {
            updated := updated + 1;
          }
        }
      }
      assert changed[..|changed|] == changed;
      if env.scan.Err? {
        return Err(env.scan.error);
      }
      var files := env.scan.value;
      ghost var afterBatch := cache;
      ghost var countBatch := updated;
      for i := 0 to |files|
        invariant (cache, updated) == Rescan(afterBatch, countBatch, env, files[..i])
      {
        var f := files[i];
        assert files[..i + 1][..i] == files[..i];
        if f !in cache {
          var ok := ParseAndWrite(env, f);
          if ok {
            updated := updated + 1;
          }
        }
      }
      assert files[..|files|] == files;
      return Ok(updated);
    }
  }
}
