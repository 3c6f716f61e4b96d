/**
 * One cycle of the daemon's script checker (DaemonMain.kt, the `checker`
 * coroutine): the removal pass over `fileMap`, the walk that indexes every
 * file under the script directory by its short name and queues the stale
 * ones, then the compile tasks, which record a file's hash only when it
 * compiles, and the evictions. The filesystem is a set of existing paths
 * and a listing of (path, content hash) pairs in walk order; the content
 * hash is opaque. The tasks run one after another in the order they were
 * launched, as they do on the checker's single-threaded dispatcher.
 */
module Watcher {
  import opened Wrappers
  import opened ShortNames
  import opened ScriptCaches

  /** A file the walk reports: its path and the hash of its contents. */
  datatype Listed = Listed(path: string, hash: string)

  /** The short name a walked file is indexed by: the daemon's short name of its base name. */
  function ShortNameOf(path: string): string {
    DaemonShortName(BaseFileName(FileName(path)))
  }

  // ---- the removal pass ----

  /** The entries whose path still exists. */
  function Kept(fileMap: map<string, string>, existing: set<string>): (kept: map<string, string>)
    ensures forall k :: k in kept <==> k in fileMap && fileMap[k] in existing
    ensures forall k | k in kept :: kept[k] == fileMap[k]
  {
    map k | k in fileMap && fileMap[k] in existing :: fileMap[k]
  }

  /** The paths of the entries whose path no longer exists. */
  function Vanished(fileMap: map<string, string>, existing: set<string>): set<string> {
    set k | k in fileMap && fileMap[k] !in existing :: fileMap[k]
  }

  /** The removal pass keeps an entry or queues its path for eviction, never both. */
  lemma KeptOrVanished(fileMap: map<string, string>, existing: set<string>, k: string)
    requires k in fileMap
    ensures k in Kept(fileMap, existing) <==> fileMap[k] !in Vanished(fileMap, existing)
  {
    if fileMap[k] in Vanished(fileMap, existing) {
      var k' :| k' in fileMap && fileMap[k'] !in existing && fileMap[k'] == fileMap[k];
    }
  }

  // ---- the walk ----

  /** The result of a walk: the updated map and the files queued for compilation, in walk order. */
  datatype Scan = Scan(fileMap: map<string, string>, queue: seq<Listed>)

  /** `fileMap[shortName] != it || hash != hashMap[it]`, a missing entry comparing unequal. */
  predicate Stale(fileMap: map<string, string>, hashMap: map<string, string>, f: Listed, nameOf: string -> string) {
    var s := nameOf(f.path);
    !(s in fileMap && fileMap[s] == f.path) || !(f.path in hashMap && hashMap[f.path] == f.hash)
  }

  /** The walk over `listing`, one file after another, against the hashes of `hashMap`. */
  function Walk(fileMap: map<string, string>, hashMap: map<string, string>, listing: seq<Listed>,
                nameOf: string -> string): Scan
    decreases |listing|
  {
    if listing == [] then Scan(fileMap, [])
    else
      var before := Walk(fileMap, hashMap, listing[..|listing| - 1], nameOf);
      var f := listing[|listing| - 1];
      if Stale(before.fileMap, hashMap, f, nameOf) then
        Scan(before.fileMap[nameOf(f.path) := f.path], before.queue + [f])
      else before
  }

  /** Every listed file entered under its short name, in order: a reference for the walk's map. */
  function Indexed(fileMap: map<string, string>, listing: seq<Listed>, nameOf: string -> string): map<string, string>
    decreases |listing|
  {
    if listing == [] then fileMap
    else
      var f := listing[|listing| - 1];
      Indexed(fileMap, listing[..|listing| - 1], nameOf)[nameOf(f.path) := f.path]
  }

  /** The index of the last listed file with short name `s`, or -1 when there is none. */
  function LastWith(listing: seq<Listed>, s: string, nameOf: string -> string): (k: int)
    ensures -1 <= k < |listing|
    ensures k >= 0 ==> nameOf(listing[k].path) == s
    ensures forall j | k < j < |listing| :: nameOf(listing[j].path) != s
    decreases |listing|
  {
    if listing == [] then -1
    else if nameOf(listing[|listing| - 1].path) == s then |listing| - 1
    else LastWith(listing[..|listing| - 1], s, nameOf)
  }

  /** The walk's map does not depend on the hashes: it is every listed file entered under its short name. */
  lemma {:induction false} WalkIndexes(fileMap: map<string, string>, hashMap: map<string, string>, listing: seq<Listed>, nameOf: string -> string)
    ensures Walk(fileMap, hashMap, listing, nameOf).fileMap == Indexed(fileMap, listing, nameOf)
    decreases |listing|
  {
    if listing != [] {
      var init := listing[..|listing| - 1];
      var f := listing[|listing| - 1];
      WalkIndexes(fileMap, hashMap, init, nameOf);
      var before := Walk(fileMap, hashMap, init, nameOf);
      if !Stale(before.fileMap, hashMap, f, nameOf) {
        assert before.fileMap[nameOf(f.path) := f.path] == before.fileMap;
      }
    }
  }

  /**
   * A short name maps, after the walk, to the last listed file with that
   * short name; a short name no listed file has keeps its entry, or its
   * absence. So every walked file is indexed, whatever its extension, and
   * among files with colliding short names the last one walked wins.
   */
  lemma {:induction false} IndexedLast(fileMap: map<string, string>, listing: seq<Listed>, s: string, nameOf: string -> string)
    ensures var k := LastWith(listing, s, nameOf);
      var m := Indexed(fileMap, listing, nameOf);
      if k >= 0 then s in m && m[s] == listing[k].path
      else (s in m <==> s in fileMap) && (s in fileMap ==> m[s] == fileMap[s])
    decreases |listing|
  {
    if listing != [] {
      var init := listing[..|listing| - 1];
      IndexedLast(fileMap, init, s, nameOf);
      if nameOf(listing[|listing| - 1].path) != s {
        assert LastWith(listing, s, nameOf) == LastWith(init, s, nameOf);
        if LastWith(init, s, nameOf) >= 0 {
          assert init[LastWith(init, s, nameOf)] == listing[LastWith(init, s, nameOf)];
        }
      }
    }
  }

  /** Files are queued in walk order, and the queue of a shorter walk is the start of a longer one's. */
  lemma {:induction false} QueueGrows(fileMap: map<string, string>, hashMap: map<string, string>,
                                      listing: seq<Listed>, n: nat, nameOf: string -> string)
    requires n <= |listing|
    ensures Walk(fileMap, hashMap, listing[..n], nameOf).queue <= Walk(fileMap, hashMap, listing, nameOf).queue
    decreases |listing| - n
  {
    if n < |listing| {
      var init := listing[..|listing| - 1];
      assert listing[..n] == init[..n];
      QueueGrows(fileMap, hashMap, init, n, nameOf);
      assert listing[..|listing|] == listing;
    } else {
      assert listing[..n] == listing;
    }
  }

  /** Only listed files are queued. */
  lemma {:induction false} QueueFromListing(fileMap: map<string, string>, hashMap: map<string, string>, listing: seq<Listed>, nameOf: string -> string)
    ensures forall g | g in Walk(fileMap, hashMap, listing, nameOf).queue :: g in listing
    decreases |listing|
  {
    if listing != [] {
      var init := listing[..|listing| - 1];
      QueueFromListing(fileMap, hashMap, init, nameOf);
      forall g | g in init
        ensures g in listing
      {
        var i :| 0 <= i < |init| && init[i] == g;
        assert listing[i] == g;
      }
    }
  }

  /** A listed file stale at its turn is queued. */
  lemma StaleQueued(fileMap: map<string, string>, hashMap: map<string, string>, listing: seq<Listed>, i: nat, nameOf: string -> string)
    requires i < |listing| && Stale(Walk(fileMap, hashMap, listing[..i], nameOf).fileMap, hashMap, listing[i], nameOf)
    ensures listing[i] in Walk(fileMap, hashMap, listing, nameOf).queue
  {
    var prefix := listing[..i + 1];
    assert prefix[..i] == listing[..i] && prefix[i] == listing[i];
    var q := Walk(fileMap, hashMap, prefix, nameOf).queue;
    assert q[|q| - 1] == listing[i];
    QueueGrows(fileMap, hashMap, listing, i + 1, nameOf);
    assert Walk(fileMap, hashMap, listing, nameOf).queue[|q| - 1] == listing[i];
  }

  /** A file whose hash is not recorded with its current contents is queued, whatever `fileMap` holds. */
  lemma UnrecordedQueued(fileMap: map<string, string>, hashMap: map<string, string>, listing: seq<Listed>, i: nat, nameOf: string -> string)
    requires i < |listing| && !(listing[i].path in hashMap && hashMap[listing[i].path] == listing[i].hash)
    ensures listing[i] in Walk(fileMap, hashMap, listing, nameOf).queue
  {
    StaleQueued(fileMap, hashMap, listing, i, nameOf);
  }

  /**
   * When every listed file is entered under its own short name and
   * recorded with its current hash, and no two listed files share a short
   * name, the walk changes nothing and queues nothing.
   */
  lemma {:induction false} SteadyWalk(fileMap: map<string, string>, hashMap: map<string, string>, listing: seq<Listed>, nameOf: string -> string)
    requires forall i | 0 <= i < |listing| ::
      nameOf(listing[i].path) in fileMap && fileMap[nameOf(listing[i].path)] == listing[i].path
      && listing[i].path in hashMap && hashMap[listing[i].path] == listing[i].hash
    ensures Walk(fileMap, hashMap, listing, nameOf) == Scan(fileMap, [])
    decreases |listing|
  {
    if listing != [] {
      var init := listing[..|listing| - 1];
      forall i | 0 <= i < |init|
        ensures nameOf(init[i].path) in fileMap && fileMap[nameOf(init[i].path)] == init[i].path
          && init[i].path in hashMap && hashMap[init[i].path] == init[i].hash
      {
        assert init[i] == listing[i];
      }
      SteadyWalk(fileMap, hashMap, init, nameOf);
      var f := listing[|listing| - 1];
      assert !Stale(fileMap, hashMap, f, nameOf);
    }
  }

  /** No two listed entries have the same path, as a directory walk reports each file once. */
  predicate DistinctPaths(listing: seq<Listed>) {
    forall a, b | 0 <= a < b < |listing| :: listing[a].path != listing[b].path
  }

  /**
   * Two files whose short names collide keep each other stale: after one
   * walk, the next walk over the same files queues the earlier one again,
   * whatever hashes have been recorded in between.
   */
  lemma CollidingRequeued(fileMap: map<string, string>, hashMap: map<string, string>, later: map<string, string>,
                          listing: seq<Listed>, i: nat, j: nat, nameOf: string -> string)
    requires DistinctPaths(listing) && i < j < |listing|
    requires nameOf(listing[i].path) == nameOf(listing[j].path)
    ensures listing[i] in Walk(Walk(fileMap, hashMap, listing, nameOf).fileMap, later, listing, nameOf).queue
  {
    var s := nameOf(listing[i].path);
    var first := Walk(fileMap, hashMap, listing, nameOf).fileMap;
    WalkIndexes(fileMap, hashMap, listing, nameOf);
    IndexedLast(fileMap, listing, s, nameOf);
    var last := LastWith(listing, s, nameOf);
    assert last >= j;
    var prefix := listing[..i];
    WalkIndexes(first, later, prefix, nameOf);
    IndexedLast(first, prefix, s, nameOf);
    var k := LastWith(prefix, s, nameOf);
    var m := Walk(first, later, prefix, nameOf).fileMap;
    if k >= 0 {
      assert m[s] == listing[k].path;
    } else {
      assert m[s] == listing[last].path;
    }
    assert Stale(m, later, listing[i], nameOf);
    StaleQueued(first, later, listing, i, nameOf);
  }

  // ---- the tasks ----

  /** What the compiler makes of a queued file, its contents being `contents(path)`. */
  function Outcome<C>(compiler: Compiler<C>, contents: string -> string, f: Listed): Option<C> {
    compiler(SourceOf(f.path, contents(f.path)))
  }

  /** The hashes after the compile tasks for `queue`: each file that compiles records its hash. */
  function Recorded<C>(hashMap: map<string, string>, queue: seq<Listed>, compiler: Compiler<C>,
                       contents: string -> string): map<string, string>
    decreases |queue|
  {
    if queue == [] then hashMap
    else
      var before := Recorded(hashMap, queue[..|queue| - 1], compiler, contents);
      var f := queue[|queue| - 1];
      if Outcome(compiler, contents, f).Some? then before[f.path := f.hash] else before
  }

  /** The cache after the compile tasks for `queue`: each file that compiles replaces its entry. */
  function CacheAfter<C>(cache: map<string, C>, workingDir: string, queue: seq<Listed>, compiler: Compiler<C>,
                         contents: string -> string): map<string, C>
    decreases |queue|
  {
    if queue == [] then cache
    else
      var before := CacheAfter(cache, workingDir, queue[..|queue| - 1], compiler, contents);
      var f := queue[|queue| - 1];
      var compiled := Outcome(compiler, contents, f);
      if compiled.Some? then before[AbsolutePath(workingDir, f.path) := compiled.value] else before
  }

  /** The cache keys of the evicted paths. */
  function EvictedKeys(workingDir: string, removals: set<string>): set<string> {
    set p | p in removals :: AbsolutePath(workingDir, p)
  }

  /** The paths a list names. */
  function Members(paths: seq<string>): set<string> {
    set p | p in paths
  }

  /** Evicting one more path removes one more key. */
  lemma EvictedStep(workingDir: string, removals: seq<string>, i: nat)
    requires i < |removals|
    ensures EvictedKeys(workingDir, Members(removals[..i + 1]))
      == EvictedKeys(workingDir, Members(removals[..i])) + {AbsolutePath(workingDir, removals[i])}
  {
    assert (Members(removals[..i + 1])) == (Members(removals[..i])) + {removals[i]};
  }

  /**
   * Hashes are only ever added or replaced: every recorded path stays
   * recorded, and a path none of whose queued compiles succeeds keeps its
   * old hash, or stays unrecorded.
   */
  lemma {:induction false} RecordedKeeps<C>(hashMap: map<string, string>, queue: seq<Listed>, compiler: Compiler<C>,
                                            contents: string -> string, p: string)
    ensures var r := Recorded(hashMap, queue, compiler, contents);
      && (p in hashMap ==> p in r)
      && ((forall g | g in queue && g.path == p :: Outcome(compiler, contents, g).None?) ==>
            (p in r <==> p in hashMap) && (p in hashMap ==> r[p] == hashMap[p]))
    decreases |queue|
  {
    if queue != [] {
      var init := queue[..|queue| - 1];
      RecordedKeeps(hashMap, init, compiler, contents, p);
      if forall g | g in queue && g.path == p :: Outcome(compiler, contents, g).None? {
        assert forall g | g in init :: g in queue;
      }
    }
  }

  /**
   * A file that fails to compile stays stale: its hash is never recorded,
   * so any later walk that lists it again queues it again.
   */
  lemma FailingFileRequeued<C>(hashMap: map<string, string>, queue: seq<Listed>, compiler: Compiler<C>,
                               contents: string -> string, fileMap: map<string, string>, listing: seq<Listed>, i: nat,
                               nameOf: string -> string)
    requires i < |listing| && !(listing[i].path in hashMap && hashMap[listing[i].path] == listing[i].hash)
    requires forall g | g in queue && g.path == listing[i].path :: Outcome(compiler, contents, g).None?
    ensures listing[i] in Walk(fileMap, Recorded(hashMap, queue, compiler, contents), listing, nameOf).queue
  {
    RecordedKeeps(hashMap, queue, compiler, contents, listing[i].path);
    UnrecordedQueued(fileMap, Recorded(hashMap, queue, compiler, contents), listing, i, nameOf);
  }

  /** The checker's state: identifiers to paths, shared with the connection handler, and the recorded hashes. */
  class Checker {
    var fileMap: map<string, string>
    var hashMap: map<string, string>

    constructor()
      ensures fileMap == map[] && hashMap == map[]
    {
      fileMap := map[];
      hashMap := map[];
    }

    /** The removal pass: drop the entries whose path is gone and list those paths for eviction. */
    method RemovalPass(existing: set<string>) returns (needsRemoval: seq<string>)
      modifies this
      ensures fileMap == Kept(old(fileMap), existing) && hashMap == old(hashMap)
      ensures forall p :: p in needsRemoval <==> p in Vanished(old(fileMap), existing)
      ensures |needsRemoval| == |old(fileMap).Keys - fileMap.Keys|
    {
      ghost var original := fileMap;
      var keys := fileMap.Keys;
      ghost var removed: set<string> := {};
      needsRemoval := [];
      while keys != {}
        invariant keys <= original.Keys && keys !! removed
        invariant forall k :: k in removed <==> k in original && k !in keys && original[k] !in existing
        invariant forall k :: k in fileMap <==> k in original && (k in keys || original[k] in existing)
        invariant forall k | k in fileMap :: fileMap[k] == original[k]
        invariant forall p :: p in needsRemoval <==> exists k | k in removed :: original[k] == p
        invariant |needsRemoval| == |removed|
        invariant hashMap == old(hashMap)
        decreases |keys|
      {
        var key :| key in keys;
        var path := fileMap[key];
        if path !in existing {
          fileMap := fileMap - {key};
          needsRemoval := needsRemoval + [path];
          removed := removed + {key};
        }
        keys := keys - {key};
      }
      assert fileMap == Kept(original, existing);
      forall p
        ensures p in needsRemoval <==> p in Vanished(original, existing)
      {
        if p in Vanished(original, existing) {
          var k :| k in original && original[k] !in existing && original[k] == p;
          assert k in removed;
        }
      }
      assert original.Keys - fileMap.Keys == removed;
    }

    /** The walk: index each listed file under its short name and queue the stale ones. */
    method WalkPass(listing: seq<Listed>) returns (needsCompilation: seq<Listed>)
      modifies this
      ensures Scan(fileMap, needsCompilation) == Walk(old(fileMap), hashMap, listing, ShortNameOf)
      ensures hashMap == old(hashMap)
    {
      needsCompilation := [];
      for i := 0 to |listing|
        invariant Scan(fileMap, needsCompilation) == Walk(old(fileMap), hashMap, listing[..i], ShortNameOf)
        invariant hashMap == old(hashMap)
      {
        var f := listing[i];
        assert listing[..i + 1][..i] == listing[..i];
        var shortName := ShortNameOf(f.path);
        if shortName !in fileMap || fileMap[shortName] != f.path || f.path !in hashMap || hashMap[f.path] != f.hash {
          fileMap := fileMap[shortName := f.path];
          needsCompilation := needsCompilation + [f];
        }
      }
      assert listing[..|listing|] == listing;
    }

    /** One compile task: the cache is updated by `compile`, and the hash recorded only when it succeeds. */
    method CompileTask<C>(cache: ScriptCache<C>, f: Listed, compiler: Compiler<C>, contents: string -> string)
      modifies this, cache
      ensures fileMap == old(fileMap)
      ensures cache.cache == CacheAfter(old(cache.cache), cache.workingDir, [f], compiler, contents)
      ensures hashMap == Recorded(old(hashMap), [f], compiler, contents)
    {
      var ok := cache.Compile(f.path, contents(f.path), compiler);
      if ok {
        hashMap := hashMap[f.path := f.hash];
      }
      assert [f][..0] == [];
    }

    /** The compile tasks, in the order they were queued. */
    method CompileAll<C>(cache: ScriptCache<C>, queue: seq<Listed>, compiler: Compiler<C>, contents: string -> string)
      modifies this, cache
      ensures fileMap == old(fileMap)
      ensures cache.cache == CacheAfter(old(cache.cache), cache.workingDir, queue, compiler, contents)
      ensures hashMap == Recorded(old(hashMap), queue, compiler, contents)
    {
      for i := 0 to |queue|
        invariant fileMap == old(fileMap)
        invariant hashMap == Recorded(old(hashMap), queue[..i], compiler, contents)
        invariant cache.cache == CacheAfter(old(cache.cache), cache.workingDir, queue[..i], compiler, contents)
      {
        assert queue[..i + 1][..i] == queue[..i];
        CompileTask(cache, queue[i], compiler, contents);
      }
      assert queue[..|queue|] == queue;
    }

    /** The eviction tasks: each removed path leaves the cache. */
    method EvictAll<C>(cache: ScriptCache<C>, removals: seq<string>)
      modifies cache
      ensures cache.cache == old(cache.cache) - EvictedKeys(cache.workingDir, Members(removals))
    {
      for i := 0 to |removals|
        invariant cache.cache == old(cache.cache) - EvictedKeys(cache.workingDir, Members(removals[..i]))
      {
        EvictedStep(cache.workingDir, removals, i);
        cache.Uncache(removals[i]);
      }
      assert removals[..|removals|] == removals;
    }

    /**
     * A whole cycle: the removal pass, the walk, the compile tasks in walk
     * order, then the evictions.
     */
    method Cycle<C>(cache: ScriptCache<C>, existing: set<string>, listing: seq<Listed>,
                    compiler: Compiler<C>, contents: string -> string)
      modifies this, cache
      ensures fileMap == Indexed(Kept(old(fileMap), existing), listing, ShortNameOf)
      ensures var queue := Walk(Kept(old(fileMap), existing), old(hashMap), listing, ShortNameOf).queue;
        && hashMap == Recorded(old(hashMap), queue, compiler, contents)
        && cache.cache == CacheAfter(old(cache.cache), cache.workingDir, queue, compiler, contents)
                          - EvictedKeys(cache.workingDir, Vanished(old(fileMap), existing))
    {
      var needsRemoval := RemovalPass(existing);
      WalkIndexes(fileMap, hashMap, listing, ShortNameOf);
      var needsCompilation := WalkPass(listing);
      CompileAll(cache, needsCompilation, compiler, contents);
      EvictAll(cache, needsRemoval);
      assert Members(needsRemoval) == Vanished(old(fileMap), existing);
    }
  }
}
