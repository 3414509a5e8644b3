/** The on-disk tile cache of get_tile_file and open_tile, as a state transition.
    The cache directory is a map from key to the raster stored in the file at
    <cachedir>/<title>/<res>/<bounds>.tif; every call of download_tile is
    appended to a log. */
module TileCache {
  import opened Grid
  import opened Raster

  /** The `size` argument of download_tile: (width, height) in pixels. */
  datatype PixelSize = PixelSize(width: nat, height: nat)

  /** The arguments of one download_tile / open_tile call. */
  datatype TileRequest = TileRequest(bounds: BBox, res: real, size: PixelSize)

  /** What the cache path is built from: title, str(tif_res) and the bounds. */
  datatype CacheKey = CacheKey(title: string, res: real, bounds: BBox)

  datatype CacheState = CacheState(files: map<CacheKey, Raster>, downloads: seq<TileRequest>)

  /** The tile size every caller in the engine passes. */
  function DefaultSize(): PixelSize {
    PixelSize(TilePixels, TilePixels)
  }

  /** The key get_tile_file builds the cache path from; the size is not part of it. */
  function KeyOf(title: string, req: TileRequest): CacheKey {
    CacheKey(title, req.res, req.bounds)
  }

  /** Nothing is ever removed from or overwritten in the cache directory. */
  predicate Extends(s: CacheState, s': CacheState) {
    && (forall k :: k in s.files ==> k in s'.files && s'.files[k] == s.files[k])
    && |s.downloads| <= |s'.downloads| && s'.downloads[..|s.downloads|] == s.downloads
  }

  /** A sequence of cache operations never removes anything either. */
  lemma ExtendsTransitive(s: CacheState, s': CacheState, s'': CacheState)
    requires Extends(s, s') && Extends(s', s'')
    ensures Extends(s, s'')
  {
    assert s''.downloads[..|s.downloads|] == s''.downloads[..|s'.downloads|][..|s.downloads|];
  }

  /** get_tile_file: if no file exists for the key, download the tile once and write it. */
  function Fetch(s: CacheState, title: string, source: TileRequest -> Raster, req: TileRequest): (s': CacheState)
    ensures KeyOf(title, req) in s'.files
    ensures s'.files.Keys == s.files.Keys + {KeyOf(title, req)}
    ensures Extends(s, s') && |s'.downloads| <= |s.downloads| + 1
  {
    var key := KeyOf(title, req);
    if key in s.files then s
    else CacheState(s.files[key := source(req)], s.downloads + [req])
  }

  /** open_tile: read the tile through the cache, or straight from download_tile when caching is off.
      Returns the raster read and the new state. */
  function Open(s: CacheState, title: string, cacheTiles: bool, source: TileRequest -> Raster,
                req: TileRequest): (r: (Raster, CacheState))
    ensures Extends(s, r.1) && |r.1.downloads| <= |s.downloads| + 1
    ensures cacheTiles ==> KeyOf(title, req) in r.1.files && r.1.files[KeyOf(title, req)] == r.0
  {
    if cacheTiles then
      var s' := Fetch(s, title, source, req);
      (s'.files[KeyOf(title, req)], s')
    else
      (source(req), s.(downloads := s.downloads + [req]))
  }

  /** The state after open_tile has been called on the first n requests of reqs, in
      order, from state s. */
  function OpenAll(s: CacheState, title: string, cacheTiles: bool, source: TileRequest -> Raster,
                   reqs: seq<TileRequest>, n: nat): CacheState
    requires n <= |reqs|
  {
    if n == 0 then s
    else Open(OpenAll(s, title, cacheTiles, source, reqs, n - 1), title, cacheTiles, source, reqs[n - 1]).1
  }

  // ---------------------------------------------------------------------------
  // Hit and miss rules

  /** The key is exactly (title, resolution, bounds): the pixel size is not part of it. */
  lemma KeyDetermination(title: string, req: TileRequest, req': TileRequest)
    ensures KeyOf(title, req) == KeyOf(title, req') <==> req.res == req'.res && req.bounds == req'.bounds
  {
  }

  /** A hit returns the stored raster and downloads nothing. */
  lemma OpenHit(s: CacheState, title: string, source: TileRequest -> Raster, req: TileRequest)
    requires KeyOf(title, req) in s.files
    ensures Open(s, title, true, source, req) == (s.files[KeyOf(title, req)], s)
  {
  }

  /** A miss calls download_tile exactly once and stores its answer under the key. */
  lemma OpenMiss(s: CacheState, title: string, source: TileRequest -> Raster, req: TileRequest)
    requires KeyOf(title, req) !in s.files
    ensures var r := Open(s, title, true, source, req);
      && r.0 == source(req)
      && r.1.downloads == s.downloads + [req]
      && r.1.files == s.files[KeyOf(title, req) := source(req)]
  {
  }

  /** With cache_tiles off every call downloads and the cache directory is untouched. */
  lemma OpenUncached(s: CacheState, title: string, source: TileRequest -> Raster, req: TileRequest)
    ensures var r := Open(s, title, false, source, req);
      r.0 == source(req) && r.1.downloads == s.downloads + [req] && r.1.files == s.files
  {
  }

  /** Entries under every other key are unchanged, with caching on or off. */
  lemma OpenKeepsOtherKeys(s: CacheState, title: string, cacheTiles: bool, source: TileRequest -> Raster,
                           req: TileRequest, k: CacheKey)
    requires k != KeyOf(title, req)
    ensures var s' := Open(s, title, cacheTiles, source, req).1;
      (k in s'.files <==> k in s.files) && (k in s.files ==> s'.files[k] == s.files[k])
  {
  }

  /** A second call with the same key downloads nothing and returns what the first returned. */
  lemma OpenTwice(s: CacheState, title: string, source: TileRequest -> Raster, req: TileRequest, req': TileRequest)
    requires KeyOf(title, req') == KeyOf(title, req)
    ensures var r1 := Open(s, title, true, source, req);
      var r2 := Open(r1.1, title, true, source, req');
      r2.1 == r1.1 && r2.0 == r1.0
  {
  }

  /** What a call returns does not change by an earlier call on a different key,
      nor by an earlier call with the very same arguments. */
  lemma OpenServedStable(s: CacheState, title: string, cacheTiles: bool, source: TileRequest -> Raster,
                         req: TileRequest, req': TileRequest)
    requires KeyOf(title, req) != KeyOf(title, req') || req == req'
    ensures Open(Open(s, title, cacheTiles, source, req).1, title, cacheTiles, source, req').0
         == Open(s, title, cacheTiles, source, req').0
  {
  }

  // ---------------------------------------------------------------------------
  // Downloads happen at most once per key

  /** Every logged download has its file on disk, and no key was downloaded twice. */
  predicate DownloadedOnce(s: CacheState, title: string) {
    && (forall i :: 0 <= i < |s.downloads| ==> KeyOf(title, s.downloads[i]) in s.files)
    && (forall i, j :: 0 <= i < j < |s.downloads| ==>
          KeyOf(title, s.downloads[i]) != KeyOf(title, s.downloads[j]))
  }

  /** With caching on, open_tile keeps the at-most-one-download-per-key invariant. */
  lemma {:induction false} OpenDownloadsOnce(s: CacheState, title: string, source: TileRequest -> Raster,
                                            req: TileRequest)
    requires DownloadedOnce(s, title)
    ensures DownloadedOnce(Open(s, title, true, source, req).1, title)
  {
    var s' := Open(s, title, true, source, req).1;
    var key := KeyOf(title, req);
    if key !in s.files {
      assert s'.downloads == s.downloads + [req];
      forall i, j | 0 <= i < j < |s'.downloads|
        ensures KeyOf(title, s'.downloads[i]) != KeyOf(title, s'.downloads[j])
      {
        if j == |s.downloads| {
          assert KeyOf(title, s.downloads[i]) in s.files;
        }
      }
    }
  }

  // ---------------------------------------------------------------------------
  // The cache is transparent for an immutable dataset

  /** Every stored file is what download_tile returns for its key at the default size. */
  predicate Coherent(s: CacheState, title: string, source: TileRequest -> Raster) {
    forall k :: k in s.files && k.title == title ==>
      s.files[k] == source(TileRequest(k.bounds, k.res, DefaultSize()))
  }

  /** For requests of the default size, reading through a coherent cache returns exactly
      what download_tile returns, and the cache stays coherent. */
  lemma OpenTransparent(s: CacheState, title: string, cacheTiles: bool, source: TileRequest -> Raster,
                        req: TileRequest)
    requires Coherent(s, title, source) && req.size == DefaultSize()
    ensures var r := Open(s, title, cacheTiles, source, req);
      r.0 == source(req) && Coherent(r.1, title, source)
  {
  }

  /** Because the key leaves out the size, a request of another size is answered with the
      stored raster of the default size whenever that is on disk. */
  lemma SizeIgnoredOnHit(s: CacheState, title: string, source: TileRequest -> Raster, req: TileRequest)
    requires Coherent(s, title, source) && KeyOf(title, req) in s.files
    ensures Open(s, title, true, source, req).0 == source(req.(size := DefaultSize()))
  {
  }

  // ---------------------------------------------------------------------------
  // A run of open_tile calls, as download makes

  /** With caching on, a run of calls keeps the at-most-one-download-per-key invariant. */
  lemma {:induction false} OpenAllDownloadsOnce(s: CacheState, title: string, source: TileRequest -> Raster,
                                               reqs: seq<TileRequest>, n: nat)
    requires n <= |reqs| && DownloadedOnce(s, title)
    ensures DownloadedOnce(OpenAll(s, title, true, source, reqs, n), title)
  {
    if n > 0 {
      OpenAllDownloadsOnce(s, title, source, reqs, n - 1);
      OpenDownloadsOnce(OpenAll(s, title, true, source, reqs, n - 1), title, source, reqs[n - 1]);
    }
  }

  /** The keys of the first n requests. */
  function KeysOf(title: string, reqs: seq<TileRequest>, n: nat): set<CacheKey>
    requires n <= |reqs|
  {
    if n == 0 then {} else KeysOf(title, reqs, n - 1) + {KeyOf(title, reqs[n - 1])}
  }

  /** With caching on, one call adds the request's key to the cache directory and no other. */
  lemma OpenAddsKey(s: CacheState, title: string, source: TileRequest -> Raster, req: TileRequest)
    ensures Open(s, title, true, source, req).1.files.Keys == s.files.Keys + {KeyOf(title, req)}
  {
    assert Open(s, title, true, source, req).1 == Fetch(s, title, source, req);
  }

  /** With caching on, a run of calls leaves a file for every request on disk and adds
      no other file. */
  lemma {:induction false} OpenAllCachesAll(s: CacheState, title: string, source: TileRequest -> Raster,
                                           reqs: seq<TileRequest>, n: nat)
    requires n <= |reqs|
    ensures OpenAll(s, title, true, source, reqs, n).files.Keys == s.files.Keys + KeysOf(title, reqs, n)
  {
    if n > 0 {
      OpenAllCachesAll(s, title, source, reqs, n - 1);
      OpenAddsKey(OpenAll(s, title, true, source, reqs, n - 1), title, source, reqs[n - 1]);
    }
  }

  /** With caching off, a run of calls downloads every request, in order, and leaves the
      cache directory untouched. */
  lemma {:induction false} OpenAllUncached(s: CacheState, title: string, source: TileRequest -> Raster,
                                          reqs: seq<TileRequest>, n: nat)
    requires n <= |reqs|
    ensures OpenAll(s, title, false, source, reqs, n) == CacheState(s.files, s.downloads + reqs[..n])
  {
    if n > 0 {
      OpenAllUncached(s, title, source, reqs, n - 1);
      assert s.downloads + reqs[..n - 1] + [reqs[n - 1]] == s.downloads + reqs[..n];
    }
  }

  /** A run of calls only adds to the cache directory and the download log. */
  lemma {:induction false} OpenAllExtends(s: CacheState, title: string, cacheTiles: bool,
                                         source: TileRequest -> Raster, reqs: seq<TileRequest>, n: nat)
    requires n <= |reqs|
    ensures Extends(s, OpenAll(s, title, cacheTiles, source, reqs, n))
  {
    if n > 0 {
      var prev := OpenAll(s, title, cacheTiles, source, reqs, n - 1);
      OpenAllExtends(s, title, cacheTiles, source, reqs, n - 1);
      ExtendsTransitive(s, prev, Open(prev, title, cacheTiles, source, reqs[n - 1]).1);
    }
  }

  /** A run of calls for other keys does not change what open_tile serves for req. */
  lemma {:induction false} OpenAllServedStable(s: CacheState, title: string, cacheTiles: bool,
                                              source: TileRequest -> Raster, reqs: seq<TileRequest>, n: nat,
                                              req: TileRequest)
    requires n <= |reqs|
    requires forall k :: 0 <= k < n ==> KeyOf(title, reqs[k]) != KeyOf(title, req)
    ensures Open(OpenAll(s, title, cacheTiles, source, reqs, n), title, cacheTiles, source, req).0
         == Open(s, title, cacheTiles, source, req).0
  {
    if n > 0 {
      OpenAllServedStable(s, title, cacheTiles, source, reqs, n - 1, req);
      OpenServedStable(OpenAll(s, title, cacheTiles, source, reqs, n - 1), title, cacheTiles, source, reqs[n - 1], req);
    }
  }
}
