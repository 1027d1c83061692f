/** Store.Open and Repo.Release: how callers reach the handle cache. Opening a directory from disk
    is a parameter; a directory under a user's override never takes part in the cache. */
module RepoStore {
  import opened Strings
  import opened RepoCache

  class Repo {
    var repo: Option<Handle>
    const cache: HandleCache
    const cacheDir: Dir
    const cacheGen: nat

    constructor (h: Handle, cache: HandleCache, dir: Dir, gen: nat)
      ensures repo == Some(h) && this.cache == cache && cacheDir == dir && cacheGen == gen
    {
      repo, this.cache, cacheDir, cacheGen := Some(h), cache, dir, gen;
    }

    /** Returns the handle at most once; a Repo opened outside the cache keeps it. */
    method Release()
      requires cache.IsValid()
      modifies this, cache
      ensures cache.IsValid()
      ensures old(repo).Some? && cacheDir != "" ==>
                repo == None && cache.View() == AfterRelease(old(cache.View()), cacheDir, cacheGen, old(repo).value)
      ensures old(repo).None? || cacheDir == "" ==> repo == old(repo) && cache.View() == old(cache.View())
    {
      if cacheDir == "" || repo.None? {
        return;
      }
      var h := repo.value;
      repo := None;
      cache.Release(cacheDir, cacheGen, h);
    }
  }

  /** A Repo tied to the cache by the directory and generation of the acquire, warm handle first. */
  ghost predicate CheckedOut(r: Repo, cache: HandleCache, dir: Dir, a: Acquired, onDisk: Option<Handle>)
    reads r
  {
    && r.cache == cache && r.cacheDir == dir && r.cacheGen == a.gen
    && r.repo == if a.handle.Some? then a.handle else onDisk
  }

  /** Open: a warm handle when the directory has one idle, else the one `onDisk` brings from disk;
      None when the directory holds no repository. The cache is touched either way. */
  method Open(cache: HandleCache, dir: Dir, overridden: bool, onDisk: Option<Handle>) returns (r: Option<Repo>)
    requires cache.IsValid() && dir != ""
    modifies cache
    ensures cache.IsValid()
    ensures overridden ==> cache.View() == old(cache.View()) && (r.Some? <==> onDisk.Some?)
    ensures overridden && r.Some? ==> r.value.cacheDir == "" && r.value.repo == onDisk
    ensures !overridden ==> cache.View() == AfterAcquire(old(cache.View()), dir).cache
    ensures !overridden ==> (r.Some? <==> AfterAcquire(old(cache.View()), dir).handle.Some? || onDisk.Some?)
    ensures !overridden && r.Some? ==> CheckedOut(r.value, cache, dir, AfterAcquire(old(cache.View()), dir), onDisk)
  {
    if overridden {
      if onDisk.None? {
        return None;
      }
      var outside := new Repo(onDisk.value, cache, "", 0);
      return Some(outside);
    }
    var h, gen := cache.Acquire(dir);
    if h.None? {
      if onDisk.None? {
        return None;
      }
      h := onDisk;
    }
    var repo := new Repo(h.value, cache, dir, gen);
    return Some(repo);
  }
}
