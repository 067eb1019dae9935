/**
 How the two hooks combine over one build: the server module is compiled (and
 possibly rewritten by `transform`) and emitted into a worker directory of
 `dist`; the client environment then finishes and `writeBundle` sweeps `dist`.
 As long as both read the same manifest, whichever of the two finds it first,
 the emitted file ends up the same.
 */
module Ordering {
  import opened Wrappers
  import opened Text
  import opened Plugin
  import opened TransformHook
  import opened WriteBundleHook

  /** The server module as emitted: the transform hook's code if it returned any, else the input. */
  function Emitted(st: State, disk: Disk, code: string): (r: string)
    ensures Transform(st, disk, code, true).Some? ==> r == Transform(st, disk, code, true).value
    ensures Transform(st, disk, code, true).None? ==> r == code
  {
    Transform(st, disk, code, true).GetOr(code)
  }

  /**
   The build writing the server bundle: `dist` with the file at `path` of
   worker directory `dir` holding `contents`, and nothing else changed.
   */
  function Emit(dist: Listing, dir: string, path: string, contents: string): (r: Listing)
    requires dir in dist && dist[dir].Dir?
    ensures r.Keys == dist.Keys && r[dir].Dir? && path in r[dir].files && r[dir].files[path] == contents
    ensures r[dir].files.Keys == dist[dir].files.Keys + {path}
    ensures forall q :: q in dist[dir].files && q != path ==> r[dir].files[q] == dist[dir].files[q]
    ensures forall n :: n in dist && n != dir ==> r[n] == dist[n]
  {
    dist[dir := Dir(dist[dir].files[path := contents])]
  }

  /**
   Order independence for one server script: patching the emitted module gives
   the same text whether the transform hook already inlined the manifest or
   left the placeholder for the sweep, and no placeholder is left either way.
   */
  lemma {:induction false} OrderIndependentFile(st: State, disk: Disk, code: string, path: string)
    requires Usable(ReadManifest(disk, st))
    requires '$' !in ReadManifest(disk, st).value && !Contains(ReadManifest(disk, st).value, Sentinel)
    requires IsScript(path)
    ensures PatchFile(path, Emitted(st, disk, code), ReadManifest(disk, st).value)
         == PatchFile(path, code, ReadManifest(disk, st).value)
    ensures !Contains(PatchFile(path, code, ReadManifest(disk, st).value), Sentinel)
  {
    var manifest := ReadManifest(disk, st).value;
    if Contains(code, Sentinel) {
      InlineResolves(code, manifest);
      assert Emitted(st, disk, code) == Inline(code, manifest);
    } else {
      assert Emitted(st, disk, code) == code;
    }
  }

  /**
   Order independence over the tree, for one manifest read by both hooks: a
   server script emitted into a swept directory ends up identical whether that
   manifest was already on disk when
   the module was compiled (the transform hook inlines it, the sweep finds
   nothing left) or appeared only when the client build finished (the module
   is emitted raw and the sweep inlines it); and no placeholder is left either
   way.
   */
  lemma OrderIndependent(st: State, disk: Disk, code: string, dist: Listing, dir: string, path: string)
    requires Usable(ReadManifest(disk, st))
    requires '$' !in ReadManifest(disk, st).value && !Contains(ReadManifest(disk, st).value, Sentinel)
    requires dir in dist && dist[dir].Dir? && dir != ClientDirName(st) && IsScript(path)
    ensures var inlinedByTransform := WriteBundle("client", st, disk, Some(Emit(dist, dir, path, Emitted(st, disk, code))));
            var inlinedBySweep := WriteBundle("client", st, disk, Some(Emit(dist, dir, path, code)));
      && inlinedByTransform.value[dir].files[path] == inlinedBySweep.value[dir].files[path]
      && !Contains(inlinedBySweep.value[dir].files[path], Sentinel)
  {
    OrderIndependentFile(st, disk, code, path);
  }

  /**
   The worker-first build when an earlier client build is still on disk:
   `transform` inlines that older manifest, and the sweep after the client
   build writes the new one finds no placeholder left, so the emitted script
   keeps the older manifest.
   */
  lemma StaleManifestKept(st: State, oldDisk: Disk, newDisk: Disk, code: string, dist: Listing, dir: string, path: string)
    requires Usable(ReadManifest(oldDisk, st))
    requires '$' !in ReadManifest(oldDisk, st).value && !Contains(ReadManifest(oldDisk, st).value, Sentinel)
    requires Contains(code, Sentinel)
    requires dir in dist && dist[dir].Dir? && IsScript(path)
    ensures var swept := WriteBundle("client", st, newDisk, Some(Emit(dist, dir, path, Emitted(st, oldDisk, code))));
      swept.value[dir].files[path] == Inline(code, ReadManifest(oldDisk, st).value)
  {
    InlineResolves(code, ReadManifest(oldDisk, st).value);
  }

  /**
   Graceful degradation: with no manifest on disk neither hook changes
   anything, so the emitted server code keeps its placeholder.
   */
  lemma NoManifestKeepsPlaceholder(env: string, st: State, disk: Disk, code: string, dist: Option<Listing>)
    requires ReadManifest(disk, st).None?
    ensures Emitted(st, disk, code) == code
    ensures WriteBundle(env, st, disk, dist) == dist
  {
  }
}
