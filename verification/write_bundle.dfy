/**
 The plugin's `writeBundle` hook: once the client environment has written its
 bundle (and so its manifest), every already-emitted `.js` file of the other
 environments under `dist` has its quoted placeholders replaced on disk.
 */
module WriteBundleHook {
  import opened Wrappers
  import opened Text
  import opened Replace
  import opened Plugin
  import opened TransformHook

  /**
   A top-level entry of `dist`: a plain file, or a directory with the files
   that a recursive listing finds under it, by path relative to it.
   */
  datatype Entry = File(contents: string) | Dir(files: map<string, string>)

  /** `readdirSync("dist", { withFileTypes: true })`, by entry name. */
  type Listing = map<string, Entry>

  /** `String(file).endsWith(".js")`. */
  predicate IsScript(path: string) {
    EndsWith(path, ".js")
  }

  /** The sweep visits a top-level entry iff it is a directory not named like the client's. */
  predicate Swept(name: string, entry: Entry, clientDirName: string) {
    entry.Dir? && name != clientDirName
  }

  /** One visited file: rewritten with the manifest iff it is a script holding the placeholder. */
  function PatchFile(path: string, contents: string, manifest: string): (r: string)
    ensures !IsScript(path) || !Contains(contents, Sentinel) ==> r == contents
    ensures IsScript(path) && Contains(contents, Sentinel) ==> r != contents
  {
    if IsScript(path) && Contains(contents, Sentinel) then
      InlineChangesIff(contents, manifest);
      Inline(contents, manifest)
    else contents
  }

  /** Every file of one visited directory. */
  function PatchDir(files: map<string, string>, manifest: string): (r: map<string, string>)
    ensures r.Keys == files.Keys
    ensures forall p :: p in files ==> r[p] == PatchFile(p, files[p], manifest)
  {
    map p | p in files :: PatchFile(p, files[p], manifest)
  }

  /** The loop over the entries of `dist`. */
  function Sweep(entries: Listing, clientDirName: string, manifest: string): (r: Listing)
    ensures r.Keys == entries.Keys
    ensures forall n :: n in entries && !Swept(n, entries[n], clientDirName) ==> r[n] == entries[n]
    ensures forall n :: n in entries && Swept(n, entries[n], clientDirName)
                    ==> r[n] == Dir(PatchDir(entries[n].files, manifest))
  {
    map n | n in entries ::
      if Swept(n, entries[n], clientDirName) then Dir(PatchDir(entries[n].files, manifest)) else entries[n]
  }

  /**
   With a configured directory ending in `/`, every directory entry with a
   non-empty name is visited (file systems give no entry an empty name).
   */
  lemma TrailingSlashSweepsAll(dir: string, n: string, e: Entry)
    requires n != ""
    ensures Swept(n, e, ClientDirName(State(dir + "/"))) <==> e.Dir?
  {
    TrailingSlashNamesNothing(dir);
  }

  /** The hook does work only in the client environment and with a non-empty manifest. */
  predicate Active(env: string, st: State, disk: Disk) {
    env == "client" && Usable(ReadManifest(disk, st))
  }

  /**
   The hook. `env` is `this.environment.name`; `dist` is the listing of the
   `dist` root, `None` when listing it throws (which the hook swallows). The
   result is the tree afterwards. Outside the client environment, without a
   usable manifest or without a `dist` root the tree is left as it is. Otherwise
   the entry names and kinds stay the same; top-level files, the client
   subdirectory, non-scripts and scripts without the placeholder are left
   alone; every other script has all its placeholders substituted.
   */
  function WriteBundle(env: string, st: State, disk: Disk, dist: Option<Listing>): (r: Option<Listing>)
    ensures r.Some? <==> dist.Some?
    ensures !Active(env, st, disk) ==> r == dist
    ensures r.Some? ==> r.value.Keys == dist.value.Keys
    ensures r.Some? ==> forall n :: n in dist.value && !Swept(n, dist.value[n], ClientDirName(st))
                                ==> r.value[n] == dist.value[n]
    ensures r.Some? ==> forall n :: n in dist.value && dist.value[n].Dir?
                                ==> r.value[n].Dir? && r.value[n].files.Keys == dist.value[n].files.Keys
    ensures r.Some? ==> forall n, p :: n in dist.value && dist.value[n].Dir? && p in dist.value[n].files
                                    && (!IsScript(p) || !Contains(dist.value[n].files[p], Sentinel))
                                   ==> r.value[n].files[p] == dist.value[n].files[p]
    ensures r.Some? && Active(env, st, disk) ==>
              forall n, p :: n in dist.value && Swept(n, dist.value[n], ClientDirName(st))
                          && p in dist.value[n].files && IsScript(p) && Contains(dist.value[n].files[p], Sentinel)
                         ==> r.value[n].files[p] == Inline(dist.value[n].files[p], ReadManifest(disk, st).value)
  {
    if env != "client" then dist
    else
      var manifest := ReadManifest(disk, st);
      if !Usable(manifest) then dist
      else
        match dist
        case None => None
        case Some(entries) => Some(Sweep(entries, ClientDirName(st), manifest.value))
  }

  /**
   After an active sweep with a `$`-free manifest that lacks the placeholder,
   no script in a visited directory holds the placeholder any more.
   */
  lemma WriteBundleResolves(env: string, st: State, disk: Disk, dist: Option<Listing>)
    requires Active(env, st, disk) && dist.Some?
    requires '$' !in ReadManifest(disk, st).value && !Contains(ReadManifest(disk, st).value, Sentinel)
    ensures var after := WriteBundle(env, st, disk, dist).value;
      forall n, p :: n in after && Swept(n, after[n], ClientDirName(st)) && p in after[n].files && IsScript(p)
                 ==> !Contains(after[n].files[p], Sentinel)
  {
    var manifest := ReadManifest(disk, st).value;
    var after := WriteBundle(env, st, disk, dist).value;
    forall n, p | n in after && Swept(n, after[n], ClientDirName(st)) && p in after[n].files && IsScript(p)
      ensures !Contains(after[n].files[p], Sentinel)
    {
      var before := dist.value[n].files[p];
      if Contains(before, Sentinel) {
        InlineResolves(before, manifest);
      }
    }
  }

  /** A second pass over a visited directory changes nothing. */
  lemma PatchDirIdempotent(files: map<string, string>, manifest: string)
    requires '$' !in manifest && !Contains(manifest, Sentinel)
    ensures PatchDir(PatchDir(files, manifest), manifest) == PatchDir(files, manifest)
  {
    var once := PatchDir(files, manifest);
    forall p | p in once
      ensures PatchFile(p, once[p], manifest) == once[p]
    {
      if IsScript(p) && Contains(files[p], Sentinel) {
        InlineResolves(files[p], manifest);
      }
    }
  }

  /**
   Idempotence: running the hook again on its own output, with the same
   manifest, leaves the tree as it is, provided the manifest has neither `$`
   nor the placeholder.
   */
  lemma WriteBundleIdempotent(env: string, st: State, disk: Disk, dist: Option<Listing>)
    requires ReadManifest(disk, st).Some? ==>
               '$' !in ReadManifest(disk, st).value && !Contains(ReadManifest(disk, st).value, Sentinel)
    ensures WriteBundle(env, st, disk, WriteBundle(env, st, disk, dist)) == WriteBundle(env, st, disk, dist)
  {
    if Active(env, st, disk) && dist.Some? {
      var manifest := ReadManifest(disk, st).value;
      var name := ClientDirName(st);
      var once := Sweep(dist.value, name, manifest);
      forall n | n in once
        ensures Sweep(once, name, manifest)[n] == once[n]
      {
        if Swept(n, dist.value[n], name) {
          PatchDirIdempotent(dist.value[n].files, manifest);
        }
      }
      assert Sweep(once, name, manifest) == once;
      assert WriteBundle(env, st, disk, Some(once)) == Some(Sweep(once, name, manifest));
    }
  }

  /** One visited directory, file by file as the hook's inner loop writes them back. */
  method PatchDirScan(files: map<string, string>, manifest: string) returns (out: map<string, string>)
    ensures out == PatchDir(files, manifest)
  {
    var replacement := BuildReplacement(manifest);
    out := files;
    var pending := files.Keys;
    while pending != {}
      invariant pending <= files.Keys
      invariant out.Keys == files.Keys
      invariant forall p :: p in pending ==> out[p] == files[p]
      invariant forall p :: p in files && p !in pending ==> out[p] == PatchFile(p, files[p], manifest)
      decreases pending
    {
      var file :| file in pending;
      pending := pending - {file};
      if IsScript(file) {
        var content := out[file];
        if Contains(content, Sentinel) {
          var patched := StringReplaceAllScan(content, Sentinel, replacement);
          out := out[file := patched];
        }
      }
    }
  }

  /** The hook as a sequence of steps, with the outer loop over the entries of `dist`. */
  method WriteBundleScan(env: string, st: State, disk: Disk, dist: Option<Listing>) returns (r: Option<Listing>)
    ensures r == WriteBundle(env, st, disk, dist)
  {
    if env != "client" {
      return dist;
    }
    var manifest := ReadManifest(disk, st);
    if manifest.None? || manifest.value == "" {
      return dist;
    }
    var clientDirName := ClientDirName(st);
    if dist.None? {
      return dist;
    }
    var entries := dist.value;
    var tree := entries;
    var pending := entries.Keys;
    while pending != {}
      invariant pending <= entries.Keys
      invariant tree.Keys == entries.Keys
      invariant forall n :: n in pending ==> tree[n] == entries[n]
      invariant forall n :: n in entries && n !in pending
                  ==> tree[n] == Sweep(entries, clientDirName, manifest.value)[n]
      decreases pending
    {
      var name :| name in pending;
      pending := pending - {name};
      if entries[name].Dir? && name != clientDirName {
        var files := PatchDirScan(entries[name].files, manifest.value);
        tree := tree[name := Dir(files)];
      }
    }
    assert tree == Sweep(entries, clientDirName, manifest.value);
    r := Some(tree);
  }
}
