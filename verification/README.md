# inject-manifest: a Dafny model

This project models the `inject-manifest` Vite plugin of the site's build
configuration (`injectManifest` in `vite.config.ts`). The plugin is about
manifest injection: the server (worker) bundle holds the placeholder
`"__VITE_MANIFEST_CONTENT__"`, quotes included. The plugin replaces every
occurrence with the expression
`{ "__manifest__": { default: <manifest> } }`. Here `<manifest>` is the raw
text of the client build's `.vite/manifest.json`.

The plugin can do this in two places. The build may run client-first or
server-first, so it needs both:

- **`transform`.** It runs for each module compiled for the server. It
  rewrites the code in memory when a manifest from an earlier client build is
  already on disk.
- **`writeBundle`.** It runs after the client environment has written its
  output. It sweeps the `dist` directory on disk and patches every `.js` file
  that was already emitted. It skips top-level plain files and the
  subdirectory named after the client output directory.

Both hooks share three helpers:

- `readManifest` reads the manifest file and turns any failure into
  "unavailable".
- `buildReplacement` wraps the manifest text.
- The `config` hook captures the client output directory.

The Dafny modules follow that structure:

| module | file | contents |
|---|---|---|
| `Wrappers` | wrappers.dfy | `Option`; `None` is JavaScript's `undefined` |
| `Text` | text.dfy | `includes`, `endsWith` and `indexOf` on strings, and facts about where occurrences can lie |
| `Replace` | replace.dfy | what `replace(/…/g, s)` and `replaceAll(p, s)` compute for a literal pattern, including the `$`-expansion of the replacement string; the literal replacement it reduces to; the engine's search loop |
| `Paths` | paths.dfy | `split("/")`, its inverse `join`, and `pop()` of the result |
| `Plugin` | plugin.dfy | the placeholder; the plugin state captured by `config`; `readManifest`; `buildReplacement` and its inverse |
| `TransformHook` | transform.dfy | the `transform` hook and the substitution both hooks share |
| `WriteBundleHook` | write_bundle.dfy | the output tree, the sweep and the `writeBundle` hook, each as a function and as a loop |
| `Ordering` | ordering.dfy | the two hooks together: order independence for one manifest, staleness across two, and graceful degradation |

The model is functional:

- Strings are `seq<char>`.
- The readable files form a map from path to contents. A missing path stands
  for any read failure.
- The `dist` tree is an `Option` of a map from entry name to entry. An entry
  is a plain file or a directory. A directory holds a map from relative path
  to contents. `None` means listing `dist` threw.
- Each hook is a pure function:
  - `config` returns the new plugin state.
  - `transform` returns `None` when it returns nothing, and `Some(code)`
    when it returns `{ code, map: null }`.
  - `writeBundle` returns the tree after the sweep.

Two details of the code are kept as written:

- `transform`'s pre-check looks for the bare token, but it replaces the
  quoted one. Code that holds only the bare token is reported unchanged,
  because of the `newCode !== code` guard.
- The sweep root is always `dist`. Only the name of the skipped subdirectory
  comes from the configured client directory, and it is its last `/`-segment.
  A configured directory ending in `/` therefore names no subdirectory, and
  the sweep visits every directory of `dist` (`Plugin.TrailingSlashNamesNothing`,
  `WriteBundleHook.TrailingSlashSweepsAll`).

Both `String.prototype.replace` with a global regular expression and
`String.prototype.replaceAll` with a string treat their replacement argument
as a template. The rules are GetSubstitution, section 22.1.3.19.1 of
ECMAScript 2024:

- `$$` becomes `$`.
- `$&`, `` $` `` and `$'` insert the match, the text before it and the text
  after it.

The manifest is pasted into that template unescaped. So the model expands
`$` sequences exactly as the engine does (`Replace.Expand`). The properties
that need a literal substitution say so: they require a `$`-free manifest.
See "## Findings".

## Model

| member | source | states |
|---|---|---|
| `Replace.Expand` | vite.config.ts:73-76 | the engine's expansion of the replacement template; a template without `$` is inserted unchanged, and its first character survives when it is not `$` |
| `Replace.StringReplaceAllIsLiteral` | vite.config.ts:110 | without `$` in the template, the engine's `replaceAll` is the literal leftmost, non-overlapping replacement of every occurrence |
| `Replace.StringReplaceAllChangesIff` | vite.config.ts:73-78 | when the template's first character is neither `$` nor the pattern's first character, the result differs from the input exactly when the input contains the pattern |
| `Replace.NoResidual` | vite.config.ts:73-76 | after literal replacement no occurrence is left or newly formed, if the replacement lacks the pattern and starts and ends with characters the pattern lacks |
| `Replace.StringReplaceAllScan` | vite.config.ts:110 | the engine's `replaceAll` loop (search with `indexOf` from the end of the last match, copy the gap, append the expanded template) computes the same string as the recursive definition |
| `Text.IndexOfFindsContained` | vite.config.ts:109-110 | `includes` holds exactly when `indexOf` finds a position, so the guard and the replacement agree on whether there is a match |
| `Paths.Split` | vite.config.ts:92 | `split("/")` yields at least one piece; no piece contains `/`; joining the pieces with `/` gives the input back |
| `Paths.SplitJoin` | vite.config.ts:92 | splitting a `/`-join of `/`-free pieces gives the pieces back |
| `Paths.LastSegment` | vite.config.ts:92 | `split("/").pop()` is the `/`-free suffix of the directory that is preceded by `/` or by nothing |
| `Paths.LastSegmentUnique` | vite.config.ts:92 | that suffix is unique, so it fully determines the name of the skipped subdirectory |
| `Plugin.SentinelHoldsToken` | vite.config.ts:66-68 | every text holding the quoted placeholder also holds the bare token that the transform pre-check looks for |
| `Plugin.Init` | vite.config.ts:36 | a new plugin instance starts with the client output directory "dist/client" |
| `Plugin.ConfigHook` | vite.config.ts:59-63 | the captured directory is `environments.client.build.outDir` when every level of it is present, and "dist/client" when any level is missing |
| `Plugin.DefaultClientDirName` | vite.config.ts:92 | with the default directory the sweep skips the subdirectory `client` |
| `Plugin.TrailingSlashNamesNothing` | vite.config.ts:92 | a configured directory ending in `/` yields the empty name for the skipped subdirectory |
| `Plugin.RepositoryConfiguration` | vite.config.ts:59-63 | the repository's own `outDir` setting gives the same state as no setting, and the manifest path "dist/client/.vite/manifest.json" |
| `Plugin.ReadManifest` | vite.config.ts:40-51 | the read never fails: it gives the manifest file's contents when the file can be read, and `None` for any failure |
| `Plugin.BuildReplacement` | vite.config.ts:53-55 | the manifest text is embedded verbatim and unchecked, and can be parsed back; the result starts with `{` and ends with `}`, neither of which is in the placeholder; it contains the placeholder, or a `$`, exactly when the manifest does |
| `Plugin.ParseBuildsBack` | vite.config.ts:53-55 | every text of the replacement's shape is `buildReplacement` of the text it wraps, so parsing and building are inverse |
| `Plugin.BuildReplacementInjective` | vite.config.ts:53-55 | different manifests give different replacement expressions |
| `TransformHook.InlineChangesIff` | vite.config.ts:73-78 | the substitution changes the code exactly when the code holds the quoted placeholder, whatever the manifest |
| `TransformHook.InlineResolves` | vite.config.ts:73-76 | with a manifest that has no `$` and no placeholder, no placeholder is left after substitution |
| `TransformHook.Transform` | vite.config.ts:66-81 | the hook reports a change exactly for a server compilation, with a non-empty manifest on disk, of code holding the quoted placeholder; the new code is the substituted code and differs from the input |
| `TransformHook.TransformSkipsClient` | vite.config.ts:67 | a client compilation is never rewritten |
| `TransformHook.TransformBareTokenOnly` | vite.config.ts:68-80 | any code that holds the bare token but not the quoted placeholder passes the pre-check and is still reported unchanged, whatever the manifest |
| `TransformHook.TransformResolves` | vite.config.ts:73-80 | a rewritten module holds no placeholder when the manifest has neither `$` nor the placeholder |
| `TransformHook.LonePlaceholder` | vite.config.ts:73-76 | code that is only the placeholder becomes the expanded replacement |
| `TransformHook.EscapedDollar` | vite.config.ts:73-76 | `$$` inside otherwise `$`-free replacement text expands to a single `$` |
| `TransformHook.DollarsCollapse` | vite.config.ts:73-76 | a manifest that holds `$$` and no other `$` is inlined as the replacement expression of the manifest with `$` in its place, which differs from its own |
| `TransformHook.InlineVerbatimEmbeds` | vite.config.ts:53-76 | substituting verbatim puts the wrapping of the manifest itself in place of a lone placeholder, for every manifest, and the manifest parses back out |
| `TransformHook.InlineVerbatimResolves` | vite.config.ts:73-76 | verbatim substitution leaves no placeholder for any manifest without one, with or without `$` |
| `TransformHook.InlineIsVerbatimWithoutDollar` | vite.config.ts:73-76 | on a `$`-free manifest the code's substitution and the verbatim one are equal |
| `WriteBundleHook.PatchFile` | vite.config.ts:106-111 | a file that is not `.js`, or has no placeholder, keeps its contents; any other file gets new contents |
| `WriteBundleHook.PatchDir` | vite.config.ts:104-112 | every listed file of a visited directory is patched on its own, and no file appears or disappears |
| `WriteBundleHook.Sweep` | vite.config.ts:101-113 | entries that are not directories, and the client subdirectory, are kept as they are; every other directory is patched file by file |
| `WriteBundleHook.TrailingSlashSweepsAll` | vite.config.ts:92-102 | with a configured directory ending in `/`, an entry with a non-empty name is visited exactly when it is a directory |
| `WriteBundleHook.WriteBundle` | vite.config.ts:84-114 | the hook leaves the tree as it is outside the client environment, without a non-empty manifest, or when `dist` cannot be listed; it never adds or removes an entry or a file and never changes an entry's kind; top-level files, the client subdirectory, non-`.js` files and files without the placeholder are left as they are; every other `.js` file gets all its placeholders substituted |
| `WriteBundleHook.WriteBundleResolves` | vite.config.ts:101-113 | after an active sweep with a `$`-free, placeholder-free manifest, no `.js` file in a visited directory holds the placeholder |
| `WriteBundleHook.PatchDirIdempotent` | vite.config.ts:105-112 | patching a directory twice with the same such manifest gives the same files as patching it once |
| `WriteBundleHook.WriteBundleIdempotent` | vite.config.ts:84-114 | running the hook on its own output with the same such manifest changes nothing |
| `WriteBundleHook.PatchDirScan` | vite.config.ts:104-112 | the inner loop, reading each file, testing `includes` and writing back the engine's `replaceAll`, ends with the files `PatchDir` describes |
| `WriteBundleHook.WriteBundleScan` | vite.config.ts:84-114 | the hook's statements, with the outer loop over the entries of `dist`, give the tree `WriteBundle` describes |
| `Ordering.Emitted` | vite.config.ts:78-80 | the emitted server module is the code the transform hook returned when it returned one, and the input code otherwise |
| `Ordering.OrderIndependentFile` | vite.config.ts:66-111 | for a `$`-free, placeholder-free manifest, patching a server script gives the same text whether the transform hook already inlined the manifest or not, and leaves no placeholder |
| `Ordering.OrderIndependent` | vite.config.ts:66-114 | when both hooks read the same `$`-free, placeholder-free manifest, a server script in a swept directory ends up the same whether the transform hook inlined it (manifest already on disk) or the sweep did (manifest written later), and no placeholder is left |
| `Ordering.StaleManifestKept` | vite.config.ts:66-111 | when `transform` inlined an older `$`-free, placeholder-free manifest still on disk, the later sweep, whatever manifest it reads, leaves the emitted script with the older manifest |
| `Ordering.NoManifestKeepsPlaceholder` | vite.config.ts:46-88 | with no manifest on disk neither hook changes anything, so the placeholder stays in the emitted code |

## Findings

| source | as written | input that shows it | evidently intended | confidence | as-written member | corrected member |
|---|---|---|---|---|---|---|
| vite.config.ts:73-76 | the manifest text goes unescaped into the replacement string of `replace(/…/g, …)` and `replaceAll(…, …)`, and both treat that string as a `$`-pattern template | a manifest containing `$$` and no other `$` (for example a module key `src/$$.ts`) is inlined with `$` there; `$&` re-inserts the placeholder itself | the manifest embedded verbatim, for example by passing `() => replacement` as the replacer | certain as to behaviour, by ECMAScript's GetSubstitution; rare in practice; not executed | `TransformHook.DollarsCollapse` | `TransformHook.InlineVerbatimEmbeds` |

Both hooks keep the code's behaviour (`TransformHook.Inline`), because the
model follows the code. The intended behaviour is `TransformHook.InlineVerbatim`.
It embeds every manifest (`InlineVerbatimEmbeds`) and resolves every
placeholder (`InlineVerbatimResolves`) without a `$` restriction.
`InlineIsVerbatimWithoutDollar` shows that the two agree on `$`-free
manifests. The properties proved of the hooks (resolution, idempotence,
order independence) are the intended ones under that proviso.

## Left out

- TransformHook.TransformResolves: requires a `$`-free manifest, because the engine's `$`-expansion (see "## Findings") can re-insert the placeholder.
- WriteBundleHook.WriteBundleResolves: requires a `$`-free manifest, for the same reason.
- WriteBundleHook.WriteBundleIdempotent: requires a `$`-free manifest, for the same reason; with `$&` in the manifest a second sweep rewrites the file again.
- WriteBundleHook.PatchDirIdempotent: requires a `$`-free manifest, for the same reason.
- Ordering.OrderIndependentFile: requires a `$`-free manifest, for the same reason.
- Ordering.OrderIndependent: requires a `$`-free manifest, for the same reason.
- Ordering.OrderIndependent: assumes both hooks read the same manifest. When the server builds first over an earlier client build, the two manifests differ and the script keeps the older one (`Ordering.StaleManifestKept`; see the staleness line below).
- Path resolution: `process.cwd()` and `path.resolve` are not modelled. The manifest path is the configured directory joined with "/.vite/manifest.json". The sweep root is the fixed `dist` tree passed in.
- Failures inside the sweep: the source catches only the listing of `dist`. The recursive listing of a worker directory, the reading of each file and the writing back (`writeFileSync`) are not caught. The model treats all three as total over the given tree, so it has no exception path for them, for example a directory whose name ends in `.js`, or a file deleted mid-sweep.
- Directory entries of the recursive listing: only files are modelled. `isDirectory()` is a property of the entry (symbolic links are not modelled).
- Listing order: the loop methods visit entries and files in an arbitrary order. Each file's new contents depend only on its own old contents, so the order does not matter.
- The manifest file lives under the client directory and is a `.json` file. The sweep never writes it, so the model reads it from a separate map of readable files.
- The `map: null` part of the transform result, the unused module id `_id`, and text decoding (`"utf-8"`): strings are sequences of characters.
- The `(config as any)` cast: a non-string `outDir` value is not modelled.
- Evaluation of the inlined expression: the model checks the expression's text (shape, verbatim embedding, parse-back), not what the JavaScript runtime evaluates it to. The manifest's JSON is never parsed, as in the source.
- Hook scheduling and concurrency across environments belong to Vite. The `Ordering` module composes the hooks in sequence only.
- Staleness when the client is rebuilt after the server bundle already inlined an older manifest. The source does not handle it either; `Ordering.StaleManifestKept` states the outcome.
- `ssrReload` (vite.config.ts:13-23): a dev-server reload message.
- The `defineConfig` object (vite.config.ts:118-197): static configuration data. Only its `outDir` setting is used, in `Plugin.RepositoryConfiguration`.
- src/index.ts, src/client.ts and scripts/reset-password.mjs are not part of this model. They are an entry-point wrapper, a client entry, and a one-shot password-reset script built on randomness, the clock and a shell command.
