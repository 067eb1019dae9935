/**
 The state and helpers shared by the `inject-manifest` plugin's hooks: the
 placeholder token, the client output directory captured by the `config`
 hook, reading the client manifest, and wrapping it into the module-shaped
 expression that replaces the placeholder.
 */
module Plugin {
  import opened Wrappers
  import opened Text
  import Paths

  /** The quoted placeholder that the server bundle carries until the manifest is inlined. */
  const Sentinel: string := "\"__VITE_MANIFEST_CONTENT__\""

  /** The placeholder without its quotes; the transform hook's pre-check looks for this. */
  const Token: string := "__VITE_MANIFEST_CONTENT__"

  /** The client output directory before (or without) the `config` hook. */
  const DefaultClientOutDir: string := "dist/client"

  /** Where Vite writes the client manifest, relative to the client output directory. */
  const ManifestFile: string := ".vite/manifest.json"

  /** The text around the manifest in the replacement expression. */
  const ReplacementHead: string := "{ \"__manifest__\": { default: "
  const ReplacementTail: string := " } }"

  /** Every quoted placeholder holds the bare token, so the pre-check never rejects one. */
  lemma SentinelHoldsToken(s: string)
    ensures Contains(s, Sentinel) ==> Contains(s, Token)
  {
    if Contains(s, Sentinel) {
      var i :| 0 <= i <= |s| && OccursAt(s, Sentinel, i);
      var w := s[i..i + |Sentinel|];
      assert w == Sentinel == "\"" + Token + "\"";
      forall k | 0 <= k < |Token|
        ensures s[i + 1 + k] == Token[k]
      {
        assert s[i + 1 + k] == w[k + 1] == Sentinel[k + 1] == Token[k];
      }
      assert s[i + 1..i + 1 + |Token|] == Token;
      assert OccursAt(s, Token, i + 1);
    }
  }

  // The part of Vite's user configuration the plugin reads:
  // `environments.client.build.outDir`, each level optional.
  datatype BuildOptions = BuildOptions(outDir: Option<string>)
  datatype EnvironmentOptions = EnvironmentOptions(build: Option<BuildOptions>)
  datatype Environments = Environments(client: Option<EnvironmentOptions>)
  datatype UserConfig = UserConfig(environments: Option<Environments>)

  /** The plugin instance's closure: the captured client output directory. */
  datatype State = State(clientOutDir: string)

  /** A freshly created plugin instance. */
  function Init(): (st: State)
    ensures st.clientOutDir == DefaultClientOutDir
  {
    State(DefaultClientOutDir)
  }

  /** `config.environments?.client?.build?.outDir`: `None` as soon as a level is missing. */
  function ConfiguredOutDir(cfg: UserConfig): Option<string> {
    match cfg.environments
    case None => None
    case Some(envs) =>
      match envs.client
      case None => None
      case Some(client) =>
        match client.build
        case None => None
        case Some(build) => build.outDir
  }

  /**
   The `config` hook: captures the configured client output directory, falling
   back to the default with `??` (so an explicitly empty string is kept). The
   previous capture plays no part.
   */
  function ConfigHook(st: State, cfg: UserConfig): (st': State)
    ensures cfg.environments.Some? && cfg.environments.value.client.Some?
            && cfg.environments.value.client.value.build.Some?
            && cfg.environments.value.client.value.build.value.outDir.Some?
            ==> st'.clientOutDir == cfg.environments.value.client.value.build.value.outDir.value
    ensures (cfg.environments.None? || cfg.environments.value.client.None?
             || cfg.environments.value.client.value.build.None?
             || cfg.environments.value.client.value.build.value.outDir.None?)
            ==> st'.clientOutDir == DefaultClientOutDir
  {
    State(ConfiguredOutDir(cfg).GetOr(DefaultClientOutDir))
  }

  /** The name of the `dist` subdirectory the sweep skips: `clientOutDir.split("/").pop()`. */
  function ClientDirName(st: State): string {
    Paths.LastSegment(st.clientOutDir)
  }

  /** The manifest's path; `resolve` against the working directory is not modelled. */
  function ManifestPath(st: State): string {
    st.clientOutDir + "/" + ManifestFile
  }

  /** The readable files, by path; a path that is absent stands for any read failure. */
  type Disk = map<string, string>

  /**
   `readManifest()`: the manifest's text, or `None` when reading it fails for
   any reason. It never fails itself.
   */
  function ReadManifest(disk: Disk, st: State): (r: Option<string>)
    ensures r.Some? <==> ManifestPath(st) in disk
    ensures r.Some? ==> r.value == disk[ManifestPath(st)]
  {
    if ManifestPath(st) in disk then Some(disk[ManifestPath(st)]) else None
  }

  /** `if (!manifestContent) return;` lets through only a defined, non-empty string. */
  predicate Usable(manifest: Option<string>) {
    manifest.Some? && manifest.value != ""
  }

  /** Recovers the manifest text from a replacement expression, if `r` has that shape. */
  function ParseReplacement(r: string): Option<string> {
    if |r| >= |ReplacementHead| + |ReplacementTail|
       && r[..|ReplacementHead|] == ReplacementHead
       && r[|r| - |ReplacementTail|..] == ReplacementTail
    then Some(r[|ReplacementHead|..|r| - |ReplacementTail|])
    else None
  }

  /** The wrapping text itself holds no placeholder. */
  lemma WrappingHasNoSentinel()
    ensures !Contains(ReplacementHead, Sentinel) && !Contains(ReplacementTail, Sentinel)
  {
    assert ReplacementHead[18] == '{' && '{' !in Sentinel;
    forall i | 0 <= i <= |ReplacementHead| && i <= 18
      ensures !OccursAt(ReplacementHead, Sentinel, i)
    {
      ForeignCharBlocks(ReplacementHead, Sentinel, 18, i);
    }
  }

  /**
   `buildReplacement(content)`: the manifest text embedded verbatim and
   unchecked between the fixed head and tail. The result begins with `{` and
   ends with `}`, neither of which occurs in the placeholder, and it holds the
   placeholder (or a `$`) exactly when the manifest text does.
   */
  function BuildReplacement(content: string): (r: string)
    ensures ParseReplacement(r) == Some(content)
    ensures |r| == |content| + |ReplacementHead| + |ReplacementTail|
    ensures r[0] == '{' && r[|r| - 1] == '}'
    ensures r[0] !in Sentinel && r[|r| - 1] !in Sentinel
    ensures Contains(r, Sentinel) <==> Contains(content, Sentinel)
    ensures '$' in r <==> '$' in content
  {
    WrappedShape(content);
    WrappedSentinel(content);
    WrappedDollar(content);
    ReplacementHead + content + ReplacementTail
  }

  /** The wrapped text parses back and has its braces at both ends. */
  lemma WrappedShape(content: string)
    ensures var r := ReplacementHead + content + ReplacementTail;
      && ParseReplacement(r) == Some(content)
      && r[0] == '{' && r[|r| - 1] == '}'
      && '{' !in Sentinel && '}' !in Sentinel
  {
    var r := ReplacementHead + content + ReplacementTail;
    assert r[..|ReplacementHead|] == ReplacementHead;
    assert r[|r| - |ReplacementTail|..] == ReplacementTail;
    assert r[|ReplacementHead|..|r| - |ReplacementTail|] == content;
  }

  /** The wrapping neither adds a placeholder nor forms one across its seams. */
  lemma WrappedSentinel(content: string)
    ensures Contains(ReplacementHead + content + ReplacementTail, Sentinel) <==> Contains(content, Sentinel)
  {
    assert ReplacementTail[0] == ' ' && ' ' !in Sentinel;
    ContainsConcat(ReplacementHead + content, ReplacementTail, Sentinel);
    assert ReplacementHead[|ReplacementHead| - 1] == ' ';
    ContainsConcat(ReplacementHead, content, Sentinel);
    WrappingHasNoSentinel();
  }

  /** The wrapping adds no `$`. */
  lemma WrappedDollar(content: string)
    ensures '$' in ReplacementHead + content + ReplacementTail <==> '$' in content
  {
    var r := ReplacementHead + content + ReplacementTail;
    assert '$' !in ReplacementHead && '$' !in ReplacementTail;
    if '$' in r {
      var k :| 0 <= k < |r| && r[k] == '$';
      if |ReplacementHead| <= k < |ReplacementHead| + |content| {
        assert content[k - |ReplacementHead|] == '$';
      }
    }
    if '$' in content {
      var k :| 0 <= k < |content| && content[k] == '$';
      assert r[k + |ReplacementHead|] == '$';
    }
  }

  /** Parsing is the inverse of building: a parsed expression is rebuilt exactly. */
  lemma ParseBuildsBack(r: string, content: string)
    requires ParseReplacement(r) == Some(content)
    ensures BuildReplacement(content) == r
  {
    assert r == r[..|ReplacementHead|] + r[|ReplacementHead|..|r| - |ReplacementTail|] + r[|r| - |ReplacementTail|..];
  }

  /** Distinct manifests give distinct replacement expressions. */
  lemma BuildReplacementInjective(a: string, b: string)
    requires BuildReplacement(a) == BuildReplacement(b)
    ensures a == b
  {
    assert Some(a) == ParseReplacement(BuildReplacement(a)) == Some(b);
  }

  /** Without a setting, the sweep skips the `client` subdirectory of `dist`. */
  lemma DefaultClientDirName()
    ensures ClientDirName(Init()) == "client"
  {
    var s := DefaultClientOutDir;
    assert s[5..] == "client";
    Paths.LastSegmentUnique(s, "client");
  }

  /**
   A configured directory with a trailing slash names no subdirectory: the
   last `/`-segment is empty (see `WriteBundleHook.TrailingSlashSweepsAll`
   for what the sweep then visits).
   */
  lemma TrailingSlashNamesNothing(dir: string)
    ensures ClientDirName(State(dir + "/")) == ""
  {
    var s := dir + "/";
    assert s[|s| - 1] == '/';
    Paths.LastSegmentUnique(s, "");
  }

  /**
   The repository's own configuration sets `environments.client.build.outDir`
   to "dist/client": the same state as no setting at all, so (by
   `DefaultClientDirName`) the sweep skips `dist/client`, and the manifest is
   read from "dist/client/.vite/manifest.json".
   */
  lemma RepositoryConfiguration(cfg: UserConfig)
    requires cfg == UserConfig(Some(Environments(Some(EnvironmentOptions(Some(BuildOptions(Some("dist/client"))))))))
    ensures ConfigHook(Init(), cfg) == Init()
    ensures ManifestPath(ConfigHook(Init(), cfg)) == "dist/client/.vite/manifest.json"
  {
  }
}
