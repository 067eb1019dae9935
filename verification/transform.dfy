/**
 The plugin's `transform` hook: while a server-side module is compiled, the
 quoted placeholder in its code is replaced by the manifest expression, if a
 client manifest is already on disk.
 */
module TransformHook {
  import opened Wrappers
  import opened Text
  import opened Replace
  import opened Plugin

  /**
   The manifest substitution both hooks perform: every quoted placeholder is
   replaced by the wrapped manifest, with the engine's `$`-expansion of the
   replacement string.
   */
  function Inline(code: string, manifest: string): string {
    StringReplaceAll(code, Sentinel, BuildReplacement(manifest))
  }

  /** Substitution changes the code exactly when the code holds the quoted placeholder. */
  lemma InlineChangesIff(code: string, manifest: string)
    ensures Inline(code, manifest) != code <==> Contains(code, Sentinel)
  {
    StringReplaceAllChangesIff(code, Sentinel, BuildReplacement(manifest));
  }

  /**
   A manifest without `$` and without the placeholder leaves no placeholder
   behind: every occurrence is replaced and none is formed across a seam.
   */
  lemma InlineResolves(code: string, manifest: string)
    requires '$' !in manifest && !Contains(manifest, Sentinel)
    ensures !Contains(Inline(code, manifest), Sentinel)
  {
    var rep := BuildReplacement(manifest);
    StringReplaceAllIsLiteral(code, Sentinel, rep);
    NoResidual(code, Sentinel, rep);
  }

  /**
   The hook itself. `ssr` is `options?.ssr` (absent options count as false);
   `None` is the hook returning nothing, `Some(c)` is `{ code: c, map: null }`.
   It reports a change exactly for server compilations of code holding the
   quoted placeholder when a non-empty manifest can be read; the cheap
   pre-check for the bare token never decides on its own.
   */
  function Transform(st: State, disk: Disk, code: string, ssr: bool): (r: Option<string>)
    ensures r.Some? <==> ssr && Usable(ReadManifest(disk, st)) && Contains(code, Sentinel)
    ensures r.Some? ==> r.value == Inline(code, ReadManifest(disk, st).value) && r.value != code
  {
    if !ssr then None
    else if !Contains(code, Token) then
      SentinelHoldsToken(code);
      None
    else
      var manifest := ReadManifest(disk, st);
      if !Usable(manifest) then None
      else
        var newCode := Inline(code, manifest.value);
        InlineChangesIff(code, manifest.value);
        if newCode != code then Some(newCode) else None
  }

  /** A client-side compilation is never touched. */
  lemma TransformSkipsClient(st: State, disk: Disk, code: string)
    ensures Transform(st, disk, code, false) == None
  {
  }

  /**
   Code that carries the bare token but not the quoted placeholder passes the
   pre-check and is still reported unchanged.
   */
  lemma TransformBareTokenOnly(st: State, disk: Disk, code: string)
    requires Contains(code, Token) && !Contains(code, Sentinel)
    ensures Transform(st, disk, code, true) == None
  {
  }

  /** When the hook does rewrite, a `$`-free manifest leaves no placeholder in the module. */
  lemma TransformResolves(st: State, disk: Disk, code: string, ssr: bool)
    requires Transform(st, disk, code, ssr).Some?
    requires '$' !in ReadManifest(disk, st).value && !Contains(ReadManifest(disk, st).value, Sentinel)
    ensures !Contains(Transform(st, disk, code, ssr).value, Sentinel)
  {
    InlineResolves(code, ReadManifest(disk, st).value);
  }

  /**
   The engine expands `$` sequences in the replacement string, and the
   manifest is pasted into that string unescaped: a manifest holding `$$`
   (with no other `$`) is inlined as if it held `$` there, which is a
   different manifest.
   */
  lemma DollarsCollapse(a: string, b: string)
    requires '$' !in a && '$' !in b
    ensures Inline(Sentinel, a + "$$" + b) == BuildReplacement(a + "$" + b)
    ensures BuildReplacement(a + "$" + b) != BuildReplacement(a + "$$" + b)
  {
    var manifest := a + "$$" + b;
    LonePlaceholder(manifest);
    var head, tail := ReplacementHead + a, b + ReplacementTail;
    RegroupAround(ReplacementHead, a, "$$", b, ReplacementTail);
    RegroupAround(ReplacementHead, a, "$", b, ReplacementTail);
    assert '$' !in ReplacementHead && '$' !in ReplacementTail;
    EscapedDollar(head, tail);
  }

  /**
   Moving the inner text's ends onto the outer text; kept apart from
   `DollarsCollapse`, where the same step roughly doubles the solver's work.
   */
  lemma RegroupAround(h: string, a: string, mid: string, b: string, t: string)
    ensures h + (a + mid + b) + t == (h + a) + mid + (b + t)
  {
  }

  /** A code consisting of the placeholder alone becomes the expanded replacement. */
  lemma LonePlaceholder(manifest: string)
    ensures Inline(Sentinel, manifest) == Expand(BuildReplacement(manifest), Sentinel, "", "")
  {
    var rep := BuildReplacement(manifest);
    assert OccursAt(Sentinel, Sentinel, 0);
    assert Sentinel[..0] == "" && Sentinel[|Sentinel|..] == "";
    assert StringReplaceFrom(Sentinel, |Sentinel|, Sentinel, rep) == "";
  }

  /** `$$` between `$`-free text expands to a single `$`. */
  lemma EscapedDollar(head: string, tail: string)
    requires '$' !in head && '$' !in tail
    ensures Expand(head + "$$" + tail, Sentinel, "", "") == head + "$" + tail
  {
    assert head + "$$" + tail == head + ("$$" + tail);
    ExpandLiteralHead(head, "$$" + tail, Sentinel, "", "");
    assert ("$$" + tail)[2..] == tail;
  }

  /**
   The substitution as evidently intended: the wrapped manifest goes in
   verbatim, as a replacer function `() => replacement` would make the engine
   do.
   */
  function InlineVerbatim(code: string, manifest: string): string {
    ReplaceAll(code, Sentinel, BuildReplacement(manifest))
  }

  /** Verbatim substitution puts the manifest itself in place of a lone placeholder, whatever it holds. */
  lemma InlineVerbatimEmbeds(manifest: string)
    ensures InlineVerbatim(Sentinel, manifest) == BuildReplacement(manifest)
    ensures ParseReplacement(InlineVerbatim(Sentinel, manifest)) == Some(manifest)
  {
    var rep := BuildReplacement(manifest);
    assert Sentinel[..|Sentinel|] == Sentinel;
    assert ReplaceAll(Sentinel[|Sentinel|..], Sentinel, rep) == "";
    assert rep + "" == rep;
  }

  /** Verbatim substitution resolves every placeholder for any manifest that lacks one, `$` or not. */
  lemma InlineVerbatimResolves(code: string, manifest: string)
    requires !Contains(manifest, Sentinel)
    ensures !Contains(InlineVerbatim(code, manifest), Sentinel)
  {
    NoResidual(code, Sentinel, BuildReplacement(manifest));
  }

  /** The code as written agrees with the intended substitution on every `$`-free manifest. */
  lemma InlineIsVerbatimWithoutDollar(code: string, manifest: string)
    requires '$' !in manifest
    ensures Inline(code, manifest) == InlineVerbatim(code, manifest)
  {
    StringReplaceAllIsLiteral(code, Sentinel, BuildReplacement(manifest));
  }
}
