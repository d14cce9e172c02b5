/** What the extension learns from one parsed file, and how it turns an
    import specifier into the paths it then marks (src/extension.ts:86-112). */
module Resolution {
  import opened Text
  import opened Paths

  /** An import declaration: its source string and whether it is
      `import type ...` (the declaration's importKind is "type"). */
  datatype Import = Import(specifier: string, typeOnly: bool)

  /** The parts of a file's syntax tree the extension looks at: the value of
      every directive the traversal meets, and its import declarations in
      source order. */
  datatype Parsed = Parsed(directives: seq<string>, imports: seq<Import>)

  // One entry of the alias table: a tsconfig `paths` key such as "@app/*"
  // and the absolute path its first target resolved to, such as
  // "/project/src/*". The table is kept in the order `for...in` visits it.
  datatype Alias = Alias(pattern: string, target: string)

  /** Appended to every resolved specifier. */
  const Extension: string := ".tsx"

  const ClientDirective: string := "use client"

  predicate HasClientDirective(t: Parsed) {
    ClientDirective in t.directives
  }

  // `alias.replace(/\/\*/, "")`: the first "/*" of the pattern removed.
  function AliasPrefix(pattern: string): string {
    RemoveFirst(pattern, "/*")
  }

  /** `aliases[alias].replace("*", "")`: the first "*" of the target removed. */
  function AliasBase(target: string): string {
    RemoveFirst(target, "*")
  }

  predicate AliasMatches(a: Alias, spec: string) {
    StartsWith(spec, AliasPrefix(a.pattern))
  }

  /** The alias the loop over the table stops at (`break` after the first match). */
  function FirstAlias(spec: string, aliases: seq<Alias>): (r: Option<nat>)
    ensures r.Some? ==> r.value < |aliases| && AliasMatches(aliases[r.value], spec)
    ensures r.Some? ==> forall j :: 0 <= j < r.value ==> !AliasMatches(aliases[j], spec)
    ensures r.None? ==> forall j :: 0 <= j < |aliases| ==> !AliasMatches(aliases[j], spec)
    decreases |aliases|
  {
    if aliases == [] then None
    else if AliasMatches(aliases[0], spec) then Some(0)
    else
      match FirstAlias(spec, aliases[1..])
      case Some(k) => Some(k + 1)
      case None => None
  }

  /** `nodepath.resolve(nodepath.dirname(importer), source) + ".tsx"` */
  function FileTarget(importer: string, source: string): string {
    Resolve(Dirname(importer), source) + Extension
  }

  /** The alias branch: the specifier with the alias prefix replaced by the
      alias base, then resolved like a relative specifier. */
  function AliasTarget(importer: string, spec: string, a: Alias): string {
    FileTarget(importer, ReplaceFirst(spec, AliasPrefix(a.pattern), AliasBase(a.target)))
  }

  /** Every path one import specifier leads the marking to, in order: the
      "." branch, the "/" branch, then the first matching alias. The three
      tests are independent `if`s, so a specifier may yield two paths. */
  function ImportTargets(importer: string, spec: string, aliases: seq<Alias>): (r: seq<string>)
    ensures |r| <= 2
    ensures forall k :: 0 <= k < |r| ==> IsAbsolute(r[k]) && EndsWith(r[k], Extension)
    ensures r == [] <==>
      !StartsWith(spec, ".") && !StartsWith(spec, "/") &&
      forall j :: 0 <= j < |aliases| ==> !AliasMatches(aliases[j], spec)
  {
    (if StartsWith(spec, ".") then [FileTarget(importer, spec)] else [])
    + (if StartsWith(spec, "/") then [FileTarget(importer, spec)] else [])
    + match FirstAlias(spec, aliases)
      case Some(k) => [AliasTarget(importer, spec, aliases[k])]
      case None => []
  }

  /** The targets of all value imports of a file, in traversal order. */
  function EdgeTargets(importer: string, imports: seq<Import>, aliases: seq<Alias>): seq<string>
    decreases |imports|
  {
    if imports == [] then []
    else
      (if imports[0].typeOnly then [] else ImportTargets(importer, imports[0].specifier, aliases))
      + EdgeTargets(importer, imports[1..], aliases)
  }

  /** A path is an edge target exactly when some import that is not
      type-only resolves to it. */
  lemma {:induction false} EdgeTargetsFromValueImports(importer: string, imports: seq<Import>, aliases: seq<Alias>, t: string)
    ensures t in EdgeTargets(importer, imports, aliases) <==>
      exists k :: 0 <= k < |imports| && !imports[k].typeOnly &&
        t in ImportTargets(importer, imports[k].specifier, aliases)
    decreases |imports|
  {
    if imports != [] {
      EdgeTargetsFromValueImports(importer, imports[1..], aliases, t);
      assert forall k :: 1 <= k < |imports| ==> imports[k] == imports[1..][k - 1];
      if exists k :: 0 <= k < |imports| && !imports[k].typeOnly && t in ImportTargets(importer, imports[k].specifier, aliases) {
        var k :| 0 <= k < |imports| && !imports[k].typeOnly && t in ImportTargets(importer, imports[k].specifier, aliases);
        if k > 0 {
          assert imports[1..][k - 1] == imports[k];
        }
      }
    }
  }

  lemma {:induction false} EdgeTargetsConcat(importer: string, a: seq<Import>, b: seq<Import>, aliases: seq<Alias>)
    ensures EdgeTargets(importer, a + b, aliases) == EdgeTargets(importer, a, aliases) + EdgeTargets(importer, b, aliases)
    decreases |a|
  {
    if a == [] {
      assert a + b == b;
    } else {
      assert (a + b)[0] == a[0];
      assert (a + b)[1..] == a[1..] + b;
      EdgeTargetsConcat(importer, a[1..], b, aliases);
    }
  }

  lemma TypeOnlyNoTargets(importer: string, imp: Import, aliases: seq<Alias>)
    requires imp.typeOnly
    ensures EdgeTargets(importer, [imp], aliases) == []
  {
    assert [imp][1..] == [];
  }

  /** Dropping a type-only import leaves the edges exactly as they were:
      such an import never leads the marking anywhere. */
  lemma TypeOnlyImportIgnored(importer: string, imports: seq<Import>, k: nat, aliases: seq<Alias>)
    requires k < |imports| && imports[k].typeOnly
    ensures EdgeTargets(importer, imports[..k] + imports[k + 1..], aliases) == EdgeTargets(importer, imports, aliases)
  {
    var pre, post := imports[..k], imports[k + 1..];
    assert imports == pre + ([imports[k]] + post);
    EdgeTargetsConcat(importer, pre, [imports[k]] + post, aliases);
    EdgeTargetsConcat(importer, [imports[k]], post, aliases);
    EdgeTargetsConcat(importer, pre, post, aliases);
    TypeOnlyNoTargets(importer, imports[k], aliases);
  }

  /** A relative specifier yields exactly one path: the specifier resolved
      against the importer's directory, with ".tsx" appended whatever
      extension it already had. For an importer at a normal absolute path,
      the specifier's segments are applied one by one to the importer's
      parent segments. */
  lemma RelativeSpecifierTarget(importer: string, spec: string, aliases: seq<Alias>)
    requires StartsWith(spec, ".")
    requires forall j :: 0 <= j < |aliases| ==> !AliasMatches(aliases[j], spec)
    ensures ImportTargets(importer, spec, aliases) == [Resolve(Dirname(importer), spec) + ".tsx"]
    ensures forall segs :: |segs| >= 1 && IsNormal(segs) && importer == "/" + Join(segs) ==>
      ImportTargets(importer, spec, aliases) == ["/" + Join(Fold(segs[..|segs| - 1], Split(spec))) + ".tsx"]
  {
    assert spec[0] == '.';
    assert !StartsWith(spec, "/");
    assert !IsAbsolute(spec);
    forall segs | |segs| >= 1 && IsNormal(segs) && importer == "/" + Join(segs)
      ensures Resolve(Dirname(importer), spec) == "/" + Join(Fold(segs[..|segs| - 1], Split(spec)))
    {
      DirnameResolve(segs, spec);
    }
  }

  /** A specifier starting with "/" is resolved from the file system root:
      `path.resolve` lets an absolute argument win, so the importer's
      directory plays no part. */
  lemma RootSpecifierTarget(importer: string, spec: string, aliases: seq<Alias>)
    requires StartsWith(spec, "/")
    ensures ImportTargets(importer, spec, aliases)[0] == "/" + Join(Normalize(spec)) + ".tsx"
    ensures forall segs :: IsNormal(segs) && spec == "/" + Join(segs) ==>
      ImportTargets(importer, spec, aliases)[0] == spec + ".tsx"
  {
    assert spec[0] == '/';
    assert !StartsWith(spec, ".");
    forall segs | IsNormal(segs) && spec == "/" + Join(segs)
      ensures Normalize(spec) == segs
    {
      NormalizeAbsolute(segs);
    }
  }

  /** The "/" test and the alias loop are separate `if`s too: a "/"
      specifier that an alias prefix also matches yields two paths, the
      specifier resolved from the root and then the alias target. */
  lemma RootAndAliasTargets(importer: string, spec: string, aliases: seq<Alias>, k: nat)
    requires StartsWith(spec, "/")
    requires k < |aliases| && AliasMatches(aliases[k], spec)
    requires forall j :: 0 <= j < k ==> !AliasMatches(aliases[j], spec)
    ensures ImportTargets(importer, spec, aliases) ==
      ["/" + Join(Normalize(spec)) + ".tsx",
       Resolve(Dirname(importer), AliasBase(aliases[k].target) + spec[|AliasPrefix(aliases[k].pattern)|..]) + ".tsx"]
  {
    assert spec[0] == '/';
    assert !StartsWith(spec, ".");
    assert FirstAlias(spec, aliases) == Some(k);
    ReplacePrefix(spec, AliasPrefix(aliases[k].pattern), AliasBase(aliases[k].target));
  }

  /** The first alias in table order whose prefix the specifier starts with
      is the one used: that prefix is swapped for the alias base and the
      result resolved, ".tsx" appended; later aliases are not tried. */
  lemma AliasSpecifierTarget(importer: string, spec: string, aliases: seq<Alias>, k: nat)
    requires !StartsWith(spec, ".") && !StartsWith(spec, "/")
    requires k < |aliases| && AliasMatches(aliases[k], spec)
    requires forall j :: 0 <= j < k ==> !AliasMatches(aliases[j], spec)
    ensures ImportTargets(importer, spec, aliases) ==
      [Resolve(Dirname(importer), AliasBase(aliases[k].target) + spec[|AliasPrefix(aliases[k].pattern)|..]) + ".tsx"]
  {
    assert FirstAlias(spec, aliases) == Some(k);
    ReplacePrefix(spec, AliasPrefix(aliases[k].pattern), AliasBase(aliases[k].target));
  }

  // The "." test and the alias loop are separate `if`s: a relative
  // specifier that an alias prefix also matches (the pattern "./*" has
  // prefix ".") yields two paths, the relative target and then the alias
  // target.
  lemma RelativeAndAliasTargets(importer: string, spec: string, aliases: seq<Alias>, k: nat)
    requires StartsWith(spec, ".")
    requires k < |aliases| && AliasMatches(aliases[k], spec)
    requires forall j :: 0 <= j < k ==> !AliasMatches(aliases[j], spec)
    ensures ImportTargets(importer, spec, aliases) ==
      [Resolve(Dirname(importer), spec) + ".tsx",
       Resolve(Dirname(importer), AliasBase(aliases[k].target) + spec[|AliasPrefix(aliases[k].pattern)|..]) + ".tsx"]
  {
    assert spec[0] == '.';
    assert !StartsWith(spec, "/");
    assert FirstAlias(spec, aliases) == Some(k);
    ReplacePrefix(spec, AliasPrefix(aliases[k].pattern), AliasBase(aliases[k].target));
  }

  // A pattern "P/*" whose P holds no "/*" has prefix P.
  lemma WildcardPatternPrefix(p: string)
    requires forall j :: 0 <= j < |p| ==> !OccursAt(p + "/*", "/*", j)
    ensures AliasPrefix(p + "/*") == p
  {
    RemoveTrailingPattern(p, "/*");
  }
}
