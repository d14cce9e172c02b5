# Client-component classification, modelled in Dafny

The extension in `src/extension.ts` decides, for each React component file of
a Next.js project, whether it is a client component. A file is client when it
carries the `"use client"` directive, or when a client file imports it,
directly or transitively. The model covers the engine that computes this:

- the classification cache `isClientComponentCache` and the cycle-guard
  stack `checkingStack`. These are the fields `cache` (a map) and `stack` (a
  sequence) of the class `Classifier.Session`;
- `isClientComponent` (`Session.IsClientComponent`): a cached answer is
  returned as is. Otherwise the file is read and its directives are scanned
  (`ContainsClientDirective`). A file without the directive is recorded as
  server. A file with it is handed to the marking;
- the nested `markComponentAsClient`, modelled as three methods that call
  each other:
  - `Session.MarkAsClient` is the guard: a path already on the stack is
    left alone;
  - `Session.Visit` pushes the path, records it as client, reads it and
    finally splices it out;
  - `Session.MarkImports` is the import visitor, which marks every edge
    target in order;
- the resolution of an import specifier (module `Resolution`):
  - the `"."` branch and the `"/"` branch;
  - the first matching entry of the alias table;
  - `".tsx"` appended in every branch;
  - `path.resolve`/`path.dirname` on POSIX paths (module `Paths`);
- `scanProjectForClientComponents` (`Session.Scan`, `Session.ScanEntry`) over
  a given directory tree (module `ProjectTree`).

The file system and the Babel parser become one value, `ImportGraph.Project`.
It maps each path to `Some(parsed)`: the directive values met anywhere in the
syntax tree, and the import declarations with their specifier and whether
they are `import type`. A path maps to `None` when reading or parsing it
throws. The alias table is an ordered sequence of (pattern, resolved target)
pairs, in the order `for...in` visits them. From a project the model derives
its import graph. `Project.Graph` is the definition: it maps each readable
file to the targets of its imports, in traversal order. `Project.GraphEdge`
characterises the edges in terms of the imports: an edge runs from a
readable file to a path exactly when one of its imports that is not
`import type` resolves to that path, and every such path is absolute and
ends in `".tsx"`.

What is proved, in the system's own terms:

- **Exact marking.** `markComponentAsClient(u)` records as client exactly
  the paths reachable from `u` along import edges without passing through a
  path already on the stack. Nothing else in the cache changes. Afterwards
  the stack is the old stack, followed by the reached paths that could not
  be read: their `splice` never runs, because the read throws first.
- **Cycle guard.** A path already on the stack changes nothing.
  `markComponentAsClient` terminates. Pushing a readable path lowers the
  number of readable paths not on the stack. Pushing an unreadable path
  leaves that number unchanged, but such a call makes no further call: its
  read throws before the traversal starts.
- **`isClientComponent`.** There is one case each for:
  - a cached path;
  - a read failure, which leaves no entry;
  - a file without the directive: exactly that path becomes `false`;
  - a file with the directive: it and everything reachable from it become
    `true`, and no other entry changes.

  Entries are never removed and never go from client to server.
- **The cache means something.** Between calls, the invariant
  `Project.Consistent` holds:
  - client entries are closed under import edges;
  - every client entry is reachable from a file carrying the directive;
  - server entries are readable files without it;
  - the stack holds only unreadable files marked client.

  `ClientExactly` follows: once every file with the directive has been
  classified, the cache says client of exactly the files that carry the
  directive or are transitively imported by one that does.
- **Resolution.**
  - Type-only imports never produce an edge.
  - A relative specifier resolves against the importer's directory.
  - `./name` names a sibling and `../name` a sibling of the parent
    directory.
  - A `"/"` specifier resolves from the file-system root.
  - The first alias in table order whose pattern, without its first `"/*"`,
    prefixes the specifier is used, and later ones are not tried.
  - Every target is absolute and ends in `".tsx"`, whatever extension the
    specifier already had.
- **Scan.** Every readable `.tsx`/`.jsx` file outside any `/pages/`
  directory ends up classified. Every entry the scan adds is reachable from
  such a file. A scan over a tree whose readable candidates are all
  classified already changes neither the cache nor the stack, so running
  the scan twice in a row is the same as running it once.

Behaviour of the code that the model keeps as written, though it may
surprise a reader of the extension:

- A specifier starting with `"/"` is passed to `path.resolve` after the
  importer's directory. An absolute argument wins there, so the specifier is
  resolved from the file-system root. It is not resolved against the
  importer's directory, nor against the project root.
- Only `ImportDeclaration` nodes are followed. Re-exports (`export ... from`)
  create no edge.
- `".tsx"` is appended unconditionally, also to specifiers that already
  carry an extension (`"./a.tsx"` leads to `a.tsx.tsx`).
- The three tests are independent `if`s. A specifier that starts with `"."`
  or `"/"` and also starts with an alias prefix yields two targets.
- An alias pattern `"@/*"` has prefix `"@"`, which `"@mui/material"` also
  starts with. Such a specifier is redirected into the alias directory.
- A file that cannot be read but is reached by the marking is recorded as
  client and stays on the stack for the rest of the session.

## Model

| member | source | states |
|---|---|---|
| Text.FirstIndex | src/extension.ts:48 | the position found is an occurrence of the pattern and no earlier position is; none is returned only when the pattern occurs nowhere (`includes`, and the first-occurrence `replace`) |
| Text.IndexOf | src/extension.ts:116 | `indexOf` gives -1 exactly when the element is absent, otherwise a position holding it with no earlier one |
| Text.ReplacePrefix | src/extension.ts:107 | replacing a pattern the string starts with swaps that prefix for the replacement |
| Text.RemoveTrailingPattern | src/extension.ts:105 | removing the first "/*" from a pattern written once at its end leaves what precedes it |
| Paths.Normalize | src/extension.ts:94 | the segments of a resolved path contain no "", "." or ".." and no '/' |
| Paths.Resolve | src/extension.ts:94 | `path.resolve` always gives an absolute path |
| Paths.ResolveIdempotent | src/extension.ts:94 | resolving an already resolved path again, from any directory, gives it back unchanged |
| Paths.DirnameAbsolute | src/extension.ts:94 | `path.dirname` of an absolute normal path drops exactly its last segment |
| Paths.DirnameResolve | src/extension.ts:94 | a relative specifier is applied segment by segment to the directory of the importing file |
| Paths.SiblingResolve | src/extension.ts:93-95 | `./name` imported from a file names the file's sibling `name` |
| Paths.ParentResolve | src/extension.ts:93-95 | `../name` imported from a file names `name` in the parent of the file's directory |
| Paths.ResolveName | src/extension.ts:47 | joining a plain entry name onto a folder appends it as the last segment |
| Paths.ResolveNameSuffix | src/extension.ts:47-54 | the joined path of an entry ends with the entry's name, so a ".tsx" name gives a ".tsx" path |
| Resolution.FirstAlias | src/extension.ts:103-112 | the alias chosen matches the specifier and no alias before it does; none is chosen only when no alias matches |
| Resolution.ImportTargets | src/extension.ts:91-112 | at most two targets, each absolute and ending in ".tsx"; no target exactly when the specifier starts with neither "." nor "/" and matches no alias |
| Resolution.EdgeTargetsFromValueImports | src/extension.ts:85-114 | a path is an edge target of a file exactly when some import of it that is not type-only resolves to that path |
| Resolution.TypeOnlyImportIgnored | src/extension.ts:87-89 | removing an `import type` declaration leaves the file's edge targets exactly as they were |
| Resolution.RelativeSpecifierTarget | src/extension.ts:93-96 | a "." specifier that matches no alias yields exactly `resolve(dirname(importer), spec) + ".tsx"`; for an importer at a normal absolute path, that is the specifier's segments applied one by one to the importer's parent segments, plus ".tsx" |
| Resolution.RootSpecifierTarget | src/extension.ts:98-101 | the first target of a "/" specifier is the specifier normalised from the root plus ".tsx", whatever the importer; an already normal absolute specifier is kept as it is, plus ".tsx" |
| Resolution.AliasSpecifierTarget | src/extension.ts:103-111 | a specifier that starts with neither "." nor "/" and whose first matching alias is k yields exactly one target: alias k's base followed by the rest of the specifier, resolved, plus ".tsx" |
| Resolution.RelativeAndAliasTargets | src/extension.ts:93-111 | a "." specifier that an alias prefix also matches yields two targets: the relative one, then the one through the first matching alias |
| Resolution.RootAndAliasTargets | src/extension.ts:98-111 | a "/" specifier that an alias prefix also matches yields two targets: the specifier normalised from the root, then the one through the first matching alias |
| Resolution.WildcardPatternPrefix | src/extension.ts:105-106 | the prefix of a pattern "P/*" is P when P holds no "/*" |
| ImportGraph.Project.GraphEdge | src/extension.ts:78-114 | an edge runs from p to v exactly when p is readable and one of its imports that is not `import type` resolves to v; every edge ends at an absolute ".tsx" path |
| ImportGraph.Project.ClientExactly | src/extension.ts:65 | once every file carrying the directive is classified, a path is cached as client exactly when it carries the directive or is transitively imported by a file that does |
| ProjectTree.CandidateShape | src/extension.ts:48-55 | every path the scan classifies ends in ".tsx" or ".jsx" and does not contain "/pages/" |
| ProjectTree.EntryInCandidates | src/extension.ts:45-56 | the paths one entry contributes are among the folder's candidates |
| Classifier.CoveredEntry | src/extension.ts:45-56 | when all of a folder's readable candidates are classified, so are those of each of its entries |
| Classifier.ContainsClientDirective | src/extension.ts:126-136 | the visitor's flag ends up raised exactly when "use client" is among the directives |
| Classifier.MeasureDrops | src/extension.ts:71-74 | pushing a readable path not yet on the stack lowers the number of readable paths off the stack |
| Classifier.GrownOnStack | src/extension.ts:67-69 | marking a path that is on the stack reaches nothing and changes nothing |
| Classifier.GrownUnreadable | src/extension.ts:71-80 | marking an unreadable path records it as client and leaves it pushed |
| Classifier.IndexAbove | src/extension.ts:116 | the `indexOf` before the splice finds the entry pushed on entry, above the caller's stack |
| Classifier.UnpushReach | src/extension.ts:116 | splicing u out after marking its targets completes a marking of exactly what u reaches |
| Classifier.MarkStep | src/extension.ts:85-114 | after the i-th target is marked, the targets so far are covered as if each had been marked from the stack the traversal began with |
| Classifier.GrownMonotone | src/extension.ts:73 | a marking never removes an entry and never turns client into server |
| Classifier.GrownWiden | src/extension.ts:138-139 | when the stack holds only unreadable paths already cached as client, a marking from u that avoids the stack leaves cache and stack as a marking of everything reachable from u would |
| Classifier.MarkedFromRoot | src/extension.ts:138-139 | after the marking from a client root, every path reachable from it is client, every added path is reachable from it, and other entries are unchanged |
| Classifier.ConsistentAfterClient | src/extension.ts:138-139 | marking from a file that carries the directive keeps the cache consistent with the project |
| Classifier.ConsistentAfterServer | src/extension.ts:140-142 | recording an uncached readable file without the directive as server keeps the cache consistent |
| Classifier.ReachedFromOne | src/extension.ts:55 | classifying one file adds only paths reachable from it |
| Classifier.ScanStep | src/extension.ts:45-60 | after one more entry, the readable candidates so far are classified and every added path is reached from one of them |
| Classifier.Session.constructor | src/extension.ts:9-10 | the session starts with an empty cache and an empty stack, which are consistent |
| Classifier.Session.MarkAsClient | src/extension.ts:66-117 | the paths reachable from u without touching the stack become client and nothing else changes; the stack gains exactly the unreadable ones among them; a path on the stack changes nothing; a readable path is off the stack afterwards |
| Classifier.Session.Visit | src/extension.ts:71-116 | push, record as client, mark every target, splice: the same effect as MarkAsClient for a path not on the stack, and an unreadable path stays pushed |
| Classifier.Session.MarkImports | src/extension.ts:85-114 | marking the targets in order reaches what any target reaches from the stack the traversal began with |
| Classifier.Session.IsClientComponent | src/extension.ts:119-145 | a cached answer changes nothing; a read failure returns nothing and changes nothing; a file without the directive becomes exactly `false`; a file with it becomes `true` and so does every path reachable from it; entries never disappear or turn client to server; consistency is kept |
| Classifier.Session.Scan | src/extension.ts:42-61 | afterwards every readable candidate is classified, every added path is reached from a candidate, and consistency is kept; when every readable candidate was classified already, nothing changes |
| Classifier.Session.ScanEntry | src/extension.ts:46-59 | a directory is scanned and a ".tsx"/".jsx" file outside "/pages/" is classified, with the same guarantees for that entry's candidates, including that nothing changes when they were all classified already |

## Left out

- The VS Code glue (src/extension.ts:164-215) is not modelled: activation, the status bar, commands, `showErrorMessage` and `showInformationMessage`. This includes the error message the scan shows for a failed entry (src/extension.ts:58). The model only continues with the next entry.
- `checkIfNextProject` (src/extension.ts:147-162) reads and parses `package.json`: I/O and configuration.
- `getTsConfigPathAliases` (src/extension.ts:12-37) reads `tsconfig.json`. The resolved alias table is a parameter of the project instead.
- Babel's `parse` and `traverse` are replaced by the `Parsed` record (directive values and import declarations). The parser is a foreign component.
- File reads (`readFileSync`, `readFile`) become lookups in one fixed project map, so edits to files during a session are not modelled. In the program the cache is never invalidated: a file edited after it was classified keeps its first entry through every later `extension.scan`. Likewise, a path left on the stack after a failed read stays there, and keeps blocking the marking, even once the file can be read.
- `readdir` becomes a given `Entry` tree. A failing listing below the top is the entry kind `UnlistableDir`, which the scan skips. A failure to list the top-level folder, which the caller sees as a rejected promise, is not modelled.
- Promises and `async` scheduling are not modelled: the model runs one scan or one `isClientComponent` call at a time, to completion. `markComponentAsClient` contains no `await`, so each marking does run to completion once started. Overlapping scans are not modelled. The activation scan (src/extension.ts:179) is not awaited, and the `extension.scan` command (src/extension.ts:203-209) can start another scan while it runs. The two can interleave at the awaits of src/extension.ts:43, :53, :55 and :123. One consequence: scan A finds X uncached (src/extension.ts:119) and waits for its read. Meanwhile scan B marks X client as an import of a client file. A then finds no directive in X and writes `false` (src/extension.ts:141). A client entry has turned into a server entry, which the model's guarantees exclude for a single scan.
- Windows paths are not modelled. Neither is the dependence of `path.resolve` on the working directory: a relative folder is resolved as if the working directory were "/".
- Classifier.Session.ScanEntry: joins the entry name with `path.resolve` semantics; `path.join` differs only when the folder is relative, which the scan never passes.
- Special replacement patterns (`$&`, `$1`, ...) in the alias target passed to `String.prototype.replace` are not interpreted. The target is inserted literally.
- `for...in` visits integer-like keys first. The alias table is taken to be already in visiting order.
- The optional parse tree passed to `markComponentAsClient` (src/extension.ts:66, :139) is not a parameter. The root's edges come from the same project map, which gives the same parse.
