/** The directory tree the project scan walks (src/extension.ts:42-61) and
    the files it hands to `isClientComponent`. */
module ProjectTree {
  import opened Text
  import opened Paths

  /** A directory entry as `readdir(..., { withFileTypes: true })` lists it. */
  datatype Entry =
    | File(name: string)
    | Dir(name: string, entries: seq<Entry>)
    | UnlistableDir(name: string)   // a directory whose own listing fails
    | Other(name: string)           // neither a file nor a directory

  /** `nodepath.join(folder, name)` for an absolute folder and a plain entry name. */
  function EntryPath(folder: string, name: string): string {
    Resolve(folder, name)
  }

  /** Anything under a "pages" directory is skipped. */
  predicate IsExcluded(path: string) {
    Contains(path, "/pages/")
  }

  predicate IsComponentName(name: string) {
    EndsWith(name, ".tsx") || EndsWith(name, ".jsx")
  }

  /** The paths the scan of a folder's entries calls `isClientComponent` on. */
  function Candidates(folder: string, entries: seq<Entry>): set<string>
    decreases entries
  {
    if entries == [] then {}
    else Candidates(folder, entries[..|entries| - 1]) + EntryCandidates(folder, entries[|entries| - 1])
  }

  function EntryCandidates(folder: string, e: Entry): set<string>
    decreases e
  {
    var path := EntryPath(folder, e.name);
    if IsExcluded(path) then {}
    else
      match e
      case File(name) => if IsComponentName(name) then {path} else {}
      case Dir(_, entries) => Candidates(path, entries)
      case UnlistableDir(_) => {}
      case Other(_) => {}
  }

  /** Every entry name is a plain name, as directory listings give them. */
  predicate WellNamed(entries: seq<Entry>)
    decreases entries
  {
    forall k :: 0 <= k < |entries| ==>
      IsName(entries[k].name) && (entries[k].Dir? ==> WellNamed(entries[k].entries))
  }

  /** Every candidate is a ".tsx" or ".jsx" path outside any "pages" directory. */
  lemma {:induction false} CandidateShape(folder: string, entries: seq<Entry>, f: string)
    requires WellNamed(entries)
    requires f in Candidates(folder, entries)
    ensures !IsExcluded(f) && (EndsWith(f, ".tsx") || EndsWith(f, ".jsx"))
    decreases entries
  {
    var n := |entries|;
    if f in Candidates(folder, entries[..n - 1]) {
      assert WellNamed(entries[..n - 1]) by {
        forall k | 0 <= k < n - 1 ensures entries[..n - 1][k] == entries[k] { }
      }
      CandidateShape(folder, entries[..n - 1], f);
    } else {
      EntryCandidateShape(folder, entries[n - 1], f);
    }
  }

  lemma {:induction false} EntryCandidateShape(folder: string, e: Entry, f: string)
    requires IsName(e.name) && (e.Dir? ==> WellNamed(e.entries))
    requires f in EntryCandidates(folder, e)
    ensures !IsExcluded(f) && (EndsWith(f, ".tsx") || EndsWith(f, ".jsx"))
    decreases e
  {
    var path := EntryPath(folder, e.name);
    match e
    case File(name) =>
      assert f == path;
      if EndsWith(name, ".tsx") {
        ResolveNameSuffix(folder, name, ".tsx");
      } else {
        ResolveNameSuffix(folder, name, ".jsx");
      }
    case Dir(_, entries) =>
      CandidateShape(path, entries, f);
  }

  lemma CandidatesSnoc(folder: string, entries: seq<Entry>, i: nat)
    requires i < |entries|
    ensures Candidates(folder, entries[..i + 1]) == Candidates(folder, entries[..i]) + EntryCandidates(folder, entries[i])
  {
    assert entries[..i + 1][..i] == entries[..i];
  }

  lemma {:induction false} EntryInCandidates(folder: string, entries: seq<Entry>, i: nat)
    requires i < |entries|
    ensures EntryCandidates(folder, entries[i]) <= Candidates(folder, entries)
    decreases |entries|
  {
    var n := |entries|;
    if i < n - 1 {
      EntryInCandidates(folder, entries[..n - 1], i);
    }
  }
}
