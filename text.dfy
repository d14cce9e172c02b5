/** String operations the extension relies on, with JavaScript's meaning:
    `startsWith`, `endsWith`, `includes`, `indexOf` and `replace` with a
    string (or a regular expression without the global flag) as pattern,
    which acts on the FIRST occurrence only. */
module Text {

  datatype Option<+T> = None | Some(value: T)

  predicate StartsWith(s: string, p: string) {
    |p| <= |s| && s[..|p|] == p
  }

  predicate EndsWith(s: string, p: string) {
    |p| <= |s| && s[|s| - |p|..] == p
  }

  /** p occurs in s at position i. */
  predicate OccursAt(s: string, p: string, i: nat) {
    i + |p| <= |s| && s[i..i + |p|] == p
  }

  /** The position of the first occurrence of p in s, if any. */
  function FirstIndex(s: string, p: string): (r: Option<nat>)
    ensures r.Some? ==> OccursAt(s, p, r.value)
    ensures r.Some? ==> forall j :: 0 <= j < r.value ==> !OccursAt(s, p, j)
    ensures r.None? ==> forall j :: 0 <= j <= |s| ==> !OccursAt(s, p, j)
    decreases |s|
  {
    if StartsWith(s, p) then Some(0)
    else if s == [] then None
    else
      var rest := FirstIndex(s[1..], p);
      assert !OccursAt(s, p, 0);
      assert forall j :: 1 <= j <= |s| ==> (OccursAt(s, p, j) <==> OccursAt(s[1..], p, j - 1)) by {
        forall j | 1 <= j <= |s| ensures OccursAt(s, p, j) <==> OccursAt(s[1..], p, j - 1) {
          if j + |p| <= |s| {
            assert s[1..][j - 1..j - 1 + |p|] == s[j..j + |p|];
          }
        }
      }
      match rest
      case Some(i) => Some(i + 1)
      case None => None
  }

  /** `s.includes(p)` */
  predicate Contains(s: string, p: string) {
    FirstIndex(s, p).Some?
  }

  /** `s.replace(p, x)`: the first occurrence of p, if any, becomes x. */
  function ReplaceFirst(s: string, p: string, x: string): string {
    match FirstIndex(s, p)
    case Some(i) => s[..i] + x + s[i + |p|..]
    case None => s
  }

  /** `s.replace(p, "")` */
  function RemoveFirst(s: string, p: string): string {
    ReplaceFirst(s, p, "")
  }

  /** Replacing a prefix that s starts with swaps that prefix for x. */
  lemma ReplacePrefix(s: string, p: string, x: string)
    requires StartsWith(s, p)
    ensures ReplaceFirst(s, p, x) == x + s[|p|..]
  {
    assert OccursAt(s, p, 0);
  }

  // A pattern written once at the end of a string, and nowhere else, is
  // what RemoveFirst takes away: "@app" followed by slash-star gives "@app".
  lemma {:induction false} RemoveTrailingPattern(base: string, p: string)
    requires |p| > 0
    requires forall j :: 0 <= j < |base| ==> !OccursAt(base + p, p, j)
    ensures RemoveFirst(base + p, p) == base
  {
    var s := base + p;
    assert OccursAt(s, p, |base|) by { assert s[|base|..|base| + |p|] == p; }
    assert FirstIndex(s, p) == Some(|base|);
    assert s[..|base|] == base;
    assert s[|base| + |p|..] == [];
  }

  /** `s.indexOf(x)` on an array: -1 when x is absent. */
  function IndexOf<T(==)>(s: seq<T>, x: T): (r: int)
    ensures r >= -1
    ensures r == -1 <==> x !in s
    ensures r >= 0 ==> r < |s| && s[r] == x && x !in s[..r]
    decreases |s|
  {
    if s == [] then -1
    else if s[0] == x then 0
    else
      var k := IndexOf(s[1..], x);
      if k == -1 then -1
      else
        assert s[..k + 1] == [s[0]] + s[1..][..k];
        k + 1
  }
}
