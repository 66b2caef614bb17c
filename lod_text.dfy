/**
 * The string handling of the paged-LOD tree: splitting a tile path into the
 * folder it lives in and its file name, and the two rewrites every PagedLOD
 * applies to its names when it is (re)initialised (every `+` becomes `%2B`,
 * and the first `_start` is dropped from the file name).
 */
module LodText {
  import opened Wrappers

  // ----- lastIndexOf and the folder/file split -----

  /** JavaScript's `s.lastIndexOf(c)` for a one-character pattern: -1 when absent. */
  function LastIndexOf(s: string, c: char): (r: int)
    ensures -1 <= r < |s|
    ensures r >= 0 ==> s[r] == c
    ensures forall k :: r < k < |s| ==> s[k] != c
    ensures r == -1 <==> c !in s
  {
    if |s| == 0 then -1
    else if s[|s| - 1] == c then |s| - 1
    else
      var r := LastIndexOf(s[..|s| - 1], c);
      assert forall k :: 0 <= k < |s| - 1 ==> s[..|s| - 1][k] == s[k];
      r
  }

  /** Where a tile lives: the folder (ending with `/` unless empty) and the file name. */
  datatype Location = Location(subfolder: string, file: string)

  /**
   * The split done by Ac3dROOT.addURL (with an empty `prefix`) and by
   * PagedLOD.updateSiblingsData for every child path (with the parent's
   * folder as `prefix`): everything up to the last `/` is appended to the
   * folder, the rest is the file name.
   */
  function SplitPath(prefix: string, path: string): (r: Location)
    ensures r.subfolder + r.file == prefix + path
    ensures '/' !in r.file
    ensures |prefix| <= |r.subfolder| && r.subfolder[..|prefix|] == prefix
    ensures '/' in path ==> r.subfolder != [] && r.subfolder[|r.subfolder| - 1] == '/'
    ensures '/' !in path ==> r == Location(prefix, path)
  {
    var i := LastIndexOf(path, '/');
    if i > -1 then
      var r := Location(prefix + path[..i] + "/", path[i + 1..]);
      assert path == path[..i] + "/" + path[i + 1..];
      assert r.subfolder[..|prefix|] == prefix;
      r
    else Location(prefix, path)
  }

  /** Splitting the same path onto a longer folder only prepends to the folder. */
  lemma SplitPathPrefix(prefix: string, path: string)
    ensures SplitPath(prefix, path).file == SplitPath("", path).file
    ensures SplitPath(prefix, path).subfolder == prefix + SplitPath("", path).subfolder
  {
    var i := LastIndexOf(path, '/');
    if i > -1 {
      assert prefix + path[..i] + "/" == prefix + ([] + path[..i] + "/");
    }
  }

  // ----- `+` escaping -----

  /** Number of occurrences of `c` in `s`. */
  function CountOf(s: string, c: char): nat
  {
    if |s| == 0 then 0 else (if s[0] == c then 1 else 0) + CountOf(s[1..], c)
  }

  /** `s.replace(/\+/g, "%2B")`: every plus sign is percent-encoded. */
  function EscapePlus(s: string): (r: string)
    ensures '+' !in r
    ensures |r| == |s| + 2 * CountOf(s, '+')
  {
    if |s| == 0 then ""
    else
      var rest := EscapePlus(s[1..]);
      var r := (if s[0] == '+' then "%2B" else [s[0]]) + rest;
      assert forall k :: 0 <= k < |rest| ==> r[|r| - |rest| + k] == rest[k];
      r
  }

  /** A string without plus signs is left as it is. */
  lemma {:induction false} EscapeKeepsPlain(s: string)
    requires '+' !in s
    ensures EscapePlus(s) == s
  {
    if |s| > 0 {
      assert '+' !in s[1..] by {
        forall k | 0 <= k < |s[1..]| ensures s[1..][k] != '+' {
          assert s[1..][k] == s[k + 1];
        }
      }
      EscapeKeepsPlain(s[1..]);
      assert s == [s[0]] + s[1..];
    }
  }

  /** Escaping twice is escaping once, so re-initialising a pooled PagedLOD is harmless. */
  lemma EscapeIdempotent(s: string)
    ensures EscapePlus(EscapePlus(s)) == EscapePlus(s)
  {
    EscapeKeepsPlain(EscapePlus(s));
  }

  /** Escaping works character by character, so it distributes over concatenation. */
  lemma {:induction false} EscapeConcat(a: string, b: string)
    ensures EscapePlus(a + b) == EscapePlus(a) + EscapePlus(b)
  {
    if |a| > 0 {
      assert (a + b)[1..] == a[1..] + b;
      EscapeConcat(a[1..], b);
    } else {
      assert a + b == b;
    }
  }

  /**
   * A child tile's folder, escaped by the child's own init, is the parent's
   * (already escaped) folder followed by the escaped folder part of the
   * child's path: escaping the parent's part again changes nothing.
   */
  lemma ChildFolder(folder: string, path: string)
    requires '+' !in folder
    ensures EscapePlus(SplitPath(folder, path).subfolder) == folder + EscapePlus(SplitPath("", path).subfolder)
  {
    SplitPathPrefix(folder, path);
    EscapeConcat(folder, SplitPath("", path).subfolder);
    EscapeKeepsPlain(folder);
  }

  // ----- removal of the first `_start` -----

  /** The marker PagedLOD.init strips from file names. */
  const START: string := "_start"

  /** `pat` occurs in `s` at offset `k`. */
  predicate OccursAt(s: string, pat: string, k: int)
  {
    0 <= k && k + |pat| <= |s| && s[k..k + |pat|] == pat
  }

  /** An occurrence in the tail is an occurrence one place further in the whole. */
  lemma OccursShift(s: string, pat: string)
    requires |s| > 0
    ensures forall k :: 1 <= k ==> (OccursAt(s, pat, k) <==> OccursAt(s[1..], pat, k - 1))
  {
    forall k | 1 <= k
      ensures OccursAt(s, pat, k) <==> OccursAt(s[1..], pat, k - 1)
    {
      if k + |pat| <= |s| {
        assert s[1..][k - 1..k - 1 + |pat|] == s[k..k + |pat|];
      }
    }
  }

  /** JavaScript's `s.indexOf(pat)`: the first offset where `pat` occurs. */
  function IndexOf(s: string, pat: string): (r: Option<nat>)
    ensures r.Some? ==> OccursAt(s, pat, r.value)
    ensures forall k :: 0 <= k && (r.None? || k < r.value) ==> !OccursAt(s, pat, k)
    decreases |s|
  {
    if |s| < |pat| then None
    else if s[..|pat|] == pat then Some(0)
    else
      var r := IndexOf(s[1..], pat);
      OccursShift(s, pat);
      match r
      case None => None
      case Some(i) => Some(i + 1)
  }

  /** An occurrence with none before it is the one indexOf finds. */
  lemma IndexOfFirst(s: string, pat: string, p: nat)
    requires OccursAt(s, pat, p)
    requires forall k :: 0 <= k < p ==> !OccursAt(s, pat, k)
    ensures IndexOf(s, pat) == Some(p)
  {
  }

  /** `s.replace("_start", "")`: with a string pattern only the first occurrence goes. */
  function RemoveFirstStart(s: string): (r: string)
    ensures IndexOf(s, START).None? ==> r == s
    ensures IndexOf(s, START).Some? ==> |r| == |s| - |START|
  {
    match IndexOf(s, START)
    case None => s
    case Some(i) => s[..i] + s[i + |START|..]
  }

  /**
   * Dropping the marker from a name whose head holds none gives back the name
   * without it, even when the tail holds more markers: only the first goes.
   * The marker cannot overlap a shifted copy of itself because `_` occurs in
   * it only at the start.
   */
  lemma RemoveStartInverse(x: string, y: string)
    requires IndexOf(x, START).None?
    ensures RemoveFirstStart(x + START + y) == x + y
  {
    var s := x + START + y;
    assert s[|x|..|x| + |START|] == START;
    forall k | 0 <= k < |x| ensures !OccursAt(s, START, k) {
      assert !OccursAt(x, START, k);
      NoEarlierStart(x, y, k);
    }
    IndexOfFirst(s, START, |x|);
    assert s[..|x|] == x;
    assert s[|x| + |START|..] == y;
  }

  /** No marker starts inside `x` in `x + START + y` when `x` holds none itself. */
  lemma NoEarlierStart(x: string, y: string, k: nat)
    requires k < |x| && !OccursAt(x, START, k)
    ensures !OccursAt(x + START + y, START, k)
  {
    var s := x + START + y;
    if k + |START| <= |x| {
      assert !OccursAt(x, START, k);
      assert s[k..k + |START|] == x[k..k + |START|];
    } else {
      var j := |x| - k;
      assert s[k..k + |START|][j] == s[|x|] == '_';
      assert START[j] != '_';
    }
  }

  /** The file name a PagedLOD stores: pluses escaped, then the first marker removed. */
  function NodeUrl(url: string): (r: string)
    ensures '+' !in r
  {
    var e := EscapePlus(url);
    RemoveKeepsChars(e);
    RemoveFirstStart(e)
  }

  /** Removing the marker introduces no character that was not there. */
  lemma RemoveKeepsChars(s: string)
    ensures forall c :: c in RemoveFirstStart(s) ==> c in s
  {
    match IndexOf(s, START)
    case None =>
    case Some(i) =>
      var r := RemoveFirstStart(s);
      forall k | 0 <= k < |r| ensures r[k] in s {
        if k < i { assert r[k] == s[k]; } else { assert r[k] == s[k + |START|]; }
      }
  }

  /** Normalising a stored name again changes nothing once it holds no marker. */
  lemma NodeUrlStable(url: string)
    requires IndexOf(NodeUrl(url), START).None?
    ensures NodeUrl(NodeUrl(url)) == NodeUrl(url)
  {
    EscapeKeepsPlain(NodeUrl(url));
  }
}
