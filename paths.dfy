/** Path and string helpers the package relies on: strings.Replace with an
    empty replacement, strings.TrimPrefix, filepath.Base, and a join that
    names extraction targets. The separator is '/', as on Unix. */
module Paths {
  import opened Common

  const Sep: char := '/'

  /** `pat` occurs in `s` starting at index `i`. */
  predicate OccursAt(s: string, pat: string, i: nat)
  {
    i + |pat| <= |s| && s[i..i + |pat|] == pat
  }

  predicate Contains(s: string, pat: string)
  {
    exists i: nat | i <= |s| :: OccursAt(s, pat, i)
  }

  /** strings.Replace(s, pat, "", -1): every non-overlapping occurrence of
      `pat`, scanning left to right, is removed. An empty `pat` matches only
      empty strings, so nothing is removed. */
  function RemoveAll(s: string, pat: string): (r: string)
    ensures |r| <= |s|
    ensures pat == [] || |s| < |pat| ==> r == s
    decreases |s|
  {
    if pat == [] || |s| < |pat| then s
    else if s[..|pat|] == pat then RemoveAll(s[|pat|..], pat)
    else [s[0]] + RemoveAll(s[1..], pat)
  }

  /** With no occurrence of `pat`, nothing is removed. */
  lemma {:induction false} RemoveAllAbsent(s: string, pat: string)
    requires pat != [] && !Contains(s, pat)
    ensures RemoveAll(s, pat) == s
    decreases |s|
  {
    if |s| >= |pat| {
      assert !OccursAt(s, pat, 0);
      forall i: nat | i <= |s[1..]| ensures !OccursAt(s[1..], pat, i) {
        if OccursAt(s[1..], pat, i) {
          assert s[1..][i..i + |pat|] == s[i + 1..i + 1 + |pat|];
          assert OccursAt(s, pat, i + 1);
        }
      }
      RemoveAllAbsent(s[1..], pat);
      assert [s[0]] + s[1..] == s;
    }
  }

  /** Past a first character that starts no occurrence, the scan goes on in
      the tail, where still no occurrence starts before `pat`. */
  lemma ScanTail(pre: string, pat: string, post: string)
    requires pat != [] && pre != []
    requires forall j: nat | j < |pre| :: !OccursAt(pre + pat + post, pat, j)
    ensures RemoveAll(pre + pat + post, pat) == [pre[0]] + RemoveAll(pre[1..] + pat + post, pat)
    ensures forall j: nat | j < |pre[1..]| :: !OccursAt(pre[1..] + pat + post, pat, j)
  {
    var s, s' := pre + pat + post, pre[1..] + pat + post;
    assert !OccursAt(s, pat, 0);
    assert s[1..] == s';
    forall j: nat | j < |pre[1..]| ensures !OccursAt(s', pat, j) {
      assert !OccursAt(s, pat, j + 1);
      assert s'[j..j + |pat|] == s[j + 1..j + 1 + |pat|];
    }
  }

  /** An occurrence at the start is removed, and the scan goes on after it. */
  lemma ScanHere(pat: string, post: string)
    requires pat != []
    ensures RemoveAll([] + pat + post, pat) == RemoveAll(post, pat)
  {
    var s := [] + pat + post;
    assert s[..|pat|] == pat && s[|pat|..] == post;
  }

  /** The scan finds the leftmost occurrence, removes it, keeps what lies before
      it, and goes on after it. */
  lemma {:induction false} RemoveAllScan(pre: string, pat: string, post: string)
    requires pat != []
    requires forall j: nat | j < |pre| :: !OccursAt(pre + pat + post, pat, j)
    ensures RemoveAll(pre + pat + post, pat) == pre + RemoveAll(post, pat)
    decreases |pre|
  {
    if pre == [] {
      ScanHere(pat, post);
    } else {
      ScanTail(pre, pat, post);
      RemoveAllScan(pre[1..], pat, post);
      var r := RemoveAll(post, pat);
      assert RemoveAll(pre[1..] + pat + post, pat) == pre[1..] + r;
      assert [pre[0]] + (pre[1..] + r) == pre + r;
    }
  }

  /** The same scan, by index: removing from `s` when the leftmost occurrence
      of `pat` starts at `i`. */
  lemma RemoveAllAt(s: string, pat: string, i: nat)
    requires pat != [] && OccursAt(s, pat, i)
    requires forall j: nat | j < i :: !OccursAt(s, pat, j)
    ensures RemoveAll(s, pat) == s[..i] + RemoveAll(s[i + |pat|..], pat)
  {
    assert s == s[..i] + pat + s[i + |pat|..];
    RemoveAllScan(s[..i], pat, s[i + |pat|..]);
  }

  /** strings.TrimPrefix. */
  function TrimPrefix(s: string, prefix: string): (r: string)
    ensures prefix <= s ==> s == prefix + r
    ensures !(prefix <= s) ==> r == s
  {
    if prefix <= s then s[|prefix|..] else s
  }

  /** The entry name tgz.go:164 gives a walked file: every occurrence of the
      walk root removed from the walked path, then one leading separator
      trimmed. */
  function EntryName(file: string, src: string): (r: string)
    ensures |r| <= |file|
    ensures src == [] ==> r == TrimPrefix(file, [Sep])
  {
    TrimPrefix(RemoveAll(file, src), [Sep])
  }

  /** The name derivation evidently intended: strip the root as a prefix only. */
  function EntryNameFixed(file: string, src: string): (r: string)
    ensures src <= file && |file| > |src| && file[|src|] == Sep ==> r == file[|src| + 1..]
    ensures !(src <= file) ==> r == TrimPrefix(file, [Sep])
  {
    TrimPrefix(TrimPrefix(file, src), [Sep])
  }

  /** When the rest of the walked path holds no further occurrence of the root,
      the name is exactly the path relative to the root. */
  lemma EntryNameOfWalkedPath(src: string, rel: string)
    requires src != [] && !Contains([Sep] + rel, src)
    ensures EntryName(src + [Sep] + rel, src) == rel
  {
    var file := src + [Sep] + rel;
    assert file[..|src|] == src;
    assert file[|src|..] == [Sep] + rel;
    RemoveAllAbsent([Sep] + rel, src);
  }

  /** As written, occurrences of the root inside the relative part are
      removed too: walking root "a" names the file "a/data" "dt". */
  lemma EntryNameRemovesInnerOccurrences()
    ensures EntryName("a/data", "a") == "dt"
  {
  }

  /** As written, an absolute root that recurs in the path leaves no name at
      all: walking root "/x" names the file "/x/x" "". */
  lemma EntryNameCanBeEmpty()
    ensures EntryName("/x/x", "/x") == ""
  {
  }

  /** The corrected derivation gives the relative path for every walked path. */
  lemma EntryNameFixedOfWalkedPath(src: string, rel: string)
    ensures EntryNameFixed(src + [Sep] + rel, src) == rel
  {
  }

  /** The path with every trailing separator removed. */
  function StripTrailing(p: string): (r: string)
    ensures r <= p
    ensures r == [] || r[|r| - 1] != Sep
    ensures forall i | |r| <= i < |p| :: p[i] == Sep
  {
    if p != [] && p[|p| - 1] == Sep then StripTrailing(p[..|p| - 1]) else p
  }

  /** The index where the last path element of `p` starts. */
  function LastElementStart(p: string): (j: nat)
    ensures j <= |p|
    ensures Sep !in p[j..]
    ensures j > 0 ==> p[j - 1] == Sep
  {
    if p == [] then 0
    else if p[|p| - 1] == Sep then |p|
    else
      var j := LastElementStart(p[..|p| - 1]);
      assert p[j..] == p[..|p| - 1][j..] + [p[|p| - 1]];
      j
  }

  /** filepath.Base on Unix. */
  function Base(p: string): (r: string)
    ensures r != []
    ensures Sep in r ==> r == [Sep]
  {
    if p == [] then "."
    else
      var q := StripTrailing(p);
      if q == [] then [Sep] else q[LastElementStart(q)..]
  }

  /** In a path made of a directory, a separator and a plain name, the last
      element is that name. */
  lemma {:induction false} LastElementOfChild(dir: string, name: string)
    requires name != [] && Sep !in name
    ensures StripTrailing(dir + [Sep] + name) == dir + [Sep] + name
    ensures LastElementStart(dir + [Sep] + name) == |dir| + 1
    decreases |name|
  {
    var p := dir + [Sep] + name;
    assert p[|p| - 1] == name[|name| - 1];
    if |name| > 1 {
      LastElementOfChild(dir, name[..|name| - 1]);
      assert p[..|p| - 1] == dir + [Sep] + name[..|name| - 1];
    } else {
      assert p[..|p| - 1] == dir + [Sep];
    }
  }

  /** The base name of a file placed in a directory is the file's own name. */
  lemma BaseOfChild(dir: string, name: string)
    requires name != [] && Sep !in name
    ensures Base(dir + [Sep] + name) == name
  {
    LastElementOfChild(dir, name);
    assert (dir + [Sep] + name)[|dir| + 1..] == name;
  }

  /** The directory a path lives in: `None` for the working directory or the
      root, which always exist; trailing separators are insignificant, as
      they are to the operating system. */
  function Parent(p: string): (r: Option<string>)
    ensures r.Some? ==> |r.value| < |p| && r.value != []
  {
    var q := StripTrailing(p);
    var j := LastElementStart(q);
    if j == 0 then None
    else
      var d := StripTrailing(q[..j]);
      assert q[..j][j - 1] == Sep;
      if d == [] then None else Some(d)
  }

  /** filepath.Join(dst, name) for the extractor's targets. Only trailing
      separators are cleaned away; "." and ".." elements and repeated
      separators are kept as they are. */
  function Join(dst: string, name: string): (r: string)
    ensures r == [] || r[|r| - 1] != Sep
  {
    if dst == [] then StripTrailing(name)
    else if name == [] then StripTrailing(dst)
    else StripTrailing(dst + [Sep] + name)
  }

  /** A target joined from a directory and a plain name lives in that directory. */
  lemma ParentOfJoin(dst: string, name: string)
    requires dst != [] && dst[|dst| - 1] != Sep
    requires name != [] && Sep !in name
    ensures Join(dst, name) == dst + [Sep] + name
    ensures Parent(Join(dst, name)) == Some(dst)
  {
    var p := dst + [Sep] + name;
    LastElementOfChild(dst, name);
    var j := LastElementStart(p);
    assert p[..j] == dst + [Sep];
    assert StripTrailing(dst + [Sep]) == StripTrailing(dst);
  }
}
