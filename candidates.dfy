/**
 * Candidate discovery and ranking: the `ansible.cfg` files of the workspace
 * that lie in a parent directory of the vault file, longest path first,
 * followed by `~/.ansible.cfg` when it is accessible.
 */
module Candidates {
  import opened Wrappers
  import opened Paths

  /**
   * The test in `findAnsibleConfigurationsInParentDirectoriesWithinWorkspace`:
   * the vault file's directory starts with the configuration file's
   * directory, compared as text.
   */
  predicate InParentDirectory(vaultFile: string, file: string)
    ensures ParentDir(file) == ParentDir(vaultFile) ==> InParentDirectory(vaultFile, file)
    ensures InParentDirectory(vaultFile, file) ==>
      |ParentDir(file)| <= |ParentDir(vaultFile)| && ParentDir(vaultFile)[..|ParentDir(file)|] == ParentDir(file)
  {
    ParentDir(file) <= ParentDir(vaultFile)
  }

  /** `r` is `s` with some elements dropped and the rest kept in order. */
  ghost predicate IsSubsequence<T>(r: seq<T>, s: seq<T>)
    decreases |s|
  {
    r == [] || (s != [] && ((r[0] == s[0] && IsSubsequence(r[1..], s[1..])) || IsSubsequence(r, s[1..])))
  }

  /** `files.filter(...)`: the workspace files in a parent directory of `vaultFile`. */
  function InParentDirectories(vaultFile: string, files: seq<string>): (r: seq<string>)
    ensures forall f :: f in r <==> f in files && InParentDirectory(vaultFile, f)
    ensures forall f :: multiset(r)[f] == if InParentDirectory(vaultFile, f) then multiset(files)[f] else 0
    ensures IsSubsequence(r, files)
  {
    if files == [] then []
    else
      var rest := InParentDirectories(vaultFile, files[1..]);
      assert files == [files[0]] + files[1..];
      if InParentDirectory(vaultFile, files[0]) then [files[0]] + rest else rest
  }

  /** Non-increasing path length: `longestFirst` holds between every pair in order. */
  predicate LongestFirst(s: seq<string>) {
    forall i, j :: 0 <= i < j < |s| ==> |s[i]| >= |s[j]|
  }

  /** Places `x` before the first element that is not longer than it. */
  function InsertLongestFirst(x: string, s: seq<string>): (r: seq<string>)
    ensures |r| == |s| + 1
    ensures multiset(r) == multiset(s) + multiset{x}
    ensures r[0] == x || (s != [] && r[0] == s[0])
    ensures LongestFirst(s) ==> LongestFirst(r)
  {
    if s == [] || |s[0]| <= |x| then
      ConsLongestFirst(x, s);
      [x] + s
    else
      assert s == [s[0]] + s[1..];
      TailLongestFirst(s);
      var rest := InsertLongestFirst(x, s[1..]);
      assert multiset(s) == multiset{s[0]} + multiset(s[1..]);
      assert rest[0] == x || rest[0] == s[1];
      ConsLongestFirst(s[0], rest);
      [s[0]] + rest
  }

  /** Dropping the first path keeps the order. */
  lemma TailLongestFirst(s: seq<string>)
    requires s != []
    ensures LongestFirst(s) ==> LongestFirst(s[1..])
  {
    if LongestFirst(s) {
      forall i, j | 0 <= i < j < |s[1..]| ensures |s[1..][i]| >= |s[1..][j]| {
        assert s[1..][i] == s[i + 1] && s[1..][j] == s[j + 1];
      }
    }
  }

  /** A path no shorter than the first of an ordered list can go in front of it. */
  lemma ConsLongestFirst(h: string, t: seq<string>)
    ensures LongestFirst(t) && (t == [] || |t[0]| <= |h|) ==> LongestFirst([h] + t)
  {
    if LongestFirst(t) && (t == [] || |t[0]| <= |h|) {
      var r := [h] + t;
      forall i, j | 0 <= i < j < |r| ensures |r[i]| >= |r[j]| {
        assert r[j] == t[j - 1];
        if i > 0 {
          assert r[i] == t[i - 1];
        } else if j > 1 {
          assert |t[0]| >= |t[j - 1]|;
        }
      }
    }
  }

  /**
   * `sort(longestFirst)`. JavaScript's `Array.prototype.sort` is stable, so
   * paths of equal length keep their discovery order; this insertion sort
   * does the same.
   */
  function SortLongestFirst(s: seq<string>): (r: seq<string>)
    ensures LongestFirst(r)
    ensures multiset(r) == multiset(s)
  {
    if s == [] then []
    else
      assert s == [s[0]] + s[1..];
      InsertLongestFirst(s[0], SortLongestFirst(s[1..]))
  }

  /** The elements of `s` whose length is `n`, in order. */
  function OfLength(s: seq<string>, n: nat): seq<string> {
    if s == [] then []
    else (if |s[0]| == n then [s[0]] else []) + OfLength(s[1..], n)
  }

  lemma {:induction false} InsertKeepsEqualLengthOrder(x: string, s: seq<string>, n: nat)
    requires LongestFirst(s)
    ensures OfLength(InsertLongestFirst(x, s), n) == (if |x| == n then [x] else []) + OfLength(s, n)
  {
    var r := InsertLongestFirst(x, s);
    if s == [] || |s[0]| <= |x| {
      assert r == [x] + s;
      assert r[0] == x && r[1..] == s;
    } else {
      var rest := InsertLongestFirst(x, s[1..]);
      assert r == [s[0]] + rest;
      assert r[0] == s[0] && r[1..] == rest;
      TailLongestFirst(s);
      InsertKeepsEqualLengthOrder(x, s[1..], n);
      assert OfLength(r, n) == (if |s[0]| == n then [s[0]] else []) + OfLength(rest, n);
      assert OfLength(s, n) == (if |s[0]| == n then [s[0]] else []) + OfLength(s[1..], n);
      if |x| == n {
        assert |s[0]| != n;
      }
    }
  }

  /** The sort is stable: for every length, the paths of that length keep their order. */
  lemma {:induction false} SortIsStable(s: seq<string>, n: nat)
    ensures OfLength(SortLongestFirst(s), n) == OfLength(s, n)
  {
    if s != [] {
      SortIsStable(s[1..], n);
      InsertKeepsEqualLengthOrder(s[0], SortLongestFirst(s[1..]), n);
    }
  }

  /** `findAnsibleConfigurationsInParentDirectoriesWithinWorkspace`, given the `findFiles` result. */
  function WorkspaceCandidates(vaultFile: string, files: seq<string>): (r: seq<string>)
    ensures LongestFirst(r)
    ensures multiset(r) == multiset(InParentDirectories(vaultFile, files))
    ensures forall f :: f in r <==> f in files && InParentDirectory(vaultFile, f)
  {
    var r := SortLongestFirst(InParentDirectories(vaultFile, files));
    assert forall f :: f in r <==> f in multiset(r);
    r
  }

  /** `getHomeDirectoryConfigurationFilePath`: `resolve(homedir, '.ansible.cfg')`. */
  function HomeConfigurationPath(homeDir: string): (p: string)
    ensures homeDir <= p
    ensures |p| > 12 && p[|p| - 12..] == ".ansible.cfg" && p[|p| - 13] == '/'
    ensures |p| <= |homeDir| + 13
  {
    JoinPath(homeDir, ".ansible.cfg")
  }

  /** `findAnsibleConfigurationFileInHomeDirectory`: the home file when `isFileAccessible` says so. */
  function HomeConfiguration(homeDir: string, accessible: bool): (r: Option<string>)
    ensures r.Some? <==> accessible
    ensures r.Some? ==> r.value == HomeConfigurationPath(homeDir)
  {
    if accessible then Some(HomeConfigurationPath(homeDir)) else None
  }

  /** `workspaceFiles.concat(homeDirectoryFile || [])`. */
  function AllCandidates(vaultFile: string, files: seq<string>, home: Option<string>): (r: seq<string>)
    ensures home.None? ==> r == WorkspaceCandidates(vaultFile, files)
    ensures home.Some? ==> |r| == |WorkspaceCandidates(vaultFile, files)| + 1 && r[|r| - 1] == home.value
    ensures r[..|WorkspaceCandidates(vaultFile, files)|] == WorkspaceCandidates(vaultFile, files)
  {
    WorkspaceCandidates(vaultFile, files) + (if home.Some? then [home.value] else [])
  }

  /**
   * Every true ancestor directory is kept: a configuration file directly
   * inside `dir` is a candidate for a vault file anywhere below `dir`.
   */
  lemma AncestorIsKept(dir: string, below: string, name: string)
    requires dir != [] && '/' !in name
    requires below == [] || below[0] == '/'
    ensures InParentDirectory(dir + below + "/" + name, dir + "/ansible.cfg")
  {
    assert '/' !in "ansible.cfg";
    ParentOfChild(dir, "ansible.cfg");
    assert dir + "/" + "ansible.cfg" == dir + "/ansible.cfg";
    assert ParentDir(dir + "/ansible.cfg") == dir;
    ParentOfChild(dir + below, name);
    assert ParentDir(dir + below + "/" + name) == dir + below;
    assert dir <= dir + below;
  }

  /**
   * The text prefix test also keeps a sibling directory whose name merely
   * extends the configuration directory's name: `/proj/abc/ansible.cfg` is
   * kept for `/proj/abcdef/x` though `/proj/abc` is not its ancestor.
   */
  lemma SiblingWithLongerNameIsKept(dir: string, extra: string, name: string)
    requires dir != [] && extra != [] && '/' !in extra && '/' !in name
    ensures !(dir + "/" <= dir + extra + "/")
    ensures InParentDirectory(dir + extra + "/" + name, dir + "/ansible.cfg")
  {
    assert '/' !in "ansible.cfg";
    ParentOfChild(dir, "ansible.cfg");
    assert dir + "/" + "ansible.cfg" == dir + "/ansible.cfg";
    assert ParentDir(dir + "/ansible.cfg") == dir;
    var vaultDir := dir + extra;
    assert dir + extra + "/" + name == vaultDir + "/" + name;
    ParentOfChild(vaultDir, name);
    assert (dir + "/")[|dir|] == '/';
    assert (vaultDir + "/")[|dir|] == extra[0];
    assert vaultDir[..|dir|] == dir;
  }
}
