/** Path derivation for one configured repository: the destination directory
    `output / last-segment(url)` with trailing ".git" removed, and the backup
    path obtained from it by replacing its extension with "old". Paths are
    modelled by their components, the way Rust's `Path::components` sees them
    on Unix. */
module Paths {

  /** One component of a path (Rust's `std::path::Component` on Unix). */
  datatype Component = RootDir | CurDir | ParentDir | Normal(name: string)

  type Path = seq<Component>

  /** The paths derived for one configured repository. */
  datatype Target = Target(url: string, dest: Path, backup: Path)

  const GitSuffix: string := ".git"
  const BackupExtension: string := "old"

  predicate EndsWith(s: string, suffix: string) {
    |suffix| <= |s| && s[|s| - |suffix|..] == suffix
  }

  /** `n` copies of `s`, one after the other. */
  function Repeat(s: string, n: nat): string {
    if n == 0 then "" else Repeat(s, n - 1) + s
  }

  /** `url.split('/').last()`: the text after the last '/', or all of `url`
      when it has none. The iterator always yields at least one piece, so the
      `unwrap` never fails. */
  function LastSegment(url: string): (r: string)
    ensures '/' !in r
    ensures EndsWith(url, r)
    ensures |r| < |url| ==> url[|url| - |r| - 1] == '/'
  {
    if |url| == 0 || url[|url| - 1] == '/' then ""
    else LastSegment(url[..|url| - 1]) + [url[|url| - 1]]
  }

  /** `s.trim_end_matches(".git")`: every trailing ".git" removed, repeatedly. */
  function TrimGitSuffixes(s: string): (r: string)
    ensures !EndsWith(r, GitSuffix)
    ensures exists n: nat :: s == r + Repeat(GitSuffix, n)
    decreases |s|
  {
    if EndsWith(s, GitSuffix) then
      var r := TrimGitSuffixes(s[..|s| - |GitSuffix|]);
      ghost var n: nat :| s[..|s| - |GitSuffix|] == r + Repeat(GitSuffix, n);
      assert s == r + Repeat(GitSuffix, n + 1);
      r
    else
      assert s == s + Repeat(GitSuffix, 0);
      s
  }

  /** The directory name a repository is cloned under (main.rs line 44). */
  function DirName(url: string): string {
    TrimGitSuffixes(LastSegment(url))
  }

  /** `base.join(seg)` for a segment without '/', seen through `components()`:
      an empty segment adds only a trailing separator, a "." segment is
      dropped unless it starts the path, and ".." stays a component. */
  function Join(base: Path, seg: string): Path
    requires '/' !in seg
  {
    if seg == "" then base
    else if seg == "." then (if base == [] then [CurDir] else base)
    else if seg == ".." then base + [ParentDir]
    else base + [Normal(seg)]
  }

  /** The destination directory of a repository (main.rs lines 43-44). */
  function Destination(output: Path, url: string): Path {
    Join(output, DirName(url))
  }

  /** Index of the last '.' in `s`, or -1 when there is none. */
  function LastDot(s: string): (i: int)
    ensures -1 <= i < |s|
    ensures i >= 0 ==> s[i] == '.'
    ensures forall j :: i < j < |s| ==> s[j] != '.'
  {
    if |s| == 0 then -1
    else if s[|s| - 1] == '.' then |s| - 1
    else LastDot(s[..|s| - 1])
  }

  /** `Path::file_stem` of a file name: the part before the last '.', unless
      there is no '.' or the only text before it is empty (a leading dot),
      in which case the whole name. */
  function Stem(name: string): (r: string)
    ensures r <= name
    ensures r == name || (0 < |r| && name[|r|] == '.')
    ensures r != name ==> forall j :: |r| < j < |name| ==> name[j] != '.'
    ensures r == name <==> name == ".." || forall j :: 0 < j < |name| ==> name[j] != '.'
  {
    var i := LastDot(name);
    if name == ".." || i <= 0 then name else name[..i]
  }

  /** `p.with_extension(ext)`: when the last component is a normal name, its
      extension is replaced (the stem is kept and "." + ext appended, nothing
      for an empty ext); a path without a file name is returned unchanged. */
  function WithExtension(p: Path, ext: string): Path {
    if p == [] || !p[|p| - 1].Normal? then p
    else
      var stem := Stem(p[|p| - 1].name);
      p[..|p| - 1] + [Normal(if ext == "" then stem else stem + ("." + ext))]
  }

  /** The backup path of a destination (main.rs lines 48, 60 and 71). */
  function BackupPath(dest: Path): Path {
    WithExtension(dest, BackupExtension)
  }

  /** Both paths one refresh works on. */
  function TargetOf(output: Path, url: string): (t: Target)
    ensures t.url == url
  {
    var dest := Destination(output, url);
    Target(url, dest, BackupPath(dest))
  }

  /** `LastSegment` is the only string without '/' that ends `url` and is
      either all of it or preceded by a '/'. */
  lemma {:induction false} LastSegmentUnique(url: string, r: string)
    requires '/' !in r && EndsWith(url, r)
    requires |r| < |url| ==> url[|url| - |r| - 1] == '/'
    ensures r == LastSegment(url)
  {
    if |url| == 0 || url[|url| - 1] == '/' {
    } else {
      assert |r| > 0;
      var u', r' := url[..|url| - 1], r[..|r| - 1];
      assert r'[..] == url[|url| - |r|..|url| - 1];
      assert EndsWith(u', r');
      LastSegmentUnique(u', r');
      assert r == r' + [url[|url| - 1]];
    }
  }

  /** The directory name contains no '/' and no longer ends in ".git". */
  lemma DirNameShape(url: string)
    ensures '/' !in DirName(url)
    ensures !EndsWith(DirName(url), GitSuffix)
    ensures DirName(url) <= LastSegment(url)
  {
    var seg := LastSegment(url);
    var n: nat :| seg == DirName(url) + Repeat(GitSuffix, n);
    assert DirName(url) == seg[..|DirName(url)|];
    forall c | c in DirName(url) ensures c != '/' {
      var j :| 0 <= j < |DirName(url)| && DirName(url)[j] == c;
      assert seg[j] == c;
    }
  }

  /** A name that is not "", "." or ".." becomes one new component directly
      under the output directory. */
  lemma DestinationIsChild(output: Path, url: string)
    requires DirName(url) !in {"", ".", ".."}
    ensures Destination(output, url) == output + [Normal(DirName(url))]
    ensures '/' !in DirName(url)
  {
    DirNameShape(url);
  }

  /** An empty URL, a URL ending in '/' or one whose last segment is exactly
      ".git" yields an empty name, so the destination is the output directory
      itself. */
  lemma EmptyNameIsOutputDirectory(output: Path, url: string)
    requires |url| == 0 || url[|url| - 1] == '/' || LastSegment(url) == ".git"
    ensures DirName(url) == ""
    ensures Destination(output, url) == output
  {
    var seg := LastSegment(url);
    assert seg == "" || seg == GitSuffix;
    assert !EndsWith("", GitSuffix);
    assert TrimGitSuffixes("") == "";
    if seg == GitSuffix {
      assert EndsWith(seg, GitSuffix) && seg[..|seg| - |GitSuffix|] == "";
    }
    assert DirName(url) == "";
    assert Destination(output, url) == Join(output, "");
  }

  /** Example from the configuration: "https://host/org/alpha.git" is cloned
      into `output/alpha`. */
  lemma AlphaExample(output: Path)
    ensures DirName("https://host/org/alpha.git") == "alpha"
    ensures Destination(output, "https://host/org/alpha.git") == output + [Normal("alpha")]
  {
    assert "https://host/org" + "/" + "alpha" + Repeat(GitSuffix, 1) == "https://host/org/alpha.git";
    assert !EndsWith("alpha", GitSuffix);
    DirNameOfUrl("https://host/org", "alpha", 1);
    DestinationIsChild(output, "https://host/org/alpha.git");
  }

  /** The backup of a destination with a file name is a sibling: same parent,
      last name replaced by its stem followed by ".old". */
  lemma BackupIsSibling(dest: Path)
    requires dest != [] && dest[|dest| - 1].Normal?
    ensures |BackupPath(dest)| == |dest|
    ensures BackupPath(dest)[..|dest| - 1] == dest[..|dest| - 1]
    ensures BackupPath(dest)[|dest| - 1] == Normal(Stem(dest[|dest| - 1].name) + ".old")
  {
  }

  /** A file name is its own backup name exactly when it ends in ".old" with
      some text before it. */
  lemma {:induction false} SelfBackupName(name: string)
    ensures Stem(name) + ".old" == name <==> |name| > 4 && EndsWith(name, ".old")
  {
    var n := |name|;
    if |name| > 4 && EndsWith(name, ".old") {
      assert name[n - 4] == '.';
      assert forall j :: n - 4 < j < n ==> name[j] != '.' by {
        assert name[n - 4..] == ".old";
        forall j | n - 4 < j < n ensures name[j] != '.' {
          assert name[j] == name[n - 4..][j - (n - 4)];
        }
      }
      assert LastDot(name) == n - 4;
      assert name[..n - 4] + ".old" == name;
    }
    if Stem(name) + ".old" == name {
      assert name[n - 4..] == ".old";
    }
  }

  /** `with_extension` keeps the path when it has no file name, and otherwise
      changes it exactly when the name does not already end in ".old":
      a destination named like "legacy.old" is its own backup path. */
  lemma BackupEqualsDestination(dest: Path)
    ensures BackupPath(dest) == dest <==>
      (dest == [] || !dest[|dest| - 1].Normal? ||
       (|dest[|dest| - 1].name| > 4 && EndsWith(dest[|dest| - 1].name, ".old")))
  {
    if dest != [] && dest[|dest| - 1].Normal? {
      var name := dest[|dest| - 1].name;
      SelfBackupName(name);
      assert "." + BackupExtension == ".old";
      assert BackupPath(dest) == dest[..|dest| - 1] + [Normal(Stem(name) + ".old")];
      if BackupPath(dest) == dest {
        assert BackupPath(dest)[|dest| - 1] == dest[|dest| - 1];
      }
    }
  }

  /** The extension is replaced, not appended: "my.repo" backs up to "my.old". */
  lemma ExtensionReplacedExample(parent: Path)
    ensures BackupPath(parent + [Normal("my.repo")]) == parent + [Normal("my.old")]
  {
    var name := "my.repo";
    assert LastDot(name) == 2 by {
      var i := LastDot(name);
      assert name[2] == '.' && name[3] != '.' && name[4] != '.' && name[5] != '.' && name[6] != '.';
      assert name[0] != '.' && name[1] != '.';
    }
    assert Stem(name) == "my";
    assert "my" + ("." + BackupExtension) == "my.old";
    var dest := parent + [Normal(name)];
    assert dest[..|dest| - 1] == parent;
  }

  /** The extension is replaced, not appended: a name other than ".." with a
      '.' after its first character backs up to the text before its last '.'
      followed by ".old". */
  lemma ExtensionReplaced(parent: Path, name: string, i: nat)
    requires name != ".." && 0 < i < |name| && name[i] == '.'
    requires forall j :: i < j < |name| ==> name[j] != '.'
    ensures BackupPath(parent + [Normal(name)]) == parent + [Normal(name[..i] + ".old")]
  {
    assert LastDot(name) == i;
    assert Stem(name) == name[..i];
    assert "." + BackupExtension == ".old";
    var dest := parent + [Normal(name)];
    assert dest[..|dest| - 1] == parent;
  }

  /** A name ending in ".old" with text before it is its own backup name,
      whatever directory it is in. */
  lemma OldNameIsOwnBackup(parent: Path, name: string)
    requires |name| > 4 && EndsWith(name, ".old")
    ensures BackupPath(parent + [Normal(name)]) == parent + [Normal(name)]
  {
    var dest := parent + [Normal(name)];
    assert dest != [] && dest[|dest| - 1] == Normal(name);
    BackupEqualsDestination(dest);
  }

  /** Copies of ".git" contain no '/'. */
  lemma {:induction false} NoSlashInGitSuffixes(k: nat)
    ensures '/' !in Repeat(GitSuffix, k)
  {
    if k > 0 {
      NoSlashInGitSuffixes(k - 1);
    }
  }

  /** Removing every trailing ".git" from a name followed by `k` copies of
      ".git" gives back the name, provided it does not end in ".git" itself. */
  lemma {:induction false} TrimRepeatedGit(name: string, k: nat)
    requires !EndsWith(name, GitSuffix)
    ensures TrimGitSuffixes(name + Repeat(GitSuffix, k)) == name
  {
    if k > 0 {
      var s := name + Repeat(GitSuffix, k);
      assert s == (name + Repeat(GitSuffix, k - 1)) + GitSuffix;
      assert s[..|s| - |GitSuffix|] == name + Repeat(GitSuffix, k - 1);
      TrimRepeatedGit(name, k - 1);
    } else {
      assert name + Repeat(GitSuffix, 0) == name;
    }
  }

  /** A URL `base/name` followed by any number of ".git" is cloned under
      `name`, when the name has no '/' and does not end in ".git". */
  lemma DirNameOfUrl(base: string, name: string, k: nat)
    requires '/' !in name && !EndsWith(name, GitSuffix)
    ensures DirName(base + "/" + name + Repeat(GitSuffix, k)) == name
  {
    var seg := name + Repeat(GitSuffix, k);
    var url := base + "/" + name + Repeat(GitSuffix, k);
    assert url == (base + "/") + seg;
    NoSlashInGitSuffixes(k);
    assert '/' !in seg by {
      forall c | c in seg ensures c != '/' {
        assert c in name || c in Repeat(GitSuffix, k);
      }
    }
    assert url[|url| - |seg|..] == seg;
    LastSegmentUnique(url, seg);
    TrimRepeatedGit(name, k);
  }

  /** For such a URL whose name ends in ".old" with text before it, the
      destination is `output/name` and the backup path is that same path. */
  lemma OwnBackupTarget(output: Path, base: string, name: string, k: nat)
    requires '/' !in name && |name| > 4 && EndsWith(name, ".old")
    ensures TargetOf(output, base + "/" + name + Repeat(GitSuffix, k)).dest == output + [Normal(name)]
    ensures TargetOf(output, base + "/" + name + Repeat(GitSuffix, k)).backup == output + [Normal(name)]
  {
    assert !EndsWith(name, GitSuffix) by {
      assert name[|name| - 4..] == ".old";
    }
    DirNameOfUrl(base, name, k);
    DestinationIsChild(output, base + "/" + name + Repeat(GitSuffix, k));
    OldNameIsOwnBackup(output, name);
  }

  /** A name without '.' does not end in ".git", is not "." or "..", and is
      its own stem. */
  lemma PlainName(name: string)
    requires name != "" && '.' !in name
    ensures !EndsWith(name, GitSuffix)
    ensures name !in {"", ".", ".."}
    ensures Stem(name) == name
  {
    assert name[0] != '.';
    if |name| >= 4 {
      assert name[|name| - 4..][0] != GitSuffix[0];
    }
    assert LastDot(name) == -1;
  }

  /** A directory whose name has no '.' backs up to the sibling `name.old`. */
  lemma PlainNameBackup(parent: Path, name: string)
    requires name != "" && '.' !in name
    ensures BackupPath(parent + [Normal(name)]) == parent + [Normal(name + ".old")]
  {
    PlainName(name);
    assert name + ("." + BackupExtension) == name + ".old";
    var dest := parent + [Normal(name)];
    assert dest[..|dest| - 1] == parent;
  }

  /** A URL `base/name` followed by any number of ".git", whose name has no
      '.', is cloned into `output/name` and backs up to the sibling
      `output/name.old`. */
  lemma PlainNameTarget(output: Path, base: string, name: string, k: nat)
    requires name != "" && '/' !in name && '.' !in name
    ensures TargetOf(output, base + "/" + name + Repeat(GitSuffix, k)).dest == output + [Normal(name)]
    ensures TargetOf(output, base + "/" + name + Repeat(GitSuffix, k)).backup == output + [Normal(name + ".old")]
  {
    PlainName(name);
    DirNameOfUrl(base, name, k);
    DestinationIsChild(output, base + "/" + name + Repeat(GitSuffix, k));
    PlainNameBackup(output, name);
  }
}
