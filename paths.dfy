/** Names of files and directories below a watched root.

    A relative name such as `docs\notes.txt` is modelled as the sequence of its
    segments, `["docs", "notes.txt"]`; the empty path is the root itself. The two
    name tests the engine makes on the text of a name -- `Contains(".")` for the
    directory shortcut and `Path.HasExtension` for renames -- are defined on the
    text, as .NET defines them, and related to the segments by lemmas. */
module Paths {

  /** The characters .NET treats as directory separators on Windows. */
  predicate IsSeparator(c: char) {
    c == '\\' || c == '/'
  }

  /** One component of a path: never holds a separator. */
  type Segment = s: string | forall i :: 0 <= i < |s| ==> !IsSeparator(s[i])

  type Path = seq<Segment>

  const Separator: char := '\\'

  /** The text of a relative path, segments joined by the separator. */
  function Join(p: Path): string {
    if p == [] then ""
    else if |p| == 1 then p[0]
    else Join(p[..|p| - 1]) + [Separator] + p[|p| - 1]
  }

  /** `p` is `q` or an ancestor of `q`. */
  predicate IsPrefix(p: Path, q: Path) {
    |p| <= |q| && q[..|p|] == p
  }

  /** The directory that holds `p`. */
  function Parent(p: Path): Path
    requires p != []
  {
    p[..|p| - 1]
  }

  /** `Path.GetFileName`: the last segment, or "" for the root. */
  function FileName(p: Path): Segment {
    if p == [] then "" else p[|p| - 1]
  }

  /** `name.Contains(".")` on the text of a name. */
  predicate ContainsDot(s: string) {
    '.' in s
  }

  /** `Path.HasExtension`: scanning back from position `i`, the first '.' met
      before a separator decides -- it is an extension unless that '.' is the
      last character of the whole text. */
  function ExtensionScan(s: string, i: nat): bool
    requires i <= |s|
  {
    if i == 0 then false
    else if s[i - 1] == '.' then i != |s|
    else if IsSeparator(s[i - 1]) then false
    else ExtensionScan(s, i - 1)
  }

  predicate HasExtension(s: string) {
    ExtensionScan(s, |s|)
  }

  /** A file name has an extension when it holds a '.' and does not end in one. */
  predicate SegmentHasExtension(f: Segment) {
    '.' in f && f[|f| - 1] != '.'
  }

  /** The last segment of a joined path starts right after a separator. */
  lemma {:induction false} JoinLast(p: Path)
    requires p != []
    ensures var s := Join(p); var k := |s| - |p[|p| - 1]|;
      0 <= k && s[k..] == p[|p| - 1] && (k == 0 || IsSeparator(s[k - 1]))
  {
  }

  /** While scanning inside the last segment, the result is "a dot was seen",
      except that a dot in the final position does not count. */
  lemma {:induction false} ScanInLastSegment(s: string, k: nat, i: nat)
    requires k <= i <= |s|
    requires forall m :: k <= m < |s| ==> !IsSeparator(s[m])
    requires k == 0 || IsSeparator(s[k - 1])
    ensures ExtensionScan(s, i) <==> '.' in s[k..i] && (i == |s| ==> s[i - 1] != '.')
    decreases i
  {
    if i == k {
      assert s[k..i] == [];
    } else {
      assert s[k..i] == s[k..i - 1] + [s[i - 1]];
      if s[i - 1] != '.' {
        ScanInLastSegment(s, k, i - 1);
      }
    }
  }

  /** `Path.HasExtension` on the joined text looks only at the last segment. */
  lemma {:induction false} HasExtensionOfJoin(p: Path)
    ensures HasExtension(Join(p)) <==> p != [] && SegmentHasExtension(FileName(p))
  {
    if p != [] {
      var s := Join(p);
      var f := p[|p| - 1];
      JoinLast(p);
      var k := |s| - |f|;
      ScanInLastSegment(s, k, |s|);
      if f != "" {
        assert s[|s| - 1] == f[|f| - 1];
      }
    }
  }

  /** `name.Contains(".")` holds exactly when some segment, not only the last,
      holds a dot. */
  lemma {:induction false} ContainsDotOfJoin(p: Path)
    ensures ContainsDot(Join(p)) <==> exists i :: 0 <= i < |p| && '.' in p[i]
  {
    if |p| > 1 {
      var q := p[..|p| - 1];
      ContainsDotOfJoin(q);
      assert Join(p) == Join(q) + [Separator] + p[|p| - 1];
      if exists i :: 0 <= i < |p| && '.' in p[i] {
        var i :| 0 <= i < |p| && '.' in p[i];
        if i < |p| - 1 {
          assert q[i] == p[i];
        }
      }
      if ContainsDot(Join(p)) && !ContainsDot(Join(q)) {
        assert '.' in p[|p| - 1];
      }
    } else if |p| == 1 {
      assert Join(p) == p[0];
    }
  }

  /** A name with an extension always passes the directory shortcut's test. */
  lemma HasExtensionContainsDot(p: Path)
    ensures HasExtension(Join(p)) ==> ContainsDot(Join(p))
  {
    HasExtensionOfJoin(p);
    ContainsDotOfJoin(p);
  }

  /** The two tests differ: a name may hold a dot and yet have no extension,
      in its last segment (`report.`) or only in a directory (`v1.2\bin`). */
  lemma DotWithoutExtension()
    ensures ContainsDot(Join(["report."])) && !HasExtension(Join(["report."]))
    ensures ContainsDot(Join(["v1.2", "bin"])) && !HasExtension(Join(["v1.2", "bin"]))
  {
    HasExtensionOfJoin(["report."]);
    HasExtensionOfJoin(["v1.2", "bin"]);
    ContainsDotOfJoin(["v1.2", "bin"]);
    assert '.' in "v1.2";
  }
}
