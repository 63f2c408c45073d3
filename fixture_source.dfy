/**
 * `FixtureShoptokHtmlSource`: the HTML source that reads saved pages from a fixtures directory.
 * The path is joined with exactly one '/' between the base directory and the relative path; the
 * file system is a read-only map from absolute paths to file contents.
 */
module FixtureSource {
  import opened Wrappers

  /** `rtrim($s, '/')`: drop every trailing '/'. */
  function RTrimSlashes(s: string): (r: string)
    ensures |r| <= |s| && r == s[..|r|]
    ensures r == [] || r[|r| - 1] != '/'
    ensures forall i :: |r| <= i < |s| ==> s[i] == '/'
  {
    if s == [] || s[|s| - 1] != '/' then s else RTrimSlashes(s[..|s| - 1])
  }

  /** `ltrim($s, '/')`: drop every leading '/'. */
  function LTrimSlashes(s: string): (r: string)
    ensures |r| <= |s| && r == s[|s| - |r|..]
    ensures r == [] || r[0] != '/'
    ensures forall i :: 0 <= i < |s| - |r| ==> s[i] == '/'
  {
    if s == [] || s[0] != '/' then s else LTrimSlashes(s[1..])
  }

  /**
   * `rtrim($base, '/') . '/' . ltrim($relativePath, '/')`: the two parts meet at exactly one '/',
   * as neither the character before it nor the one after it is a slash.
   */
  function AbsolutePath(basePath: string, relativePath: string): (path: string)
    ensures var i := |RTrimSlashes(basePath)|;
            i < |path| && path[i] == '/'
            && (i == 0 || path[i - 1] != '/')
            && (i + 1 == |path| || path[i + 1] != '/')
  {
    RTrimSlashes(basePath) + "/" + LTrimSlashes(relativePath)
  }

  /** `n` slashes. */
  function Slashes(n: nat): (s: string)
    ensures |s| == n && forall i :: 0 <= i < n ==> s[i] == '/'
  {
    if n == 0 then [] else Slashes(n - 1) + "/"
  }

  lemma {:induction false} RTrimExtraSlashes(s: string, n: nat)
    ensures RTrimSlashes(s + Slashes(n)) == RTrimSlashes(s)
    decreases n
  {
    if n > 0 {
      assert (s + Slashes(n))[..|s + Slashes(n)| - 1] == s + Slashes(n - 1);
      RTrimExtraSlashes(s, n - 1);
    } else {
      assert s + Slashes(n) == s;
    }
  }

  lemma {:induction false} LTrimSlashPrefix(p: string, s: string)
    requires forall i :: 0 <= i < |p| ==> p[i] == '/'
    ensures LTrimSlashes(p + s) == LTrimSlashes(s)
    decreases |p|
  {
    if p == [] {
      assert p + s == s;
    } else {
      assert (p + s)[0] == '/';
      assert (p + s)[1..] == p[1..] + s;
      LTrimSlashPrefix(p[1..], s);
    }
  }

  /** Extra trailing slashes on the base or leading slashes on the relative path change nothing. */
  lemma ExtraSlashesIgnored(basePath: string, relativePath: string, m: nat, n: nat)
    ensures AbsolutePath(basePath + Slashes(m), Slashes(n) + relativePath) == AbsolutePath(basePath, relativePath)
  {
    RTrimExtraSlashes(basePath, m);
    LTrimSlashPrefix(Slashes(n), relativePath);
  }

  /** The characters of a string other than '/'. */
  function NonSlashes(s: string): (r: string)
    ensures |r| <= |s|
  {
    if s == [] then [] else NonSlashes(s[..|s| - 1]) + (if s[|s| - 1] == '/' then [] else [s[|s| - 1]])
  }

  lemma {:induction false} NonSlashesConcat(a: string, b: string)
    ensures NonSlashes(a + b) == NonSlashes(a) + NonSlashes(b)
    decreases |b|
  {
    if b == [] {
      assert a + b == a;
    } else {
      assert (a + b)[..|a + b| - 1] == a + b[..|b| - 1];
      NonSlashesConcat(a, b[..|b| - 1]);
    }
  }

  lemma {:induction false} NonSlashesOfSlashes(s: string)
    requires forall i :: 0 <= i < |s| ==> s[i] == '/'
    ensures NonSlashes(s) == []
    decreases |s|
  {
    if s != [] {
      NonSlashesOfSlashes(s[..|s| - 1]);
    }
  }

  lemma RTrimKeepsNonSlashes(s: string)
    ensures NonSlashes(RTrimSlashes(s)) == NonSlashes(s)
  {
    var b := RTrimSlashes(s);
    assert s == b + s[|b|..];
    NonSlashesConcat(b, s[|b|..]);
    NonSlashesOfSlashes(s[|b|..]);
  }

  lemma {:induction false} LTrimKeepsNonSlashes(s: string)
    ensures NonSlashes(LTrimSlashes(s)) == NonSlashes(s)
    decreases |s|
  {
    if s != [] && s[0] == '/' {
      var rest := s[1..];
      LTrimKeepsNonSlashes(rest);
      assert s == "/" + rest;
      SlashThenNonSlashes(rest);
    }
  }

  lemma SlashThenNonSlashes(s: string)
    ensures NonSlashes("/" + s) == NonSlashes(s)
  {
    NonSlashesConcat("/", s);
    assert NonSlashes("/") == [] by {
      assert "/"[..0] == [];
    }
  }

  /** Only slashes are trimmed: every other character of both parts is kept, in order. */
  lemma OnlySlashesTrimmed(basePath: string, relativePath: string)
    ensures NonSlashes(AbsolutePath(basePath, relativePath)) == NonSlashes(basePath) + NonSlashes(relativePath)
  {
    var b, r := RTrimSlashes(basePath), LTrimSlashes(relativePath);
    RTrimKeepsNonSlashes(basePath);
    LTrimKeepsNonSlashes(relativePath);
    NonSlashesConcat(b + "/", r);
    NonSlashesConcat(b, "/");
    assert NonSlashes("/") == [] by {
      assert "/"[..0] == [];
    }
  }

  datatype FixtureShoptokHtmlSource = FixtureShoptokHtmlSource(basePath: string)
  {
    /**
     * `fetch`: the content of the fixture at the joined path, or the "Fixture not found"
     * exception naming that path when no such file exists.
     */
    function Fetch(files: map<string, string>, relativePath: string): (r: Result<string, string>)
      ensures r.Failure? <==> AbsolutePath(basePath, relativePath) !in files
      ensures r.Failure? ==> r.error == "Fixture not found: " + AbsolutePath(basePath, relativePath)
      ensures r.Success? ==> r.value == files[AbsolutePath(basePath, relativePath)]
    {
      var absolutePath := AbsolutePath(basePath, relativePath);
      if absolutePath !in files then Failure("Fixture not found: " + absolutePath)
      else Success(files[absolutePath])
    }
  }

  /** Fetching with extra slashes at the seam reads the same file or fails the same way. */
  lemma FetchIgnoresExtraSlashes(source: FixtureShoptokHtmlSource, files: map<string, string>,
                                 relativePath: string, m: nat, n: nat)
    ensures FixtureShoptokHtmlSource(source.basePath + Slashes(m)).Fetch(files, Slashes(n) + relativePath)
         == source.Fetch(files, relativePath)
  {
    ExtraSlashesIgnored(source.basePath, relativePath, m, n);
  }
}
