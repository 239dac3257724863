/**
 * src/routes/index-routes.ts: the path helpers `trimSlashes` and `join`,
 * which build a node's full path from its parent's path and its own.
 */
module Paths {
  import Strings

  /** `trimSlashes`: strip every leading and every trailing `/`. */
  function TrimSlashes(text: string): string {
    Strings.TrimEnd(Strings.TrimStart(text, "/"), "/")
  }

  /** `join`: the two trimmed paths with exactly one `/` between them. */
  function Join(left: string, right: string): string {
    TrimSlashes(left) + "/" + TrimSlashes(right)
  }

  lemma SlashMatches(c: char)
    ensures Strings.Matches(c, "/") <==> c == '/'
  {
  }

  /**
   * `trimSlashes(text)` is the stretch of `text` between its leading and its
   * trailing slashes: it neither starts nor ends with `/`, and only `/` was
   * cut off on either side.
   */
  lemma TrimSlashesIsCore(text: string) returns (start: nat, end: nat)
    ensures start <= end <= |text|
    ensures TrimSlashes(text) == text[start..end]
    ensures start < end ==> text[start] != '/' && text[end - 1] != '/'
    ensures forall j :: 0 <= j < start ==> text[j] == '/'
    ensures forall j :: end <= j < |text| ==> text[j] == '/'
  {
    var s := LeadingSlashesCut(text);
    var r := TrailingSlashesCut(s);
    start := |text| - |s|;
    end := start + |r|;
    CoreBetweenCuts(text, s, r, start, end);
  }

  /**
   * Cutting leading slashes off `text` (giving `s`) and then trailing ones off
   * `s` (giving `r`) leaves the stretch of `text` between the two runs.
   */
  lemma CoreBetweenCuts(text: string, s: string, r: string, start: nat, end: nat)
    requires |s| <= |text| && s == text[|text| - |s|..]
    requires s == "" || s[0] != '/'
    requires forall j :: 0 <= j < |text| - |s| ==> text[j] == '/'
    requires r <= s
    requires r == "" || r[|r| - 1] != '/'
    requires forall j :: |r| <= j < |s| ==> s[j] == '/'
    requires start == |text| - |s| && end == start + |r|
    ensures start <= end <= |text| && r == text[start..end]
    ensures start < end ==> text[start] != '/' && text[end - 1] != '/'
    ensures forall j :: 0 <= j < start ==> text[j] == '/'
    ensures forall j :: end <= j < |text| ==> text[j] == '/'
  {
    if r != "" {
      assert r[0] == s[0];
      assert text[start] == s[0];
      assert text[end - 1] == s[|r| - 1];
    }
    forall j | end <= j < |text| ensures text[j] == '/' {
      assert text[j] == s[j - start];
    }
  }

  /** `trimStart(text, '/')` cuts only slashes and leaves no leading one. */
  lemma LeadingSlashesCut(text: string) returns (s: string)
    ensures s == Strings.TrimStart(text, "/")
    ensures |s| <= |text| && s == text[|text| - |s|..]
    ensures s == "" || s[0] != '/'
    ensures forall j :: 0 <= j < |text| - |s| ==> text[j] == '/'
  {
    s := Strings.TrimStart(text, "/");
    if s != "" {
      SlashMatches(s[0]);
    }
    forall j | 0 <= j < |text| - |s| ensures text[j] == '/' {
      SlashMatches(text[j]);
    }
  }

  /** `trimEnd(text, '/')` cuts only slashes and leaves no trailing one. */
  lemma TrailingSlashesCut(text: string) returns (r: string)
    ensures r == Strings.TrimEnd(text, "/")
    ensures r <= text
    ensures r == "" || r[|r| - 1] != '/'
    ensures forall j :: |r| <= j < |text| ==> text[j] == '/'
  {
    r := Strings.TrimEnd(text, "/");
    if r != "" {
      SlashMatches(r[|r| - 1]);
    }
    forall j | |r| <= j < |text| ensures text[j] == '/' {
      SlashMatches(text[j]);
    }
  }

  /** Text made only of slashes (in particular `/` and the empty path) trims to nothing. */
  lemma TrimSlashesAllSlashes(text: string)
    requires forall j :: 0 <= j < |text| ==> text[j] == '/'
    ensures TrimSlashes(text) == ""
  {
    var _, _ := TrimSlashesIsCore(text);
  }

  /** Trimming twice is trimming once. */
  lemma TrimSlashesIdempotent(text: string)
    ensures TrimSlashes(TrimSlashes(text)) == TrimSlashes(text)
  {
    var r := TrimSlashes(text);
    var _, _ := TrimSlashesIsCore(text);
    if r != "" {
      SlashMatches(r[0]);
      SlashMatches(r[|r| - 1]);
      assert Strings.TrimStart(r, "/") == r;
      assert Strings.TrimEnd(r, "/") == r;
    }
  }

  /** A top-level route's path is `/` followed by its trimmed path. */
  lemma JoinTopLevel(path: string)
    ensures Join("/", path) == "/" + TrimSlashes(path)
  {
    var root := "/";
    TrimSlashesAllSlashes(root);
    assert TrimSlashes(root) + "/" == "/";
  }

  /**
   * A joined path starts with `/` exactly when the parent path trims to
   * nothing, so a route nested under a non-root path has no leading slash; the
   * separator is the only slash at the junction.
   */
  lemma JoinShape(left: string, right: string)
    ensures var l := TrimSlashes(left); var j := Join(left, right);
      && j[|l|] == '/'
      && (j[0] == '/' <==> l == "")
      && (|l| > 0 ==> j[|l| - 1] != '/')
      && (|j| > |l| + 1 ==> j[|l| + 1] != '/')
  {
    var _, _ := TrimSlashesIsCore(left);
    var _, _ := TrimSlashesIsCore(right);
  }
}
