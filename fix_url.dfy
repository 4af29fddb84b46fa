/**
 * HtmlCrawler.fixUrl: resolving a link found on a page against the page's
 * own path. The page path is cut before its last `/`; then, as long as the
 * link starts with `../`, every `../` is deleted from the link and one more
 * trailing `/segment` is cut from the page path.
 */
module UrlFix {
  import opened Options

  /** The marker of one level up. */
  const Up: string := "../"

  /** What `substring(0, -1)` throws on: a path with no `/` left to cut at. */
  const NoParent: string := "no / left to cut the path at"

  predicate StartsWithUp(s: string)
  {
    |s| >= 3 && s[..3] == Up
  }

  /** An occurrence of `../` starts at position `i` of `s`. */
  predicate UpAt(s: string, i: int)
  {
    0 <= i && i + 3 <= |s| && s[i..i + 3] == Up
  }

  ghost predicate ContainsUp(s: string)
  {
    exists i :: UpAt(s, i)
  }

  /** String.lastIndexOf: the last position of `c` in `s`, or -1 when there is none. */
  function LastIndexOf(s: string, c: char): (r: int)
    ensures -1 <= r < |s|
    ensures r >= 0 ==> s[r] == c && forall j :: r < j < |s| ==> s[j] != c
    ensures r == -1 <==> c !in s
    decreases |s|
  {
    if s == [] then -1
    else if s[|s| - 1] == c then |s| - 1
    else
      assert s == s[..|s| - 1] + [s[|s| - 1]];
      LastIndexOf(s[..|s| - 1], c)
  }

  /**
   * String.replace("../", ""): the occurrences are found left to right
   * without overlap and deleted in one pass; a link without one is kept,
   * and a link that starts with one gets shorter.
   */
  function RemoveUps(s: string): (r: string)
    ensures |r| <= |s|
    ensures StartsWithUp(s) ==> |r| <= |s| - 3
    ensures !ContainsUp(s) ==> r == s
    decreases |s|
  {
    if |s| < 3 then s
    else if s[..3] == Up then
      assert UpAt(s, 0);
      RemoveUps(s[3..])
    else
      assert !ContainsUp(s) ==> !ContainsUp(s[1..]) by {
        if ContainsUp(s[1..]) {
          var i :| UpAt(s[1..], i);
          assert s[1..][i..i + 3] == s[i + 1..i + 4];
          assert UpAt(s, i + 1);
        }
      }
      [s[0]] + RemoveUps(s[1..])
  }

  /** The number of `/` in `s`. */
  function Slashes(s: string): nat
  {
    multiset(s)['/']
  }

  /** How many passes the loop of fixUrl makes over the link `fixed`. */
  function Passes(fixed: string): nat
    decreases |fixed|
  {
    if !StartsWithUp(fixed) then 0 else 1 + Passes(RemoveUps(fixed))
  }

  /** What is left of the link `fixed` once the loop stops. */
  function Rest(fixed: string): string
    decreases |fixed|
  {
    if !StartsWithUp(fixed) then fixed else Rest(RemoveUps(fixed))
  }

  /** Cutting at the last `/` removes exactly one `/`, the one the cut keeps after it. */
  lemma LastSlash(s: string)
    requires '/' in s
    ensures var r := LastIndexOf(s, '/');
            0 <= r && Slashes(s[r..]) == 1 && Slashes(s) == Slashes(s[..r]) + 1
  {
    var r := LastIndexOf(s, '/');
    assert s[r..] == [s[r]] + s[r + 1..];
    assert '/' !in s[r + 1..];
    assert s == s[..r] + s[r..];
  }

  /** Cutting `s` at `cut` and then at `n` keeps the same first `n` characters, and the `/` cut off add up. */
  lemma CutTwice(s: string, cut: nat, n: nat)
    requires n <= cut <= |s|
    ensures s[..cut][..n] == s[..n]
    ensures n < cut ==> s[..cut][n] == s[n]
    ensures Slashes(s[n..]) == Slashes(s[..cut][n..]) + Slashes(s[cut..])
  {
    assert s[n..] == s[..cut][n..] + s[cut..];
  }

  /**
   * The loop of fixUrl, pass by pass, from the cut page path `prefix` and
   * the link `fixed`: each pass cuts the path once more, so the loop fails
   * exactly when it makes more passes than the path has `/` to cut at.
   */
  function Climb(prefix: string, fixed: string): (r: Result<string, string>)
    ensures r.Failure? <==> Passes(fixed) > Slashes(prefix)
    ensures r.Failure? ==> r.error == NoParent
    decreases |fixed|
  {
    if !StartsWithUp(fixed) then Success(prefix + fixed)
    else
      var cut := LastIndexOf(prefix, '/');
      if cut < 0 then Failure(NoParent)
      else
        LastSlash(prefix);
        Climb(prefix[..cut], RemoveUps(fixed))
  }

  /**
   * What fixUrl computes, or the failure it throws: the first cut takes one
   * `/` of the page path and every pass one more, so it fails exactly when
   * the page path has no more `/` than the link has passes.
   */
  function FixedUrl(relativeUrl: string, additionalPath: string): (r: Result<string, string>)
    ensures r.Failure? <==> Slashes(relativeUrl) <= Passes(additionalPath)
    ensures r.Failure? ==> r.error == NoParent
  {
    var cut := LastIndexOf(relativeUrl, '/');
    if cut < 0 then Failure(NoParent)
    else
      LastSlash(relativeUrl);
      Climb(relativeUrl[..cut], additionalPath)
  }

  /** fixUrl, with its while loop. */
  method FixUrl(relativeUrl: string, additionalPath: string) returns (r: Result<string, string>)
    ensures r == FixedUrl(relativeUrl, additionalPath)
  {
    var fixedUrl := additionalPath;
    var cut := LastIndexOf(relativeUrl, '/');
    if cut < 0 {
      return Failure(NoParent);
    }
    var prefixUrl := relativeUrl[..cut];
    while StartsWithUp(fixedUrl)
      invariant Climb(prefixUrl, fixedUrl) == FixedUrl(relativeUrl, additionalPath)
      decreases |fixedUrl|
    {
      fixedUrl := RemoveUps(fixedUrl);
      cut := LastIndexOf(prefixUrl, '/');
      if cut < 0 {
        return Failure(NoParent);
      }
      prefixUrl := prefixUrl[..cut];
    }
    return Success(prefixUrl + fixedUrl);
  }

  /**
   * A successful climb ends with a prefix of the page path, cut just before
   * a `/` unless nothing was cut, followed by what is left of the link,
   * which no longer starts with `../`; the part of the path cut off holds
   * exactly one `/` per pass.
   */
  lemma {:induction false} ClimbShape(prefix: string, fixed: string) returns (n: nat, rest: string)
    requires Climb(prefix, fixed).Success?
    ensures n <= |prefix| && (n == |prefix| || prefix[n] == '/')
    ensures Climb(prefix, fixed).value == prefix[..n] + rest
    ensures !StartsWithUp(rest) && |rest| <= |fixed| && rest == Rest(fixed)
    ensures n == |prefix| <==> !StartsWithUp(fixed)
    ensures Slashes(prefix[n..]) == Passes(fixed)
    decreases |fixed|
  {
    if !StartsWithUp(fixed) {
      n, rest := |prefix|, fixed;
      assert prefix[..n] == prefix;
      assert prefix[n..] == [];
    } else {
      var cut := LastIndexOf(prefix, '/');
      LastSlash(prefix);
      var m, f := ClimbShape(prefix[..cut], RemoveUps(fixed));
      n, rest := m, f;
      CutTwice(prefix, cut, m);
    }
  }

  /**
   * A resolved link is a prefix of the page path, cut just before one of
   * its `/`, followed by the remainder of the link; the part cut off holds
   * one `/` for the first cut and one per pass.
   */
  lemma FixedUrlShape(relativeUrl: string, additionalPath: string) returns (n: nat, rest: string)
    requires FixedUrl(relativeUrl, additionalPath).Success?
    ensures n < |relativeUrl| && relativeUrl[n] == '/'
    ensures FixedUrl(relativeUrl, additionalPath).value == relativeUrl[..n] + rest
    ensures !StartsWithUp(rest) && |rest| <= |additionalPath| && rest == Rest(additionalPath)
    ensures Slashes(relativeUrl[n..]) == Passes(additionalPath) + 1
  {
    var cut := LastIndexOf(relativeUrl, '/');
    LastSlash(relativeUrl);
    n, rest := ClimbShape(relativeUrl[..cut], additionalPath);
    CutTwice(relativeUrl, cut, n);
  }

  /** A link that does not start with `../` is appended to the page path cut before its last `/`. */
  lemma NoClimb(relativeUrl: string, additionalPath: string)
    requires !StartsWithUp(additionalPath) && '/' in relativeUrl
    ensures FixedUrl(relativeUrl, additionalPath)
            == Success(relativeUrl[..LastIndexOf(relativeUrl, '/')] + additionalPath)
  {
  }

  /** `../../x` climbs one level only: the first pass deletes both `../`. */
  lemma DoubleUpClimbsOnce()
    ensures FixedUrl("/a/b/p", "../../x") == Success("/a" + "x")
  {
    BothUpsGo();
    DoubleUpCuts();
    assert Climb("/a", "x") == Success("/a" + "x");
    assert Climb("/a/b", "../../x") == Climb("/a", "x");
  }

  /** The two cuts of that climb: before the page name, then before "b". */
  lemma DoubleUpCuts()
    ensures LastIndexOf("/a/b/p", '/') == 4 && "/a/b/p"[..4] == "/a/b"
    ensures LastIndexOf("/a/b", '/') == 2 && "/a/b"[..2] == "/a"
  {
    assert "/a/b/p"[..5] == "/a/b/";
    assert "/a/b"[..3] == "/a/";
  }

  lemma BothUpsGo()
    ensures RemoveUps("../../x") == "x"
  {
    assert "../../x"[..3] == Up && "../../x"[3..] == "../x";
    assert "../x"[..3] == Up && "../x"[3..] == "x";
  }

  /**
   * The caller prefixes the page path with `/`, which makes the first cut
   * safe; climbing above the top of the path then fails.
   */
  lemma ClimbAboveTopFails()
    ensures FixedUrl("/page.html", "../x.html") == Failure(NoParent)
  {
    assert "../x.html"[..3] == Up;
    assert "/page.html" == "/" + "page.html";
    assert '/' !in "page.html";
    assert Slashes("/page.html") == 1;
  }

  /**
   * One pass of replace can leave a new `../` behind, formed where the text
   * around a deleted occurrence meets; the next pass of the loop takes it.
   */
  lemma ReplaceCanFormUp()
    ensures RemoveUps("....//") == Up
  {
    assert "....//"[..3][2] != Up[2];
    assert "....//"[..3] != Up && "....//"[1..] == "...//";
    assert "...//"[..3] != Up && "...//"[1..] == "..//";
    assert "..//"[..3] == Up && "..//"[3..] == "/";
  }
}
