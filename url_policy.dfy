/** The URL helpers of the crawler's utility module: which discovered links
    are followed, relative-link conversion and fragment removal. The parts of
    `urllib.parse` they call are left uninterpreted. */
module UrlPolicy {
  import opened Wrappers
  import opened Text
  import opened Seqs

  /** `urlparse(url).netloc`, `urlparse(url).path` and `urljoin(base, url)`
      as arbitrary total functions: every property below holds whatever they
      compute. */
  datatype UrlLib = UrlLib(
    netloc: string -> string,
    path: string -> string,
    join: (string, string) -> string)

  /** `is_absolute_url`: the URL names a host. */
  predicate IsAbsoluteUrl(lib: UrlLib, url: string)
  {
    lib.netloc(url) != ""
  }

  /** `convert_if_relative_url`: nothing for a URL that already names a host,
      otherwise the link resolved against the page URL. */
  function ConvertIfRelativeUrl(lib: UrlLib, url1: string, url2: string): (r: Option<string>)
    ensures r.None? <==> IsAbsoluteUrl(lib, url2)
    ensures r.Some? ==> r.value == lib.join(url1, url2)
  {
    if !IsAbsoluteUrl(lib, url2) then Some(lib.join(url1, url2)) else None
  }

  /** `remove_fragment`: the URL up to, not including, its first `#`. */
  function RemoveFragment(url: string): (r: string)
    ensures '#' !in r
    ensures IsPrefix(r, url)
    ensures '#' !in url ==> r == url
    ensures |r| < |url| ==> url[|r|] == '#'
  {
    BeforeFirst(url, '#')
  }

  lemma RemoveFragmentIdempotent(url: string)
    ensures RemoveFragment(RemoveFragment(url)) == RemoveFragment(url)
  {
  }

  /** The path test that closes `is_url_ok_to_follow`: a directory, an HTML
      page, or a last segment without an extension. */
  predicate LooksLikePage(path: string)
  {
    EndsWith(path, "/") || EndsWith(path, ".html") || '.' !in AfterLast(path, '/')
  }

  /** `is_url_ok_to_follow`. A link is followed only if it starts with
      "http", its host is the crawl's domain and it holds no "@" and no
      "mailto:"; such a link is followed exactly when its path looks like a
      page. */
  function IsUrlOkToFollow(lib: UrlLib, url: string, domain: string): (ok: bool)
    ensures !StartsWith(url, "http") ==> !ok
    ensures lib.netloc(url) != domain ==> !ok
    ensures '@' in url || IsSubstring("mailto:", url) ==> !ok
    ensures StartsWith(url, "http") && lib.netloc(url) == domain
            && '@' !in url && !IsSubstring("mailto:", url)
            ==> (ok <==> LooksLikePage(lib.path(url)))
  {
    if !StartsWith(url, "http") then false
    else if lib.netloc(url) != domain then false
    else if '@' in url || IsSubstring("mailto:", url) then false
    else
      var path := lib.path(url);
      if EndsWith(path, "/") || EndsWith(path, ".html") then true
      else if '.' !in AfterLast(path, '/') then true
      else false
  }

  /** A URL names a host exactly when it is left unconverted; in particular
      every URL followed within a named domain is absolute, so a followed
      link is never resolved against the page once more. */
  lemma FollowedUrlsAreAbsolute(lib: UrlLib, base: string, url: string, domain: string)
    ensures IsAbsoluteUrl(lib, url) <==> lib.netloc(url) != ""
    ensures IsAbsoluteUrl(lib, url) <==> ConvertIfRelativeUrl(lib, base, url) == None
    ensures domain != "" && IsUrlOkToFollow(lib, url, domain) ==> IsAbsoluteUrl(lib, url)
  {
  }

  /** The checks that come before the path test. */
  predicate PassesHostChecks(lib: UrlLib, url: string, domain: string)
  {
    StartsWith(url, "http") && lib.netloc(url) == domain
    && '@' !in url && !IsSubstring("mailto:", url)
  }

  /** An in-domain URL with an empty path (`https://host`) is followed. */
  lemma EmptyPathFollowed(lib: UrlLib, url: string, domain: string)
    requires PassesHostChecks(lib, url, domain)
    requires lib.path(url) == ""
    ensures IsUrlOkToFollow(lib, url, domain)
  {
  }

  /** If `ext` holds a `.` and no `/`, the last segment of a path ending in
      `ext` holds a `.` too. */
  lemma {:induction false} LastSegmentKeepsExtension(path: string, ext: string)
    requires EndsWith(path, ext)
    requires '/' !in ext && '.' in ext
    ensures '.' in AfterLast(path, '/')
  {
    if |path| == |ext| {
      NoSeparatorWholeSegment(path);
    } else {
      var init := path[..|path| - 1];
      var last := path[|path| - 1];
      assert last == ext[|ext| - 1];
      assert last != '/';
      if ext[|ext| - 1] == '.' {
        assert AfterLast(path, '/') == AfterLast(init, '/') + [last];
      } else {
        var ext' := ext[..|ext| - 1];
        assert '.' in ext' by {
          var k :| 0 <= k < |ext| && ext[k] == '.';
          assert k < |ext| - 1;
          assert ext'[k] == '.';
        }
        assert '/' !in ext' by {
          forall k | 0 <= k < |ext'| ensures ext'[k] != '/' {
            assert ext'[k] == ext[k];
          }
        }
        assert init[|init| - |ext'|..] == ext';
        LastSegmentKeepsExtension(init, ext');
        assert AfterLast(path, '/') == AfterLast(init, '/') + [last];
      }
    }
  }

  /** A string without the separator is its own last segment. */
  lemma {:induction false} NoSeparatorWholeSegment(s: string)
    requires '/' !in s
    ensures AfterLast(s, '/') == s
  {
    if s != [] {
      NoSeparatorWholeSegment(s[..|s| - 1]);
    }
  }

  /** A static asset such as `/brochure.pdf` is never followed: a path that
      ends in an extension other than `.html` is rejected. */
  lemma AssetRejected(lib: UrlLib, url: string, domain: string, ext: string)
    requires EndsWith(lib.path(url), ext)
    requires '/' !in ext && '.' in ext
    requires !EndsWith(lib.path(url), ".html")
    ensures !IsUrlOkToFollow(lib, url, domain)
  {
    var path := lib.path(url);
    LastSegmentKeepsExtension(path, ext);
  }
}
