/**
 * `validate_url`: `re.match` of the YouTube URL pattern, which reads an
 * optional scheme, an optional `www.`, one of three hosts, a dot, one of two
 * domains, a slash, an optional path and an eleven-character video id.
 * `re.match` anchors the pattern at the start of the string only, so
 * anything may follow the match.
 */
module UrlValidation {

  /** The optional `http://` or `https://`, including its absence. */
  const Schemes: seq<string> := ["", "http://", "https://"]
  /** The optional `www.`, including its absence. */
  const Subdomains: seq<string> := ["", "www."]
  const Hosts: seq<string> := ["youtube", "youtu", "youtube-nocookie"]
  const Domains: seq<string> := ["com", "be"]
  /** The fixed alternatives of the optional path group. */
  const PathPrefixes: seq<string> := ["watch?v=", "embed/", "v/"]

  /** Length of a video id. */
  const IdLength: nat := 11

  /** Any character but `&`, `=`, `%` and `?`. */
  predicate IsIdChar(c: char) {
    c != '&' && c != '=' && c != '%' && c != '?'
  }

  predicate IsVideoId(id: string) {
    |id| == IdLength && forall m :: 0 <= m < |id| ==> IsIdChar(id[m])
  }

  /** The open path alternative: one or more characters other than a newline, then `?v=`. */
  predicate IsQueryPath(p: string) {
    |p| >= 4 && p[|p| - 3..] == "?v=" && forall m :: 0 <= m < |p| - 3 ==> p[m] != '\n'
  }

  /** The optional path group (three fixed prefixes or the open alternative), filling the whole of `p`. */
  predicate IsPath(p: string) {
    p == "" || p in PathPrefixes || IsQueryPath(p)
  }

  /** Scheme, subdomain, host, domain and slash, as chosen by the four indices. */
  function Site(a: nat, b: nat, h: nat, d: nat): string
    requires a < |Schemes| && b < |Subdomains| && h < |Hosts| && d < |Domains|
  {
    Schemes[a] + Subdomains[b] + Hosts[h] + "." + Domains[d] + "/"
  }

  /** What follows `site` in `url` is an optional path, then an id. */
  ghost predicate FollowedByPathAndId(url: string, site: string) {
    exists path: string, id: string :: IsPath(path) && IsVideoId(id) && site + path + id <= url
  }

  /**
   * Some prefix of `url` splits into the parts the pattern lists, in order:
   * optional scheme, optional `www.`, host, `.`, domain, `/`, optional path,
   * eleven id characters.
   */
  ghost predicate HasVideoUrlPrefix(url: string) {
    exists a: nat, b: nat, h: nat, d: nat
      | a < |Schemes| && b < |Subdomains| && h < |Hosts| && d < |Domains| ::
        FollowedByPathAndId(url, Site(a, b, h, d))
  }

  /** Eleven id characters start at position `i` of `s`. */
  predicate VideoIdAt(s: string, i: nat) {
    i + IdLength <= |s| && forall m :: i <= m < i + IdLength ==> IsIdChar(s[m])
  }

  /** What follows the site: the optional path group, then the id. */
  predicate PathThenId(rest: string) {
    || VideoIdAt(rest, 0)
    || (exists p :: 0 <= p < |PathPrefixes| && PathPrefixes[p] <= rest && VideoIdAt(rest, |PathPrefixes[p]|))
    || (exists l :: 4 <= l <= |rest| && IsQueryPath(rest[..l]) && VideoIdAt(rest, l))
  }

  /** `validate_url(url)`: tries every combination of the fixed alternatives. */
  function ValidateUrl(url: string): (valid: bool)
    ensures valid <==> HasVideoUrlPrefix(url)
  {
    var valid := exists a: nat, b: nat, h: nat, d: nat |
      a < |Schemes| && b < |Subdomains| && h < |Hosts| && d < |Domains| ::
        Site(a, b, h, d) <= url && PathThenId(url[|Site(a, b, h, d)|..]);
    forall a: nat, b: nat, h: nat, d: nat | a < |Schemes| && b < |Subdomains| && h < |Hosts| && d < |Domains|
      ensures Site(a, b, h, d) <= url && PathThenId(url[|Site(a, b, h, d)|..])
        <==> FollowedByPathAndId(url, Site(a, b, h, d))
    {
      PathThenIdMeansSplit(url, Site(a, b, h, d));
    }
    valid
  }

  lemma {:induction false} VideoIdSlice(s: string, i: nat)
    requires VideoIdAt(s, i)
    ensures IsVideoId(s[i..i + IdLength])
  {
    var id := s[i..i + IdLength];
    forall m | 0 <= m < IdLength
      ensures IsIdChar(id[m])
    {
      assert id[m] == s[i + m];
    }
  }

  /** The scan after one site agrees with the declarative split. */
  lemma {:induction false} PathThenIdMeansSplit(url: string, site: string)
    ensures site <= url && PathThenId(url[|site|..]) <==> FollowedByPathAndId(url, site)
  {
    if site <= url && PathThenId(url[|site|..]) {
      ScanFindsSplit(url, site);
    }
    if FollowedByPathAndId(url, site) {
      SplitIsScanned(url, site);
    }
  }

  /** `site + rest[..i] + rest[i..i + 11]` is a prefix of `url` when `rest` is what follows `site`. */
  lemma {:induction false} SplitAfterSite(url: string, site: string, i: nat)
    requires site <= url && i + IdLength <= |url| - |site|
    ensures var rest := url[|site|..];
      site + rest[..i] + rest[i..i + IdLength] == url[..|site| + i + IdLength]
  {
    var rest := url[|site|..];
    assert rest[..i] + rest[i..i + IdLength] == rest[..i + IdLength];
    assert url[..|site| + i + IdLength] == url[..|site|] + url[|site|..|site| + i + IdLength];
    assert url[|site|..|site| + i + IdLength] == rest[..i + IdLength];
  }

  lemma {:induction false} ScanFindsSplit(url: string, site: string)
    requires site <= url && PathThenId(url[|site|..])
    ensures FollowedByPathAndId(url, site)
  {
    var rest := url[|site|..];
    var i: nat;
    if VideoIdAt(rest, 0) {
      i := 0;
    } else if exists p :: 0 <= p < |PathPrefixes| && PathPrefixes[p] <= rest && VideoIdAt(rest, |PathPrefixes[p]|) {
      var p :| 0 <= p < |PathPrefixes| && PathPrefixes[p] <= rest && VideoIdAt(rest, |PathPrefixes[p]|);
      i := |PathPrefixes[p]|;
      assert rest[..i] == PathPrefixes[p];
    } else {
      var l :| 4 <= l <= |rest| && IsQueryPath(rest[..l]) && VideoIdAt(rest, l);
      i := l;
    }
    var path, id := rest[..i], rest[i..i + IdLength];
    assert IsPath(path);
    VideoIdSlice(rest, i);
    SplitAfterSite(url, site, i);
  }

  lemma {:induction false} SplitIsScanned(url: string, site: string)
    requires FollowedByPathAndId(url, site)
    ensures site <= url && PathThenId(url[|site|..])
  {
    var path: string, id: string :| IsPath(path) && IsVideoId(id) && site + path + id <= url;
    assert site <= url by {
      assert (site + path + id)[..|site|] == site;
    }
    var rest := url[|site|..];
    assert path <= rest && rest[|path|..|path| + IdLength] == id by {
      var whole := site + path + id;
      assert url[..|whole|] == whole;
      assert rest[..|path| + IdLength] == whole[|site|..] == path + id;
      assert (path + id)[..|path|] == path && (path + id)[|path|..] == id;
    }
    assert VideoIdAt(rest, |path|) by {
      forall m | |path| <= m < |path| + IdLength
        ensures IsIdChar(rest[m])
      {
        assert rest[m] == id[m - |path|];
      }
    }
    if path == "" {
      assert PathThenId(rest);
    } else if path in PathPrefixes {
      var p :| 0 <= p < |PathPrefixes| && PathPrefixes[p] == path;
      assert PathThenId(rest);
    } else {
      assert rest[..|path|] == path;
      assert PathThenId(rest);
    }
  }

  lemma {:induction false} SplitSurvivesAppend(url: string, site: string, tail: string)
    requires FollowedByPathAndId(url, site)
    ensures FollowedByPathAndId(url + tail, site)
  {
    var path: string, id: string :| IsPath(path) && IsVideoId(id) && site + path + id <= url;
    var whole := site + path + id;
    assert (url + tail)[..|whole|] == url[..|whole|];
  }

  /** `re.match` is not `fullmatch`: anything may follow a valid URL. */
  lemma {:induction false} AnythingMayFollow(url: string, tail: string)
    requires ValidateUrl(url)
    ensures ValidateUrl(url + tail)
  {
    var a: nat, b: nat, h: nat, d: nat :| a < |Schemes| && b < |Subdomains| && h < |Hosts| && d < |Domains|
      && FollowedByPathAndId(url, Site(a, b, h, d));
    SplitSurvivesAppend(url, Site(a, b, h, d), tail);
  }

  lemma {:induction false} SplitStartsWithSite(url: string, site: string)
    requires FollowedByPathAndId(url, site)
    ensures |url| >= |site| + IdLength
    ensures forall m :: 0 <= m < |site| ==> url[m] == site[m]
  {
    var path: string, id: string :| IsPath(path) && IsVideoId(id) && site + path + id <= url;
    assert forall m :: 0 <= m < |site| ==> (site + path + id)[m] == site[m];
  }

  /** Every site is at least as long as `youtu.be/` and starts with `h`, `w` or `y`. */
  lemma {:induction false} SiteShape(a: nat, b: nat, h: nat, d: nat)
    requires a < |Schemes| && b < |Subdomains| && h < |Hosts| && d < |Domains|
    ensures |Site(a, b, h, d)| >= |"youtu.be/"|
    ensures var c := Site(a, b, h, d)[0]; c == 'h' || c == 'w' || c == 'y'
  {
    var first := if a > 0 then Schemes[a] else if b > 0 then Subdomains[b] else Hosts[h];
    assert |first| > 0 && (first[0] == 'h' || first[0] == 'w' || first[0] == 'y');
    assert Site(a, b, h, d)[0] == first[0];
    assert |Hosts[h]| >= 5 && |Domains[d]| >= 2;
  }

  /**
   * Nothing may precede the match: a valid URL starts with a scheme, `www.`
   * or a host, and is at least as long as the shortest site plus an id.
   */
  lemma {:induction false} AnchoredAtStart(url: string)
    requires ValidateUrl(url)
    ensures |url| >= |"youtu.be/"| + IdLength
    ensures url[0] == 'h' || url[0] == 'w' || url[0] == 'y'
  {
    var a: nat, b: nat, h: nat, d: nat :| a < |Schemes| && b < |Subdomains| && h < |Hosts| && d < |Domains|
      && FollowedByPathAndId(url, Site(a, b, h, d));
    SiteShape(a, b, h, d);
    SplitStartsWithSite(url, Site(a, b, h, d));
  }

  /** `dQw4w9WgXcQ` is a well-formed video id. */
  lemma {:induction false} SampleId()
    ensures IsVideoId("dQw4w9WgXcQ")
  {
  }

  lemma {:induction false} WatchSite()
    ensures Site(2, 1, 0, 0) == "https://www.youtube.com/"
  {
    assert Schemes[2] == "https://" && Subdomains[1] == "www." && Hosts[0] == "youtube" && Domains[0] == "com";
  }

  lemma {:induction false} AcceptsWatchUrl()
    ensures ValidateUrl("https://www.youtube.com/watch?v=dQw4w9WgXcQ")
  {
    var url := "https://www.youtube.com/watch?v=dQw4w9WgXcQ";
    WatchSite();
    SampleId();
    assert "https://www.youtube.com/" + "watch?v=" + "dQw4w9WgXcQ" == url;
    assert PathPrefixes[0] == "watch?v=";
    assert FollowedByPathAndId(url, Site(2, 1, 0, 0));
  }

  lemma {:induction false} AcceptsShortUrl()
    ensures ValidateUrl("youtu.be/dQw4w9WgXcQ")
  {
    assert Site(0, 0, 1, 1) == "youtu.be/";
    assert Site(0, 0, 1, 1) + "" + "dQw4w9WgXcQ" == "youtu.be/dQw4w9WgXcQ";
    assert IsVideoId("dQw4w9WgXcQ");
    assert FollowedByPathAndId("youtu.be/dQw4w9WgXcQ", Site(0, 0, 1, 1));
  }

  /** Another host, and an id cut short, are both refused. */
  lemma {:induction false} RejectsOtherSites()
    ensures !ValidateUrl("vimeo.com/76979871")
    ensures !ValidateUrl("youtu.be/dQw4w9")
  {
    if ValidateUrl("vimeo.com/76979871") {
      AnchoredAtStart("vimeo.com/76979871");
    }
    if ValidateUrl("youtu.be/dQw4w9") {
      AnchoredAtStart("youtu.be/dQw4w9");
    }
  }
}
