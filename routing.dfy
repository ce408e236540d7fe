/** The top-level view choice of the school client: the administrator login, the quick weigh-in
    page, the login screen, or the main layout with the one page its menu selects; and the
    quick-entry link the main layout offers. */
module Routing {
  import opened Wrappers
  import opened Seqs
  import opened Text
  import opened Auth
  import opened Http
  import Uri

  datatype Page = Home | Wrestlers | Graph | ReportingPage | Options

  datatype View = AdminLogin | QuickEntryPage | LoginScreen | MainLayout(pages: seq<Page>)

  /** `path.split('/').filter(Boolean)`: the non-empty segments. */
  function Segments(path: string): (segs: seq<string>)
    ensures forall i :: 0 <= i < |segs| ==> segs[i] != ""
  {
    Filter(Split(path, '/'), (p: string) => p != "")
  }

  /** Starts with `/w/` and has exactly two non-empty segments. */
  predicate IsQuickPath(path: string) {
    StartsWith(path, "/w/") && |Segments(path)| == 2
  }

  /** The pages the main layout renders for `currentPage`, one `&&` test per page. */
  function Rendered(currentPage: string): (pages: seq<Page>)
    ensures |pages| <= 1
    ensures |pages| == 1 <==> currentPage in {"home", "wrestlers", "graph", "reporting", "options"}
  {
    (if currentPage == "home" then [Home] else []) +
    (if currentPage == "wrestlers" then [Wrestlers] else []) +
    (if currentPage == "graph" then [Graph] else []) +
    (if currentPage == "reporting" then [ReportingPage] else []) +
    (if currentPage == "options" then [Options] else [])
  }

  /** The view for a path, whether a school is signed in, and the selected menu page. */
  function Route(path: string, hasSchool: bool, currentPage: string): (v: View)
    ensures path == "/admin" ==> v == AdminLogin
    ensures path != "/admin" && IsQuickPath(path) ==> v == QuickEntryPage
    ensures path != "/admin" && !IsQuickPath(path) && !hasSchool ==> v == LoginScreen
    ensures path != "/admin" && !IsQuickPath(path) && hasSchool ==> v == MainLayout(Rendered(currentPage))
  {
    if path == "/admin" then AdminLogin
    else if IsQuickPath(path) then QuickEntryPage
    else if !hasSchool then LoginScreen
    else MainLayout(Rendered(currentPage))
  }

  /** Each menu choice renders its own page and nothing else. */
  lemma RenderedPages()
    ensures Rendered("home") == [Home] && Rendered("wrestlers") == [Wrestlers] && Rendered("graph") == [Graph]
    ensures Rendered("reporting") == [ReportingPage] && Rendered("options") == [Options]
  {
  }

  lemma SplitLead(rest: string)
    ensures Split("/" + rest, '/') == [""] + Split(rest, '/')
  {
    var s := "/" + rest;
    assert IndexOf(s, '/') == Some(0);
    assert s[1..] == rest;
  }

  lemma SplitWord(w: string, rest: string)
    requires '/' !in w
    ensures Split(w + "/" + rest, '/') == [w] + Split(rest, '/')
  {
    var s := w + "/" + rest;
    assert s[|w|] == '/';
    assert s[..|w|] == w;
    assert IndexOf(s, '/') == Some(|w|);
    assert s[|w| + 1..] == rest;
  }

  /** The segments of `/w/` followed by a slash-free name are `w` and the name. */
  lemma QuickSegments(name: string)
    requires name != "" && '/' !in name
    ensures Segments("/w/" + name) == ["w", name]
  {
    var p := (s: string) => s != "";
    assert "/w/" + name == "/" + ("w" + "/" + name);
    SplitLead("w" + "/" + name);
    SplitWord("w", name);
    assert Split(name, '/') == [name];
    assert Split("/w/" + name, '/') == [""] + (["w"] + [name]);
    FilterAppend([""], ["w"] + [name], p);
    FilterAppend(["w"], [name], p);
  }

  /** A slash-free name after `/w/` opens the quick page. */
  lemma QuickPathName(name: string)
    requires name != "" && '/' !in name
    ensures IsQuickPath("/w/" + name)
  {
    QuickSegments(name);
    assert ("/w/" + name)[..3] == "/w/";
  }

  /** A third segment after the name keeps the path off the quick page. */
  lemma QuickPathTooDeep(name: string, more: string)
    requires name != "" && '/' !in name && more != "" && '/' !in more
    ensures !IsQuickPath("/w/" + name + "/" + more)
  {
    var p := (s: string) => s != "";
    var path := "/w/" + name + "/" + more;
    assert path == "/" + ("w" + "/" + (name + "/" + more));
    SplitLead("w" + "/" + (name + "/" + more));
    SplitWord("w", name + "/" + more);
    SplitWord(name, more);
    assert Split(more, '/') == [more];
    assert Split(path, '/') == [""] + (["w"] + ([name] + [more]));
    FilterAppend([""], ["w"] + ([name] + [more]), p);
    FilterAppend(["w"], [name] + [more], p);
    FilterAppend([name], [more], p);
  }

  /** `/w/` alone has one segment and stays off the quick page. */
  lemma QuickPathBare()
    ensures !IsQuickPath("/w/")
  {
    var p := (s: string) => s != "";
    assert "/w/" == "/" + ("w" + "/" + "");
    SplitLead("w" + "/" + "");
    SplitWord("w", "");
    assert Split("", '/') == [""];
    assert Split("/w/", '/') == [""] + (["w"] + [""]);
    FilterAppend([""], ["w"] + [""], p);
    FilterAppend(["w"], [""], p);
  }

  /** `/w/x` opens the quick page; `/w/x/y` and `/w/` do not. */
  lemma QuickPathExamples()
    ensures IsQuickPath("/w/x") && !IsQuickPath("/w/x/y") && !IsQuickPath("/w/")
  {
    QuickPathName("x");
    QuickPathTooDeep("x", "y");
    assert "/w/" + "x" + "/" + "y" == "/w/x/y";
    QuickPathBare();
  }

  /** `school.name || school.code` as text for the link: a missing code reads `null`, and a
      code that the token stores as `login_code` reads `undefined`. */
  function LinkLabel(school: Profile): string {
    if school.name.Some? && school.name.value != "" then school.name.value
    else match school.code
      case CodeOnlyClaim(c) => if c.Some? then c.value else "null"
      case LoginCodeClaim(_) => "undefined"
  }

  function QuickLink(school: Profile): string {
    "/w/" + Uri.Encode(LinkLabel(school))
  }

  /** The link opens the quick page whatever the session, and its school segment decodes to the
      label, unless the label is empty. */
  lemma QuickLinkRoutes(school: Profile, hasSchool: bool, currentPage: string)
    requires LinkLabel(school) != ""
    ensures Route(QuickLink(school), hasSchool, currentPage) == QuickEntryPage
    ensures Segments(QuickLink(school))[1] == Uri.Encode(LinkLabel(school))
    ensures Uri.Decode(Segments(QuickLink(school))[1]) == Some(LinkLabel(school))
  {
    var e := Uri.Encode(LinkLabel(school));
    Uri.EncodeSafe(LinkLabel(school), '/');
    QuickSegments(e);
    Uri.DecodeEncode(LinkLabel(school));
    assert QuickLink(school)[..3] == "/w/";
    assert QuickLink(school) != "/admin" by {
      assert QuickLink(school)[1] == 'w';
    }
  }
}
