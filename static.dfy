/**
 * The single-page-app fallback: paths under /api/ are not found, files that
 * exist are served as they are, and every other path gets index.html. For
 * `/book/<hash>` and `/read/<hash>` pages of a stored book, the first
 * `<!--DYNAMIC_META-->` placeholder of index.html is replaced by the book's
 * title, description, OpenGraph and Twitter tags, every value HTML-escaped.
 */
module Static {
  import opened Wrappers
  import opened GoStrings
  import opened Model
  import BookRepo

  const Placeholder: string := "<!--DYNAMIC_META-->"
  /** What the meta writer puts after every tag but the last. */
  const Indent: string := "\n    "
  const PageBook: string := "book"
  const PageRead: string := "read"
  const IndexNotFoundMsg: string := "index.html not found"

  // ---------------------------------------------------------------------------
  // Routing: `^/(book|read)/([a-fA-F0-9]+)$`
  // ---------------------------------------------------------------------------

  predicate IsHexDigit(c: char)
  {
    '0' <= c <= '9' || 'a' <= c <= 'f' || 'A' <= c <= 'F'
  }

  predicate IsHexString(s: string)
  {
    forall i :: 0 <= i < |s| ==> IsHexDigit(s[i])
  }

  /** The two submatches of a book page path. */
  datatype PageRoute = PageRoute(pageType: string, hash: string)

  predicate IsPageType(t: string)
  {
    t == PageBook || t == PageRead
  }

  /** A page path: the page type, then a non-empty run of hex digits up to the end. */
  function MatchBookPath(path: string): (r: Option<PageRoute>)
    ensures r.Some? ==> IsPageType(r.value.pageType) && |r.value.hash| > 0 && IsHexString(r.value.hash)
                        && path == "/" + r.value.pageType + "/" + r.value.hash
  {
    if |path| > 6 && path[..6] == "/book/" && IsHexString(path[6..]) then
      assert path == path[..6] + path[6..];
      Some(PageRoute(PageBook, path[6..]))
    else if |path| > 6 && path[..6] == "/read/" && IsHexString(path[6..]) then
      assert path == path[..6] + path[6..];
      Some(PageRoute(PageRead, path[6..]))
    else None
  }

  /** Every book or read path with a non-empty hex hash matches, with its own submatches. */
  lemma MatchesPagePath(pageType: string, hash: string)
    requires IsPageType(pageType) && |hash| > 0 && IsHexString(hash)
    ensures MatchBookPath("/" + pageType + "/" + hash) == Some(PageRoute(pageType, hash))
  {
    var path := "/" + pageType + "/" + hash;
    assert path[..6] == "/" + pageType + "/";
    assert path[6..] == hash;
    assert path[1] == pageType[0];
  }

  // ---------------------------------------------------------------------------
  // HTML escaping (template.HTMLEscapeString)
  // ---------------------------------------------------------------------------

  /** The three bytes of U+FFFD, which stand in for a NUL byte. */
  const ReplacementChar: string := ['ï', '¿', '½']

  predicate IsSpecial(c: char)
  {
    c == '\0' || c == '"' || c == '\'' || c == '&' || c == '<' || c == '>'
  }

  function EscapeChar(c: char): (r: string)
    ensures |r| >= 1
    ensures !IsSpecial(c) ==> r == [c]
  {
    if c == '\0' then ReplacementChar
    else if c == '"' then "&#34;"
    else if c == '\'' then "&#39;"
    else if c == '&' then "&amp;"
    else if c == '<' then "&lt;"
    else if c == '>' then "&gt;"
    else [c]
  }

  /** Each special byte replaced by its entity (NUL by U+FFFD), every other byte kept. */
  function Escape(s: string): (r: string)
    ensures |r| >= |s|
  {
    if s == [] then [] else EscapeChar(s[0]) + Escape(s[1..])
  }

  /** The escaped text holds no quote, angle bracket or NUL: it cannot end an attribute or open a tag. */
  lemma {:induction false} EscapeIsInert(s: string)
    ensures forall i :: 0 <= i < |Escape(s)| ==> !IsSpecial(Escape(s)[i]) || Escape(s)[i] == '&'
  {
    if s != [] {
      EscapeIsInert(s[1..]);
      var head, tail := EscapeChar(s[0]), Escape(s[1..]);
      assert Escape(s) == head + tail;
      forall i | 0 <= i < |head + tail| ensures !IsSpecial((head + tail)[i]) || (head + tail)[i] == '&' {
        if i >= |head| {
          assert (head + tail)[i] == tail[i - |head|];
        }
      }
    }
  }

  /** Text without special bytes is left as it is. */
  lemma {:induction false} EscapePlain(s: string)
    requires forall i :: 0 <= i < |s| ==> !IsSpecial(s[i])
    ensures Escape(s) == s
  {
    if s != [] {
      EscapePlain(s[1..]);
      assert s == [s[0]] + s[1..];
    }
  }

  /** The reading a browser gives an escaped attribute value back: each entity the escaper writes becomes its byte again. */
  function Unescape(s: string): (r: string)
    decreases |s|
  {
    if s == [] then []
    else if s[0] == '&' && HasPrefix(s, "&#34;") then "\"" + Unescape(s[5..])
    else if s[0] == '&' && HasPrefix(s, "&#39;") then "'" + Unescape(s[5..])
    else if s[0] == '&' && HasPrefix(s, "&amp;") then "&" + Unescape(s[5..])
    else if s[0] == '&' && HasPrefix(s, "&lt;") then "<" + Unescape(s[4..])
    else if s[0] == '&' && HasPrefix(s, "&gt;") then ">" + Unescape(s[4..])
    else [s[0]] + Unescape(s[1..])
  }

  lemma UnescapeChar(c: char, t: string)
    requires c != '\0'
    ensures Unescape(EscapeChar(c) + t) == [c] + Unescape(t)
  {
    var e := EscapeChar(c) + t;
    if c == '"' || c == '\'' || c == '&' {
      assert e[..5] == EscapeChar(c) && e[5..] == t;
      assert e[1] == (if c == '&' then 'a' else '#');
      assert c == '\'' ==> e[3] == '9';
    } else if c == '<' || c == '>' {
      assert e[..4] == EscapeChar(c) && e[4..] == t;
      assert e[1] == (if c == '<' then 'l' else 'g');
      assert !HasPrefix(e, "&#34;") && !HasPrefix(e, "&#39;") && !HasPrefix(e, "&amp;");
      assert c == '>' ==> !HasPrefix(e, "&lt;");
    } else {
      assert e[0] == c && e[1..] == t;
    }
  }

  /** Escaping text without NUL bytes loses nothing: unescaping gives the text back. */
  lemma {:induction false} UnescapeEscape(s: string)
    requires forall i :: 0 <= i < |s| ==> s[i] != '\0'
    ensures Unescape(Escape(s)) == s
  {
    if s != [] {
      UnescapeEscape(s[1..]);
      UnescapeChar(s[0], Escape(s[1..]));
      assert s == [s[0]] + s[1..];
    }
  }

  // ---------------------------------------------------------------------------
  // The meta tags
  // ---------------------------------------------------------------------------

  /** `" by " + authors`, or nothing when there are no authors. */
  function AuthorInfo(b: SavedBook): (r: string)
    ensures r == "" <==> b.authors == ""
    ensures r != "" ==> r == " by " + b.authors
  {
    if b.authors != "" then " by " + b.authors else ""
  }

  datatype PageTexts = PageTexts(pageTitle: string, ogTitle: string, ogDescription: string)

  /** The page title, the OpenGraph title and the description: read pages invite reading online, book pages give format and size. */
  function Texts(b: SavedBook, pageType: string): (r: PageTexts)
    ensures pageType == PageRead ==>
              && r.pageTitle == "Read " + b.title + AuthorInfo(b) + " - mArchive"
              && r.ogTitle == "Read " + b.title + " on mArchive"
              && r.ogDescription == b.title + AuthorInfo(b) + " - Read online on mArchive."
    ensures pageType != PageRead ==>
              && r.pageTitle == b.title + AuthorInfo(b) + " - mArchive"
              && r.ogTitle == b.title + AuthorInfo(b) + " | mArchive"
              && r.ogDescription == b.title + AuthorInfo(b) + " - " + b.format + " - " + b.size + "."
  {
    var authorInfo := AuthorInfo(b);
    if pageType == PageRead then
      PageTexts("Read " + b.title + authorInfo + " - mArchive",
                "Read " + b.title + " on mArchive",
                b.title + authorInfo + " - Read online on mArchive.")
    else
      PageTexts(b.title + authorInfo + " - mArchive",
                b.title + authorInfo + " | mArchive",
                b.title + authorInfo + " - " + b.format + " - " + b.size + ".")
  }

  predicate IsAbsoluteURL(s: string)
  {
    HasPrefix(s, "http://") || HasPrefix(s, "https://")
  }

  /** The cover a scraper can fetch: the cover URL if absolute, else the cover data if absolute, else none. */
  function CoverImage(b: SavedBook): (r: string)
    ensures r == "" || IsAbsoluteURL(r)
    ensures IsAbsoluteURL(b.coverURL) ==> r == b.coverURL
    ensures !IsAbsoluteURL(b.coverURL) && IsAbsoluteURL(b.coverData) ==> r == b.coverData
    ensures !IsAbsoluteURL(b.coverURL) && !IsAbsoluteURL(b.coverData) ==> r == ""
  {
    if b.coverURL != "" && IsAbsoluteURL(b.coverURL) then b.coverURL
    else if b.coverData != "" && IsAbsoluteURL(b.coverData) then b.coverData
    else ""
  }

  /** One tag: the page title, or a meta tag keyed by `name` or `property`. */
  datatype Tag =
    | Title(text: string)
    | Meta(attr: string, key: string, content: string)

  function Render(t: Tag): string
  {
    match t
    case Title(text) => "<title>" + text + "</title>"
    case Meta(attr, key, content) => "<meta " + attr + "=\"" + key + "\" content=\"" + content + "\">"
  }

  /** The tags of a book page, in the order they are written, every interpolated value escaped. */
  function Tags(b: SavedBook, pageType: string, pageURL: string): (r: seq<Tag>)
    ensures |r| == if CoverImage(b) != "" then 11 else 8
  {
    var texts := Texts(b, pageType);
    var cover := CoverImage(b);
    [ Title(Escape(texts.pageTitle)),
      Meta("name", "description", Escape(texts.ogDescription)),
      Meta("property", "og:title", Escape(texts.ogTitle)),
      Meta("property", "og:description", Escape(texts.ogDescription)),
      Meta("property", "og:url", Escape(pageURL)),
      Meta("property", "og:type", "book") ]
    + (if cover != "" then
         [ Meta("property", "og:image", Escape(cover)),
           Meta("name", "twitter:card", "summary_large_image"),
           Meta("name", "twitter:image", Escape(cover)) ]
       else [])
    + [ Meta("name", "twitter:title", Escape(texts.ogTitle)),
        Meta("name", "twitter:description", Escape(texts.ogDescription)) ]
  }

  /** Whether some tag carries that key. */
  predicate HasKey(tags: seq<Tag>, key: string)
  {
    exists i :: 0 <= i < |tags| && tags[i].Meta? && tags[i].key == key
  }

  /** With a cover, the og:image, twitter:card and twitter:image tags follow og:type, which is always "book". */
  lemma ImageTagsWithCover(b: SavedBook, pageType: string, pageURL: string)
    requires CoverImage(b) != ""
    ensures var tags := Tags(b, pageType, pageURL);
            && tags[5] == Meta("property", "og:type", "book")
            && tags[6] == Meta("property", "og:image", Escape(CoverImage(b)))
            && tags[7] == Meta("name", "twitter:card", "summary_large_image")
            && tags[8] == Meta("name", "twitter:image", Escape(CoverImage(b)))
            && HasKey(tags, "og:image") && HasKey(tags, "twitter:image") && HasKey(tags, "twitter:card")
  {
    var tags := Tags(b, pageType, pageURL);
    assert tags[6].key == "og:image" && tags[7].key == "twitter:card" && tags[8].key == "twitter:image";
  }

  /** The keys of the tags of a page without a cover. */
  const PlainKeys: seq<string> := ["description", "og:title", "og:description", "og:url", "og:type", "twitter:title", "twitter:description"]

  /** Without a cover, no image or card tag is written, and og:type is still "book". */
  lemma NoImageTagsWithoutCover(b: SavedBook, pageType: string, pageURL: string)
    requires CoverImage(b) == ""
    ensures var tags := Tags(b, pageType, pageURL);
            && tags[5] == Meta("property", "og:type", "book")
            && !HasKey(tags, "og:image") && !HasKey(tags, "twitter:image") && !HasKey(tags, "twitter:card")
  {
    var tags := Tags(b, pageType, pageURL);
    assert forall i :: 0 <= i < |tags| && tags[i].Meta? ==> tags[i].key in PlainKeys;
    assert "og:image" !in PlainKeys && "twitter:image" !in PlainKeys && "twitter:card" !in PlainKeys;
  }

  /** `Join(lines + [line], sep)` for a non-empty `lines`. */
  lemma {:induction false} JoinSnoc(lines: seq<string>, line: string, sep: string)
    requires |lines| >= 1
    ensures Join(lines + [line], sep) == Join(lines, sep) + sep + line
  {
    if |lines| > 1 {
      JoinSnoc(lines[1..], line, sep);
      assert (lines + [line])[1..] == lines[1..] + [line];
    }
  }

  function Rendered(tags: seq<Tag>): (r: seq<string>)
    ensures |r| == |tags| && forall i :: 0 <= i < |r| ==> r[i] == Render(tags[i])
  {
    seq(|tags|, i requires 0 <= i < |tags| => Render(tags[i]))
  }

  /** One buffer write: the separator after the text so far, then the next tag. */
  method WriteTag(buf: string, tags: seq<Tag>, i: nat) returns (out: string)
    requires 1 <= i < |tags| && buf == Join(Rendered(tags[..i]), Indent)
    ensures out == Join(Rendered(tags[..i + 1]), Indent)
  {
    out := buf + Indent + Render(tags[i]);
    JoinSnoc(Rendered(tags[..i]), Render(tags[i]), Indent);
    assert Rendered(tags[..i + 1]) == Rendered(tags[..i]) + [Render(tags[i])];
  }

  /**
   * generateBookMetaTags: nothing for a missing book; otherwise the buffer
   * receives the tags of Tags one after the other, each but the last followed
   * by a newline and indent.
   */
  method GenerateBookMetaTags(book: Option<SavedBook>, pageType: string, pageURL: string) returns (r: string)
    ensures book.None? ==> r == ""
    ensures book.Some? ==> r == Join(Rendered(Tags(book.value, pageType, pageURL)), Indent)
  {
    if book.None? {
      return "";
    }
    var tags := Tags(book.value, pageType, pageURL);
    var buf := Render(tags[0]);
    assert Rendered(tags[..1]) == [Render(tags[0])];
    var i := 1;
    while i < |tags|
      invariant 1 <= i <= |tags|
      invariant buf == Join(Rendered(tags[..i]), Indent)
    {
      buf := WriteTag(buf, tags, i);
      i := i + 1;
    }
    assert tags[..i] == tags;
    r := buf;
  }

  // ---------------------------------------------------------------------------
  // Serving index.html
  // ---------------------------------------------------------------------------

  /** strings.Replace(s, pat, rep, 1): the first occurrence, if any, replaced. */
  function ReplaceFirst(s: string, pat: string, rep: string): string
  {
    var i := Index(s, pat);
    if i < 0 then s else s[..i] + rep + s[i + |pat|..]
  }

  /** Only the first occurrence is replaced: the text before it has none, and the text after it is kept as it is. */
  lemma ReplaceFirstSpec(s: string, pat: string, rep: string)
    requires |pat| > 0
    ensures !Contains(s, pat) ==> ReplaceFirst(s, pat, rep) == s
    ensures Contains(s, pat) ==>
              exists before, after :: s == before + pat + after && !Contains(before, pat)
                                      && ReplaceFirst(s, pat, rep) == before + rep + after
  {
    var i := Index(s, pat);
    if i >= 0 {
      IndexFound(s, pat);
      IndexPrefixFree(s, pat);
      SliceAround(s, i, pat);
      var before, after := s[..i], s[i + |pat|..];
      assert s == before + pat + after && !Contains(before, pat);
    }
  }

  datatype StaticReply =
    | ApiNotFound                 // 404 from http.NotFound
    | ServeFile                   // the file server answers
    | IndexMissing                // 404, "index.html not found"
    | Html(body: string)          // 200, index.html with the meta tags

  /** The absolute URL of the page. */
  function PageURL(tlsEnabled: bool, host: string, path: string): string
  {
    (if tlsEnabled then "https" else "http") + "://" + host + path
  }

  /** The cached copy of index.html (read once at start-up). */
  class SiteCache {
    var cachedIndexHTML: string

    constructor ()
      ensures cachedIndexHTML == ""
    {
      cachedIndexHTML := "";
    }

    /** loadIndexHTML: a successful read replaces the cached copy; a failed one leaves it. */
    method LoadIndexHTML(read: Result<string>) returns (err: Option<string>)
      modifies this
      ensures read.Ok? ==> err.None? && cachedIndexHTML == read.value
      ensures read.Err? ==> err == Some(read.msg) && cachedIndexHTML == old(cachedIndexHTML)
    {
      if read.Err? {
        return Some(read.msg);
      }
      cachedIndexHTML := read.value;
      err := None;
    }

    /**
     * serveIndexWithMeta: the cached copy, or a fresh read when the cache is
     * empty; on a book or read page of a stored book, with its meta tags in
     * place of the first placeholder.
     */
    method ServeIndexWithMeta(store: BookRepo.BookStore, path: string, host: string, tlsEnabled: bool,
                              fallbackRead: Result<string>)
      returns (reply: StaticReply)
      ensures reply == IndexMissing <==> cachedIndexHTML == "" && fallbackRead.Err?
      ensures reply != IndexMissing ==>
                var html := if cachedIndexHTML != "" then cachedIndexHTML else fallbackRead.value;
                var route := MatchBookPath(path);
                if route.Some? && store.GetBookByHash(route.value.hash).Ok? then
                  reply == Html(ReplaceFirst(html, Placeholder,
                                  Join(Rendered(Tags(store.GetBookByHash(route.value.hash).value, route.value.pageType,
                                                     PageURL(tlsEnabled, host, path))), Indent)))
                else reply == Html(html)
    {
      var html := cachedIndexHTML;
      if html == "" {
        if fallbackRead.Err? {
          return IndexMissing;
        }
        html := fallbackRead.value;
      }
      var route := MatchBookPath(path);
      if route.Some? {
        var book := store.GetBookByHash(route.value.hash);
        if book.Ok? {
          var metaTags := GenerateBookMetaTags(Some(book.value), route.value.pageType, PageURL(tlsEnabled, host, path));
          html := ReplaceFirst(html, Placeholder, metaTags);
        }
      }
      reply := Html(html);
    }

    /** The catch-all route: /api/ paths are not found, existing files are served, everything else gets index.html. */
    method ServeCatchAll(store: BookRepo.BookStore, path: string, host: string, tlsEnabled: bool,
                         fileExists: bool, fallbackRead: Result<string>)
      returns (reply: StaticReply)
      ensures HasPrefix(path, "/api/") <==> reply == ApiNotFound
      ensures !HasPrefix(path, "/api/") && fileExists ==> reply == ServeFile
      ensures !HasPrefix(path, "/api/") && !fileExists ==> reply.Html? || reply == IndexMissing
      ensures reply == IndexMissing <==>
                !HasPrefix(path, "/api/") && !fileExists && cachedIndexHTML == "" && fallbackRead.Err?
      ensures reply.Html? && MatchBookPath(path).None? ==>
                reply.body == (if cachedIndexHTML != "" then cachedIndexHTML else if fallbackRead.Ok? then fallbackRead.value else "")
    {
      if HasPrefix(path, "/api/") {
        return ApiNotFound;
      }
      if fileExists {
        return ServeFile;
      }
      reply := ServeIndexWithMeta(store, path, host, tlsEnabled, fallbackRead);
    }
  }
}
