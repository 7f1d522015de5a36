/**
 * FindBook: turning the result page of an Anna's Archive search into book
 * records. The page is given as the sequence of result anchors (the elements
 * matching `a[href*='/md5/']`, in document order) with what the parser reads
 * around each one; fetching and parsing the HTML is not modelled.
 */
module Scrape {
  import opened Wrappers
  import opened GoStrings
  import opened Tables
  import opened Model
  import opened AnnaUtils

  /** The fallback cover drawn when a result has no image: its style and its two text lines. */
  datatype Fallback = Fallback(style: string, titleText: string, authorText: string)

  /**
   * The first `a.custom-a.block` link of a card: the `src` of its first image
   * (None when it holds no image, "" when the image has no `src`) and its
   * fallback-cover div, if any.
   */
  datatype CoverLink = CoverLink(imgSrc: Option<string>, fallback: Option<Fallback>)

  /** A link of the card: whether its inner HTML holds "<img", and the `src` of its first image. */
  datatype LinkInfo = LinkInfo(htmlHasImg: bool, firstImgSrc: Option<string>)

  /**
   * The `div.flex` container around a result: the texts of its `div`s, its cover
   * link, the `src` of each of its images ("" when missing), its links, and the
   * `src` of each image of its parent (None when it has no parent).
   */
  datatype Card = Card(
    divTexts: seq<string>,
    coverLink: Option<CoverLink>,
    imgSrcs: seq<string>,
    links: seq<LinkInfo>,
    parentImgSrcs: Option<seq<string>>)

  /**
   * A result anchor: its `href`, whether it carries the `js-vim-focus` class, its
   * text, the text of the anchor that immediately follows it (the author line),
   * and its enclosing card.
   */
  datatype Anchor = Anchor(
    href: string,
    isFocus: bool,
    text: string,
    authorText: Option<string>,
    card: Option<Card>)

  // ---------------------------------------------------------------------------
  // Collecting the anchors
  // ---------------------------------------------------------------------------

  predicate IsFocus(a: Anchor)
  {
    a.isFocus
  }

  function HrefsOf(list: seq<Anchor>): set<string>
  {
    set a | a in list :: a.href
  }

  /** The generic pass: each anchor of `rest` is appended unless an anchor with its href is already there. */
  function AppendNew(list: seq<Anchor>, rest: seq<Anchor>): seq<Anchor>
    decreases |rest|
  {
    if rest == [] then list
    else if rest[0].href in HrefsOf(list) then AppendNew(list, rest[1..])
    else AppendNew(list + [rest[0]], rest[1..])
  }

  /**
   * The collected anchors: the marker pass appends every focus anchor, then the
   * generic pass appends every anchor whose href is not collected yet.
   */
  function Collected(page: seq<Anchor>): seq<Anchor>
  {
    AppendNew(Filter(page, IsFocus), page)
  }

  /** The scan of the generic pass over what is already collected. */
  method AlreadyCollected(list: seq<Anchor>, href: string) returns (alreadyFound: bool)
    ensures alreadyFound <==> href in HrefsOf(list)
  {
    alreadyFound := false;
    var j := 0;
    while j < |list|
      invariant 0 <= j <= |list|
      invariant !alreadyFound ==> forall k :: 0 <= k < j ==> list[k].href != href
      invariant alreadyFound ==> href in HrefsOf(list)
    {
      if list[j].href == href {
        alreadyFound := true;
        break;
      }
      j := j + 1;
    }
  }

  /** The two passes over the page, in the order the callbacks were registered. */
  method CollectAnchors(page: seq<Anchor>) returns (list: seq<Anchor>)
    ensures list == Collected(page)
  {
    list := [];
    var i := 0;
    while i < |page|
      invariant 0 <= i <= |page|
      invariant list == Filter(page[..i], IsFocus)
    {
      assert page[..i + 1] == page[..i] + [page[i]];
      FilterAppend(page[..i], page[i], IsFocus);
      if page[i].isFocus {
        list := list + [page[i]];
      }
      i := i + 1;
    }
    assert page[..i] == page;
    i := 0;
    while i < |page|
      invariant 0 <= i <= |page|
      invariant AppendNew(list, page[i..]) == Collected(page)
    {
      var alreadyFound := AlreadyCollected(list, page[i].href);
      assert page[i..][1..] == page[i + 1..];
      if !alreadyFound {
        list := list + [page[i]];
      }
      i := i + 1;
    }
  }

  /** The generic pass keeps what was collected before it as a prefix and adds only anchors of the page. */
  lemma {:induction false} AppendNewExtends(list: seq<Anchor>, rest: seq<Anchor>)
    ensures |list| <= |AppendNew(list, rest)| && AppendNew(list, rest)[..|list|] == list
    ensures forall x :: x in AppendNew(list, rest) ==> x in list || x in rest
    ensures HrefsOf(AppendNew(list, rest)) == HrefsOf(list) + HrefsOf(rest)
    decreases |rest|
  {
    if rest != [] {
      assert rest == [rest[0]] + rest[1..];
      if rest[0].href in HrefsOf(list) {
        AppendNewExtends(list, rest[1..]);
      } else {
        AppendNewExtends(list + [rest[0]], rest[1..]);
        assert (list + [rest[0]])[..|list|] == list;
      }
    }
  }

  /** An anchor appended by the generic pass has an href that no earlier anchor has. */
  predicate NewHrefsFrom(c: seq<Anchor>, n: nat)
  {
    forall i, j :: 0 <= i < j < |c| && n <= j ==> c[i].href != c[j].href
  }

  lemma {:induction false} AppendNewFresh(list: seq<Anchor>, rest: seq<Anchor>, n: nat)
    requires NewHrefsFrom(list, n)
    ensures NewHrefsFrom(AppendNew(list, rest), n)
    decreases |rest|
  {
    if rest != [] {
      if rest[0].href in HrefsOf(list) {
        AppendNewFresh(list, rest[1..], n);
      } else {
        var l2 := list + [rest[0]];
        forall i, j | 0 <= i < j < |l2| && n <= j ensures l2[i].href != l2[j].href {
          if j == |list| {
            assert l2[i] in list;
          }
        }
        AppendNewFresh(l2, rest[1..], n);
      }
    }
  }

  /**
   * What the two passes collect: every focus anchor first, in page order (focus
   * anchors are not de-duplicated among themselves); after them, each anchor's
   * href occurs at no earlier position; every href of the page is collected, and
   * nothing but anchors of the page.
   */
  lemma CollectedShape(page: seq<Anchor>)
    ensures var c := Collected(page);
            var focus := Filter(page, IsFocus);
            && |focus| <= |c| && c[..|focus|] == focus
            && NewHrefsFrom(c, |focus|)
            && HrefsOf(c) == HrefsOf(page)
            && forall x :: x in c ==> x in page
  {
    var focus := Filter(page, IsFocus);
    AppendNewExtends(focus, page);
    AppendNewFresh(focus, page, |focus|);
    assert HrefsOf(focus) <= HrefsOf(page);
  }

  // ---------------------------------------------------------------------------
  // The metadata line
  // ---------------------------------------------------------------------------

  /** A trimmed div text that looks like the metadata line. */
  predicate QualifiesAsMeta(text: string)
  {
    && Contains(text, MiddleDot)
    && (Contains(text, "MB") || Contains(text, "KB") || Contains(text, "GB"))
    && (Contains(text, "[") || Contains(text, "ZIP") || Contains(text, "PDF") || Contains(text, "EPUB"))
  }

  /** The line cut before the first occurrence of `marker` and trimmed, if it occurs. */
  function CutBefore(text: string, marker: string): string
  {
    var i := Index(text, marker);
    if i >= 0 then TrimSpace(text[..i]) else text
  }

  /** The line cut before "Save" and then before "(function". */
  function CutMeta(text: string): string
  {
    CutBefore(CutBefore(text, "Save"), "(function")
  }

  /** What a div contributes: its cut text, when it qualifies and is still long enough. */
  function MetaCandidate(raw: string): Option<string>
  {
    var text := TrimSpace(raw);
    if QualifiesAsMeta(text) then
      var clean := CutMeta(text);
      if |clean| > 10 && Contains(clean, MiddleDot) then Some(clean) else None
    else None
  }

  /** The metadata line of a card: the candidate of the last div that has one, or "". */
  function SelectedMeta(divTexts: seq<string>): string
  {
    if divTexts == [] then ""
    else
      match MetaCandidate(divTexts[|divTexts| - 1])
      case Some(clean) => clean
      case None => SelectedMeta(divTexts[..|divTexts| - 1])
  }

  lemma SelectedMetaStep(divTexts: seq<string>, i: nat, candidate: Option<string>)
    requires i < |divTexts| && candidate == MetaCandidate(divTexts[i])
    ensures SelectedMeta(divTexts[..i + 1]) ==
              (if candidate.Some? then candidate.value else SelectedMeta(divTexts[..i]))
  {
    assert divTexts[..i + 1][..i] == divTexts[..i];
  }

  /** The body of the div loop: the candidate one div's text contributes. */
  method DivCandidate(raw: string) returns (candidate: Option<string>)
    ensures candidate == MetaCandidate(raw)
  {
    candidate := None;
    var text := TrimSpace(raw);
    if QualifiesAsMeta(text) {
      var cleanText := text;
      var saveIndex := Index(cleanText, "Save");
      if saveIndex != -1 {
        cleanText := TrimSpace(cleanText[..saveIndex]);
      }
      assert cleanText == CutBefore(text, "Save");
      var funcIndex := Index(cleanText, "(function");
      if funcIndex != -1 {
        cleanText := TrimSpace(cleanText[..funcIndex]);
      }
      if |cleanText| > 10 && Contains(cleanText, MiddleDot) {
        candidate := Some(cleanText);
      }
    }
  }

  /** The loop over the card's divs: every qualifying div overwrites the line. */
  method SelectMeta(divTexts: seq<string>) returns (meta: string)
    ensures meta == SelectedMeta(divTexts)
  {
    meta := "";
    var i := 0;
    assert divTexts[..i] == [];
    while i < |divTexts|
      invariant 0 <= i <= |divTexts|
      invariant meta == SelectedMeta(divTexts[..i])
    {
      var candidate := DivCandidate(divTexts[i]);
      if candidate.Some? {
        meta := candidate.value;
      }
      SelectedMetaStep(divTexts, i, candidate);
      i := i + 1;
    }
    assert divTexts[..i] == divTexts;
  }

  /** Cutting a trimmed line leaves a trimmed line. */
  lemma CutBeforeTrimmed(text: string, marker: string)
    requires TrimSpace(text) == text
    ensures TrimSpace(CutBefore(text, marker)) == CutBefore(text, marker)
  {
    var i := Index(text, marker);
    if i >= 0 {
      TrimSpaceIdempotent(text[..i]);
    }
  }

  lemma CutMetaTrimmed(text: string)
    requires TrimSpace(text) == text
    ensures TrimSpace(CutMeta(text)) == CutMeta(text)
  {
    CutBeforeTrimmed(text, "Save");
    CutBeforeTrimmed(CutBefore(text, "Save"), "(function");
  }

  /** The selected line is empty, or a trimmed line of more than 10 bytes holding a middle dot. */
  lemma {:induction false} SelectedMetaShape(divTexts: seq<string>)
    ensures var m := SelectedMeta(divTexts);
            m == "" || (|m| > 10 && Contains(m, MiddleDot) && TrimSpace(m) == m)
  {
    if divTexts != [] {
      var raw := divTexts[|divTexts| - 1];
      match MetaCandidate(raw)
      case Some(clean) =>
        TrimSpaceIdempotent(raw);
        CutMetaTrimmed(TrimSpace(raw));
      case None =>
        SelectedMetaShape(divTexts[..|divTexts| - 1]);
    }
  }

  // ---------------------------------------------------------------------------
  // Format, authors
  // ---------------------------------------------------------------------------

  /** The runes of the cut set "[]()·" that start `s`: their length in bytes, or 0. */
  function CutRunePrefix(s: string): (n: nat)
    ensures n <= |s|
  {
    if HasPrefix(s, MiddleDot) then 2
    else if |s| > 0 && s[0] in {'[', ']', '(', ')'} then 1
    else 0
  }

  function CutRuneSuffix(s: string): (n: nat)
    ensures n <= |s|
  {
    if HasSuffix(s, MiddleDot) then 2
    else if |s| > 0 && s[|s| - 1] in {'[', ']', '(', ')'} then 1
    else 0
  }

  /** strings.Trim(s, "[]()·"): the cut-set runes removed at both ends. */
  function TrimFormatRunes(s: string): (r: string)
    ensures |r| <= |s|
    ensures CutRunePrefix(r) == 0 && CutRuneSuffix(r) == 0
    decreases |s|
  {
    var n := CutRunePrefix(s);
    if n > 0 then TrimFormatRunes(s[n..])
    else
      var m := CutRuneSuffix(s);
      if m > 0 then TrimFormatRunes(s[..|s| - m]) else s
  }

  /** The format field: trimmed of white space and then, unless empty, of the cut-set runes. */
  function CleanFormat(format: string): string
  {
    var trimmedFormat := TrimSpace(format);
    if trimmedFormat != "" then TrimFormatRunes(trimmedFormat) else trimmedFormat
  }

  /** The silhouette emoji U+1F464 (bytes F0 9F 91 A4) that precedes author names. */
  const Silhouette: string := "\U{00F0}\U{009F}\U{0091}\U{00A4}"

  /** The author line: the next anchor's text, trimmed, without silhouettes, trimmed again. */
  function AuthorsOf(e: Anchor): string
  {
    match e.authorText
    case None => ""
    case Some(t) =>
      var authors := TrimSpace(t);
      var authors' := TrimSpace(ReplaceAll(authors, Silhouette, ""));
      TrimSpace(authors')
  }

  /** The hash of a result: its href without one leading "/md5/". */
  function HashOf(href: string): (hash: string)
    ensures HasPrefix(href, "/md5/") ==> "/md5/" + hash == href
    ensures !HasPrefix(href, "/md5/") ==> hash == href
  {
    TrimPrefix(href, "/md5/")
  }

  // ---------------------------------------------------------------------------
  // The cover
  // ---------------------------------------------------------------------------

  /**
   * An image pass: `coverURL` takes the resolution of every non-empty `src` while
   * it is still empty, so it ends with the first non-empty resolution.
   */
  function FirstResolved(srcs: seq<string>, resolve: string -> string): string
  {
    if srcs == [] then ""
    else if srcs[0] != "" && resolve(srcs[0]) != "" then resolve(srcs[0])
    else FirstResolved(srcs[1..], resolve)
  }

  /**
   * The pass ends empty exactly when no candidate resolves to a non-empty URL, and
   * otherwise with the resolution of the first candidate that does.
   */
  lemma {:induction false} FirstResolvedSpec(srcs: seq<string>, resolve: string -> string)
    ensures var r := FirstResolved(srcs, resolve);
            && (r == "" <==> forall i :: 0 <= i < |srcs| ==> srcs[i] == "" || resolve(srcs[i]) == "")
            && (r != "" ==> exists i :: 0 <= i < |srcs| && srcs[i] != "" && r == resolve(srcs[i])
                                        && forall j :: 0 <= j < i ==> srcs[j] == "" || resolve(srcs[j]) == "")
  {
    if srcs != [] && !(srcs[0] != "" && resolve(srcs[0]) != "") {
      var r := FirstResolved(srcs[1..], resolve);
      FirstResolvedSpec(srcs[1..], resolve);
      assert forall i :: 1 <= i < |srcs| ==> srcs[i] == srcs[1..][i - 1];
      if r != "" {
        var i :| 0 <= i < |srcs[1..]| && srcs[1..][i] != "" && r == resolve(srcs[1..][i])
                 && forall j :: 0 <= j < i ==> srcs[1..][j] == "" || resolve(srcs[1..][j]) == "";
        assert srcs[i + 1] == srcs[1..][i];
      }
    }
  }

  /** The loop of one image pass. */
  method ResolvePass(coverURL: string, srcs: seq<string>, resolve: string -> string) returns (r: string)
    ensures r == if coverURL != "" then coverURL else FirstResolved(srcs, resolve)
  {
    r := coverURL;
    var i := 0;
    while i < |srcs|
      invariant 0 <= i <= |srcs|
      invariant (if r != "" then r else FirstResolved(srcs[i..], resolve)) ==
                (if coverURL != "" then coverURL else FirstResolved(srcs, resolve))
    {
      assert srcs[i..][1..] == srcs[i + 1..];
      var src := srcs[i];
      if r == "" && src != "" {
        r := resolve(src);
      }
      i := i + 1;
    }
  }

  /** The `src` the link pass looks at for each link: its first image's, if its HTML holds "<img". */
  function LinkSrcs(links: seq<LinkInfo>): (srcs: seq<string>)
    ensures |srcs| == |links|
    ensures forall k :: 0 <= k < |links| ==>
              srcs[k] == (if links[k].htmlHasImg && links[k].firstImgSrc.Some? then links[k].firstImgSrc.value else "")
  {
    if links == [] then []
    else
      var l := links[0];
      [if l.htmlHasImg && l.firstImgSrc.Some? then l.firstImgSrc.value else ""] + LinkSrcs(links[1..])
  }

  const FallbackPrefix: string := "fallback:bg="

  function FallbackData(f: Fallback): string
  {
    FallbackPrefix + f.style + ";title=" + f.titleText + ";author=" + f.authorText
  }

  /** The cover link's own image and fallback: the first step of the chain. */
  function CoverLinkStep(card: Card, resolve: string -> string): (string, string)
  {
    match card.coverLink
    case None => ("", "")
    case Some(link) =>
      var url := if link.imgSrc.Some? && link.imgSrc.value != "" then resolve(link.imgSrc.value) else "";
      var data := if url == "" && link.fallback.Some? then FallbackData(link.fallback.value) else "";
      (url, data)
  }

  /** The ordered cover chain: cover link, card images, images inside links, parent images. */
  function CoverOf(card: Card, resolve: string -> string): (cover: (string, string))
    ensures cover.1 == CoverLinkStep(card, resolve).1
    ensures cover.1 != "" ==> HasPrefix(cover.1, FallbackPrefix)
  {
    var (url0, data) := CoverLinkStep(card, resolve);
    var url1 := if url0 != "" then url0 else FirstResolved(card.imgSrcs, resolve);
    var url2 := if url1 != "" then url1 else FirstResolved(LinkSrcs(card.links), resolve);
    var url3 := if url2 != "" || card.parentImgSrcs.None? then url2
                else FirstResolved(card.parentImgSrcs.value, resolve);
    (url3, data)
  }

  /** The cover passes of the card loop. */
  method FindCover(card: Card, resolve: string -> string) returns (coverURL: string, coverData: string)
    ensures (coverURL, coverData) == CoverOf(card, resolve)
  {
    coverURL, coverData := "", "";
    if card.coverLink.Some? {
      var link := card.coverLink.value;
      if link.imgSrc.Some? {
        coverURL := link.imgSrc.value;
        if coverURL != "" {
          coverURL := resolve(coverURL);
        }
      }
      if coverURL == "" && link.fallback.Some? {
        coverData := FallbackData(link.fallback.value);
      }
    }
    if coverURL == "" {
      coverURL := ResolvePass(coverURL, card.imgSrcs, resolve);
    }
    if coverURL == "" {
      coverURL := ResolvePass(coverURL, LinkSrcs(card.links), resolve);
    }
    if coverURL == "" && card.parentImgSrcs.Some? {
      coverURL := ResolvePass(coverURL, card.parentImgSrcs.value, resolve);
    }
  }

  /**
   * The cover URL is empty exactly when no candidate of any step resolves to a
   * non-empty URL; the fallback data is set only when the cover link's own image
   * gave none.
   */
  lemma CoverEmptyIff(card: Card, resolve: string -> string)
    ensures var (url, data) := CoverOf(card, resolve);
            && (url == "" <==>
                  && CoverLinkStep(card, resolve).0 == ""
                  && FirstResolved(card.imgSrcs, resolve) == ""
                  && FirstResolved(LinkSrcs(card.links), resolve) == ""
                  && (card.parentImgSrcs.None? || FirstResolved(card.parentImgSrcs.value, resolve) == ""))
            && (data != "" ==> card.coverLink.Some? && card.coverLink.value.fallback.Some?
                               && CoverLinkStep(card, resolve).0 == "")
  {
  }

  /**
   * Both cover fields can end up set: the cover link's image has no `src`, so the
   * fallback data is written, and a later pass still finds an image.
   */
  lemma CoverURLAndDataBothSet()
    ensures var card := Card([], Some(CoverLink(Some(""), Some(Fallback("c", "t", "a")))), ["x"], [], None);
            var (url, data) := CoverOf(card, s => "https://annas-archive.org/" + s);
            url != "" && data != ""
  {
    var card := Card([], Some(CoverLink(Some(""), Some(Fallback("c", "t", "a")))), ["x"], [], None);
    var resolve := (s: string) => "https://annas-archive.org/" + s;
    assert FirstResolved(card.imgSrcs, resolve) == resolve("x");
  }

  // ---------------------------------------------------------------------------
  // One result, and the whole page
  // ---------------------------------------------------------------------------

  /** The record built from one anchor and its card. */
  function BookFrom(e: Anchor, card: Card, resolve: string -> string): (b: AnnaBook)
    ensures b.hash == HashOf(e.href) && b.url == resolve(e.href) && b.publisher == ""
    ensures b.title == TrimSpace(TrimSpace(e.text))
  {
    var meta := SelectedMeta(card.divTexts);
    var parts := Split(meta, MetaSeparator);
    var language := LastAccepted(parts, IsLanguageSegment);
    var format := LastAccepted(parts, IsFormatSegment);
    var size := LastAccepted(parts, IsSizeSegment);
    var (coverURL, coverData) := CoverOf(card, resolve);
    assert TrimSpace("") == "";
    AnnaBook(TrimSpace(language), CleanFormat(format), TrimSpace(size), TrimSpace(TrimSpace(e.text)),
             TrimSpace(""), TrimSpace(AuthorsOf(e)), resolve(e.href), HashOf(e.href), coverURL, coverData)
  }

  /** The body of the card loop for an anchor that has a card. */
  method ParseBook(e: Anchor, card: Card, resolve: string -> string) returns (b: AnnaBook)
    ensures b == BookFrom(e, card, resolve)
  {
    var title := TrimSpace(e.text);
    var authors := "";
    if e.authorText.Some? {
      authors := TrimSpace(e.authorText.value);
      authors := TrimSpace(ReplaceAll(authors, Silhouette, ""));
      authors := TrimSpace(authors);
      assert authors == AuthorsOf(e);
    }
    var meta := SelectMeta(card.divTexts);
    var language, format, size := ExtractMetaInformation(meta);
    var trimmedFormat := TrimSpace(format);
    if trimmedFormat != "" {
      trimmedFormat := TrimFormatRunes(trimmedFormat);
    }
    var publisher := "";
    var coverURL, coverData := FindCover(card, resolve);
    var link := e.href;
    var hash := TrimPrefix(link, "/md5/");
    b := AnnaBook(TrimSpace(language), trimmedFormat, TrimSpace(size), TrimSpace(title),
                  TrimSpace(publisher), TrimSpace(authors), resolve(link), hash, coverURL, coverData);
    assert trimmedFormat == CleanFormat(format);
    BookFromFields(e, card, resolve, b);
  }

  /** A record whose fields are those of the card loop is the record BookFrom builds. */
  lemma BookFromFields(e: Anchor, card: Card, resolve: string -> string, b: AnnaBook)
    requires var parts := Split(SelectedMeta(card.divTexts), MetaSeparator);
             && b.language == TrimSpace(LastAccepted(parts, IsLanguageSegment))
             && b.format == CleanFormat(LastAccepted(parts, IsFormatSegment))
             && b.size == TrimSpace(LastAccepted(parts, IsSizeSegment))
    requires b.title == TrimSpace(TrimSpace(e.text)) && b.publisher == TrimSpace("")
    requires b.authors == TrimSpace(AuthorsOf(e))
    requires b.url == resolve(e.href) && b.hash == HashOf(e.href)
    requires (b.coverURL, b.coverData) == CoverOf(card, resolve)
    ensures b == BookFrom(e, card, resolve)
  {
  }

  /** The records of the collected anchors that have a card, in collection order. */
  function ParsedBooks(list: seq<Anchor>, resolve: string -> string): (books: seq<AnnaBook>)
    ensures |books| <= |list|
  {
    if list == [] then []
    else
      var e := list[|list| - 1];
      var init := ParsedBooks(list[..|list| - 1], resolve);
      if e.card.None? then init else init + [BookFrom(e, e.card.value, resolve)]
  }

  lemma ParsedBooksStep(list: seq<Anchor>, i: nat, resolve: string -> string)
    requires i < |list|
    ensures ParsedBooks(list[..i + 1], resolve) ==
              ParsedBooks(list[..i], resolve) +
              (if list[i].card.None? then [] else [BookFrom(list[i], list[i].card.value, resolve)])
  {
    assert list[..i + 1][..i] == list[..i];
  }

  /**
   * FindBook over the result page `page` that the search returned; `resolve`
   * makes a link absolute against the page URL. The outcome is never an error.
   */
  method FindBook(page: seq<Anchor>, resolve: string -> string) returns (r: Result<seq<AnnaBook>>)
    ensures r == Ok(ParsedBooks(Collected(page), resolve))
  {
    var bookList := CollectAnchors(page);
    var parsed: seq<AnnaBook> := [];
    var i := 0;
    while i < |bookList|
      invariant 0 <= i <= |bookList|
      invariant parsed == ParsedBooks(bookList[..i], resolve)
    {
      var e := bookList[i];
      ParsedBooksStep(bookList, i, resolve);
      if e.card.Some? {
        var book := ParseBook(e, e.card.value, resolve);
        parsed := parsed + [book];
      }
      i := i + 1;
    }
    assert bookList[..i] == bookList;
    return Ok(parsed);
  }

  /** Every parsed record comes from a collected anchor that has a card. */
  lemma {:induction false} ParsedBooksFromAnchors(list: seq<Anchor>, resolve: string -> string)
    ensures forall b :: b in ParsedBooks(list, resolve) ==>
              exists e :: e in list && e.card.Some? && b == BookFrom(e, e.card.value, resolve)
  {
    if list != [] {
      var init := list[..|list| - 1];
      var e := list[|list| - 1];
      ParsedBooksFromAnchors(init, resolve);
      forall b | b in ParsedBooks(list, resolve)
        ensures exists e :: e in list && e.card.Some? && b == BookFrom(e, e.card.value, resolve)
      {
        if b in ParsedBooks(init, resolve) {
          var e' :| e' in init && e'.card.Some? && b == BookFrom(e', e'.card.value, resolve);
          assert e' in list;
        } else {
          assert e in list;
        }
      }
    }
  }

  /** Every parsed record's hash is the hash of an href on the page. */
  lemma FindBookHashes(page: seq<Anchor>, resolve: string -> string)
    ensures forall b :: b in ParsedBooks(Collected(page), resolve) ==>
              exists e :: e in page && b.hash == HashOf(e.href)
  {
    CollectedShape(page);
    ParsedBooksFromAnchors(Collected(page), resolve);
  }

  /** The format a trimmed line holding a middle dot, or the empty line, yields without the separator. */
  lemma FormatOfPageMeta(meta: string)
    requires meta == "" || (Contains(meta, MiddleDot) && TrimSpace(meta) == meta)
    requires !Contains(meta, MetaSeparator)
    ensures LastAccepted(Split(meta, MetaSeparator), IsFormatSegment) == ""
  {
    if meta == "" {
      SplitWithoutSeparator(meta, MetaSeparator);
      LastAcceptedSingle("", IsFormatSegment);
      NoRuleAcceptsEmpty();
      assert TrimSpace("") == "";
    } else {
      MetaLineWithoutSeparator(meta);
    }
  }

  /** The format the selected line yields when it holds no separator. */
  lemma SelectedMetaFormat(divTexts: seq<string>)
    requires !Contains(SelectedMeta(divTexts), MetaSeparator)
    ensures LastAccepted(Split(SelectedMeta(divTexts), MetaSeparator), IsFormatSegment) == ""
  {
    SelectedMetaShape(divTexts);
    FormatOfPageMeta(SelectedMeta(divTexts));
  }

  /**
   * On a page whose metadata line uses the single middle dot (so holds no "Â·"),
   * the record's format is always empty.
   */
  lemma ScrapedFormatEmpty(e: Anchor, card: Card, resolve: string -> string)
    requires !Contains(SelectedMeta(card.divTexts), MetaSeparator)
    ensures BookFrom(e, card, resolve).format == ""
  {
    var format := LastAccepted(Split(SelectedMeta(card.divTexts), MetaSeparator), IsFormatSegment);
    SelectedMetaFormat(card.divTexts);
    BookFormat(e, card, resolve);
    CleanFormatEmpty(format);
  }

  lemma CleanFormatEmpty(format: string)
    requires format == ""
    ensures CleanFormat(format) == ""
  {
    assert TrimSpace(format) == "";
  }

  lemma BookFormat(e: Anchor, card: Card, resolve: string -> string)
    ensures BookFrom(e, card, resolve).format ==
              CleanFormat(LastAccepted(Split(SelectedMeta(card.divTexts), MetaSeparator), IsFormatSegment))
  {
  }
}
