/**
 * The helpers of the Anna's Archive client: splitting a result's metadata line
 * into language, format and size; downloading a book through the fast-download
 * API; and looking a book's metadata up by its hash.
 */
module AnnaUtils {
  import opened Wrappers
  import opened GoStrings
  import opened Model
  import Filenames

  /**
   * The separator literal the splitter uses: the two characters "Â·", that is
   * the bytes C3 82 C2 B7 (the UTF-8 of a middle dot, encoded a second time).
   */
  const MetaSeparator: string := "\U{00C3}\U{0082}\U{00C2}\U{00B7}"

  /** The middle dot U+00B7 (bytes C2 B7) that separates the fields on the result page. */
  const MiddleDot: string := "\U{00C2}\U{00B7}"

  /** The upper-cased segments accepted as a file format. */
  predicate IsFormatKeyword(u: string)
  {
    u == "PDF" || u == "EPUB" || u == "ZIP" || u == "MOBI" ||
    u == "AZW3" || u == "TXT" || u == "DOC" || u == "DOCX"
  }

  /** A trimmed segment taken as the language: it holds both square brackets. */
  predicate IsLanguageSegment(t: string)
  {
    Contains(t, "[") && Contains(t, "]")
  }

  /** A trimmed segment taken as the format: upper-cased, it is one of the keywords. */
  predicate IsFormatSegment(t: string)
  {
    IsFormatKeyword(ToUpper(t))
  }

  /** A trimmed segment taken as the size: upper-cased, it holds MB, KB or GB. */
  predicate IsSizeSegment(t: string)
  {
    var u := ToUpper(t);
    Contains(u, "MB") || Contains(u, "KB") || Contains(u, "GB")
  }

  /** No rule accepts the empty segment. */
  lemma NoRuleAcceptsEmpty()
    ensures !IsLanguageSegment("") && !IsFormatSegment("") && !IsSizeSegment("")
  {
    assert ToUpper("") == "";
  }

  /**
   * The value a field ends with: the last segment that, trimmed, the field's
   * rule `accept` takes, trimmed; or "" when it takes none.
   */
  function LastAccepted(parts: seq<string>, accept: string -> bool): (r: string)
  {
    if parts == [] then ""
    else
      var t := TrimSpace(parts[|parts| - 1]);
      if accept(t) then t else LastAccepted(parts[..|parts| - 1], accept)
  }

  /** LastAccepted with the normalisation of each segment as a parameter. */
  function LastAcceptedBy(parts: seq<string>, norm: string -> string, accept: string -> bool): string
  {
    if parts == [] then ""
    else
      var t := norm(parts[|parts| - 1]);
      if accept(t) then t else LastAcceptedBy(parts[..|parts| - 1], norm, accept)
  }

  lemma {:induction false} LastAcceptedByIsLast(parts: seq<string>, norm: string -> string, accept: string -> bool)
    ensures var r := LastAcceptedBy(parts, norm, accept);
            r != "" ==> exists i :: 0 <= i < |parts| && r == norm(parts[i]) && accept(r)
                                   && forall j :: i < j < |parts| ==> !accept(norm(parts[j]))
    ensures var r := LastAcceptedBy(parts, norm, accept);
            r == "" && !accept("") ==> forall i :: 0 <= i < |parts| ==> !accept(norm(parts[i]))
  {
    if parts != [] && !accept(norm(parts[|parts| - 1])) {
      var init := parts[..|parts| - 1];
      LastAcceptedByIsLast(init, norm, accept);
      assert forall i :: 0 <= i < |init| ==> init[i] == parts[i];
    }
  }

  lemma {:induction false} LastAcceptedByTrimSpace(parts: seq<string>, accept: string -> bool)
    ensures LastAccepted(parts, accept) == LastAcceptedBy(parts, TrimSpace, accept)
  {
    if parts != [] {
      LastAcceptedByTrimSpace(parts[..|parts| - 1], accept);
    }
  }

  /**
   * LastAccepted picks the last segment `accept` takes; when it returns "" and
   * the rule does not take "", no segment was taken.
   */
  lemma LastAcceptedIsLast(parts: seq<string>, accept: string -> bool)
    ensures var r := LastAccepted(parts, accept);
            r != "" ==> exists i :: 0 <= i < |parts| && r == TrimSpace(parts[i]) && accept(r)
                                   && forall j :: i < j < |parts| ==> !accept(TrimSpace(parts[j]))
    ensures var r := LastAccepted(parts, accept);
            r == "" && !accept("") ==> forall i :: 0 <= i < |parts| ==> !accept(TrimSpace(parts[i]))
  {
    LastAcceptedByTrimSpace(parts, accept);
    LastAcceptedByIsLast(parts, TrimSpace, accept);
  }

  /** Extending the scanned prefix by one segment. */
  lemma LastAcceptedStep(parts: seq<string>, i: nat, accept: string -> bool)
    requires i < |parts|
    ensures LastAccepted(parts[..i + 1], accept) ==
              (var t := TrimSpace(parts[i]); if accept(t) then t else LastAccepted(parts[..i], accept))
  {
    assert parts[..i + 1][..i] == parts[..i];
  }

  /** The three tests the loop applies to one trimmed segment. */
  method SegmentRules(trimmed: string) returns (isLanguage: bool, isFormat: bool, isSize: bool)
    ensures isLanguage == IsLanguageSegment(trimmed)
    ensures isFormat == IsFormatSegment(trimmed)
    ensures isSize == IsSizeSegment(trimmed)
  {
    isLanguage := Contains(trimmed, "[") && Contains(trimmed, "]");
    var upper := ToUpper(trimmed);
    isFormat := upper == "PDF" || upper == "EPUB" || upper == "ZIP" || upper == "MOBI" ||
                upper == "AZW3" || upper == "TXT" || upper == "DOC" || upper == "DOCX";
    isSize := Contains(upper, "MB") || Contains(upper, "KB") || Contains(upper, "GB");
  }

  /**
   * extractMetaInformation: splits the line at the separator and lets every
   * trimmed segment that a field's rule accepts overwrite that field, so the
   * last accepted segment wins.
   */
  method ExtractMetaInformation(meta: string) returns (language: string, format: string, size: string)
    ensures language == LastAccepted(Split(meta, MetaSeparator), IsLanguageSegment)
    ensures format == LastAccepted(Split(meta, MetaSeparator), IsFormatSegment)
    ensures size == LastAccepted(Split(meta, MetaSeparator), IsSizeSegment)
    ensures meta == "" ==> language == "" && format == "" && size == ""
  {
    NoRuleAcceptsEmpty();
    if meta == "" {
      assert Split(meta, MetaSeparator) == [""];
      assert TrimSpace("") == "";
      return "", "", "";
    }
    var parts := Split(meta, MetaSeparator);
    language, format, size := "", "", "";
    var i := 0;
    assert parts[..i] == [];
    while i < |parts|
      invariant 0 <= i <= |parts|
      invariant language == LastAccepted(parts[..i], IsLanguageSegment)
      invariant format == LastAccepted(parts[..i], IsFormatSegment)
      invariant size == LastAccepted(parts[..i], IsSizeSegment)
    {
      var trimmed := TrimSpace(parts[i]);
      var isLanguage, isFormat, isSize := SegmentRules(trimmed);
      if isLanguage {
        language := trimmed;
      }
      if isFormat {
        format := trimmed;
      }
      if isSize {
        size := trimmed;
      }
      LastAcceptedStep(parts, i, IsLanguageSegment);
      LastAcceptedStep(parts, i, IsFormatSegment);
      LastAcceptedStep(parts, i, IsSizeSegment);
      i := i + 1;
    }
    assert parts[..i] == parts;
  }

  /** `x` is the one segment of `parts` that `accept` takes once trimmed (it may occur more than once). */
  predicate OnlyAccepted(parts: seq<string>, accept: string -> bool, x: string)
  {
    && x in parts
    && accept(TrimSpace(x))
    && forall j :: 0 <= j < |parts| && accept(TrimSpace(parts[j])) ==> parts[j] == x
  }

  /** When a field has a single accepted segment, that segment, trimmed, is its value. */
  lemma LastAcceptedOnly(parts: seq<string>, accept: string -> bool, x: string)
    requires !accept("")
    requires OnlyAccepted(parts, accept, x)
    ensures LastAccepted(parts, accept) == TrimSpace(x)
  {
    LastAcceptedIsLast(parts, accept);
    var i :| 0 <= i < |parts| && parts[i] == x;
    assert accept(TrimSpace(parts[i]));
  }

  /**
   * When a field has exactly one accepted segment, its value does not depend on
   * the order of the segments.
   */
  lemma MetaOrderIndependent(p: seq<string>, q: seq<string>, accept: string -> bool, x: string)
    requires !accept("")
    requires multiset(p) == multiset(q)
    requires OnlyAccepted(p, accept, x)
    ensures LastAccepted(p, accept) == LastAccepted(q, accept) == TrimSpace(x)
  {
    assert x in multiset(q);
    forall j | 0 <= j < |q| && accept(TrimSpace(q[j])) ensures q[j] == x {
      assert q[j] in multiset(p);
      var k :| 0 <= k < |p| && p[k] == q[j];
    }
    LastAcceptedOnly(p, accept, x);
    LastAcceptedOnly(q, accept, x);
  }

  /** An upper-cased string holding a middle dot is never a format keyword. */
  lemma MiddleDotIsNoFormat(t: string)
    requires Contains(t, MiddleDot)
    ensures !IsFormatSegment(t)
  {
    var d := Index(t, MiddleDot);
    IndexFound(t, MiddleDot);
    assert t[d..d + 2][1] == t[d + 1];
    ToUpperKeepsByte(t, d + 1);
    NonAsciiIsNoKeyword(ToUpper(t), t[d + 1]);
  }

  /** Every format keyword is plain ASCII. */
  lemma NonAsciiIsNoKeyword(u: string, c: char)
    requires c in u && c >= '\U{0080}'
    ensures !IsFormatKeyword(u)
  {
  }

  /**
   * The page separates fields with a single middle dot, which never matches the
   * doubly encoded separator: a line holding a middle dot but not the separator
   * stays one segment, and its format comes out empty.
   */
  lemma MetaLineWithoutSeparator(meta: string)
    requires Contains(meta, MiddleDot)
    requires !Contains(meta, MetaSeparator)
    requires TrimSpace(meta) == meta
    ensures LastAccepted(Split(meta, MetaSeparator), IsFormatSegment) == ""
  {
    SplitWithoutSeparator(meta, MetaSeparator);
    LastAcceptedSingle(meta, IsFormatSegment);
    MiddleDotIsNoFormat(meta);
  }

  /** Without the separator, language and size are either empty or the whole trimmed line. */
  lemma MetaLineWholeFields(meta: string)
    requires !Contains(meta, MetaSeparator)
    requires TrimSpace(meta) == meta
    ensures LastAccepted(Split(meta, MetaSeparator), IsLanguageSegment) in {"", meta}
    ensures LastAccepted(Split(meta, MetaSeparator), IsSizeSegment) in {"", meta}
  {
    SplitWithoutSeparator(meta, MetaSeparator);
    MetaLineOneSegment(meta);
  }

  /** A trimmed one-segment line gives each field either nothing or the whole line. */
  lemma MetaLineOneSegment(meta: string)
    requires TrimSpace(meta) == meta
    ensures LastAccepted([meta], IsLanguageSegment) in {"", meta}
    ensures LastAccepted([meta], IsSizeSegment) in {"", meta}
  {
    LastAcceptedSingle(meta, IsLanguageSegment);
    LastAcceptedSingle(meta, IsSizeSegment);
  }

  /** A one-segment line. */
  lemma LastAcceptedSingle(x: string, accept: string -> bool)
    ensures LastAccepted([x], accept) == (if accept(TrimSpace(x)) then TrimSpace(x) else "")
  {
    assert [x][..0] == [];
  }

  // ---------------------------------------------------------------------------
  // Download
  // ---------------------------------------------------------------------------

  /** The first request, to the fast-download API: its transport or decoding error, or its JSON body. */
  datatype ApiAnswer = ApiFailed(err: string) | ApiResponse(downloadURL: string, error: string)

  /** The second request, for the file itself: its transport error, or its HTTP status. */
  datatype Transfer = TransferFailed(err: string) | TransferStatus(code: int)

  /** Everything the network and the file system answer during one download. */
  datatype DownloadWorld = DownloadWorld(
    api: ApiAnswer,
    transfer: Transfer,
    createErr: Option<string>,
    copyErr: Option<string>)

  /** The error a download returns, and the path of the file it created, if any. */
  datatype DownloadOutcome = DownloadOutcome(err: Option<string>, created: Option<string>)

  const ErrNoDownloadURL: string := "failed to get download URL"
  const ErrDownloadFailed: string := "failed to download file"
  const StatusOK: int := 200

  /** The name the downloaded file gets: title, a dot, the format, with every '/' made '_'. */
  function DestinationName(b: AnnaBook): (name: string)
    ensures |name| == |b.title| + 1 + |b.format|
    ensures '/' !in name
  {
    var raw := b.title + "." + b.format;
    ReplaceByteAt(raw, '/', '_');
    ReplaceAll(raw, "/", "_")
  }

  /** Byte by byte, the name is title.format with '/' made '_'. */
  lemma DestinationNameAt(b: AnnaBook)
    ensures var name := DestinationName(b);
            forall k :: 0 <= k < |name| ==>
              name[k] == (var raw := b.title + "." + b.format; if raw[k] == '/' then '_' else raw[k])
  {
    ReplaceByteAt(b.title + "." + b.format, '/', '_');
  }

  /**
   * Book.Download: asks the API for a download URL, fetches it, and copies the
   * body into folder/title.format. Each step's failure ends the download with
   * that step's error; a file is created only once the transfer answered 200.
   */
  function Download(b: AnnaBook, folder: string, w: DownloadWorld): (r: DownloadOutcome)
    ensures r.created.Some? <==>
              w.api.ApiResponse? && w.api.downloadURL != "" &&
              w.transfer == TransferStatus(StatusOK) && w.createErr.None?
    ensures r.created.Some? ==> r.created.value == Filenames.JoinPath(folder, DestinationName(b))
    ensures r.err.None? <==> r.created.Some? && w.copyErr.None?
    ensures w.api.ApiResponse? && w.api.downloadURL == "" ==>
              r.err == Some(if w.api.error != "" then w.api.error else ErrNoDownloadURL)
    ensures (w.api.ApiResponse? && w.api.downloadURL != "" && w.transfer.TransferStatus? &&
             w.transfer.code != StatusOK) ==> r.err == Some(ErrDownloadFailed)
  {
    match w.api
    case ApiFailed(e) => DownloadOutcome(Some(e), None)
    case ApiResponse(url, apiErr) =>
      if url == "" then
        DownloadOutcome(Some(if apiErr != "" then apiErr else ErrNoDownloadURL), None)
      else
        match w.transfer
        case TransferFailed(e) => DownloadOutcome(Some(e), None)
        case TransferStatus(code) =>
          if code != StatusOK then DownloadOutcome(Some(ErrDownloadFailed), None)
          else
            var path := Filenames.JoinPath(folder, DestinationName(b));
            match w.createErr
            case Some(e) => DownloadOutcome(Some(e), None)
            case None => DownloadOutcome(w.copyErr, Some(path))
  }

  // ---------------------------------------------------------------------------
  // GetBookMetadata
  // ---------------------------------------------------------------------------

  const ErrSearchPrefix: string := "failed to search for book metadata: "

  function NotFoundMessage(hash: string): string
  {
    "book with hash " + hash + " not found"
  }

  /**
   * GetBookMetadata: searches for the hash and returns the first result that
   * carries exactly that hash. `search` is what the search returned.
   */
  method GetBookMetadata(hash: string, search: Result<seq<AnnaBook>>) returns (r: Result<AnnaBook>)
    ensures search.Err? ==> r == Err(ErrSearchPrefix + search.msg)
    ensures search.Ok? ==> (r.Ok? <==> exists i :: 0 <= i < |search.value| && search.value[i].hash == hash)
    ensures search.Ok? && r.Ok? ==>
              r.value.hash == hash &&
              exists i :: 0 <= i < |search.value| && search.value[i] == r.value &&
                          forall j :: 0 <= j < i ==> search.value[j].hash != hash
    ensures search.Ok? && r.Err? ==> r.msg == NotFoundMessage(hash)
  {
    if search.Err? {
      return Err(ErrSearchPrefix + search.msg);
    }
    var books := search.value;
    var i := 0;
    while i < |books|
      invariant 0 <= i <= |books|
      invariant forall j :: 0 <= j < i ==> books[j].hash != hash
    {
      if books[i].hash == hash {
        return Ok(books[i]);
      }
      i := i + 1;
    }
    return Err(NotFoundMessage(hash));
  }
}
